/** Cache metrics (backend/app/services/cache_metrics.py): cumulative counters turned into deltas per time bucket. */
module CacheMetrics {
  import opened Common

  // Times are microseconds since the epoch.
  const SECOND := 1000000

  /** HAProxy counters of one backend. */
  datatype HaproxyStats = HaproxyStats(hit: nat, miss: nat, bytesSaved: nat, compIn: nat, compOut: nat)

  /** Varnish counters, which are global, and its gauge of stored objects. */
  datatype DiskStats = DiskStats(
    hit: nat, miss: nat, hitGrace: nat, hitPass: nat, hitMiss: nat, objects: nat, clientBytes: nat, backendBytes: nat)

  datatype Snapshot = Snapshot(time: int, backend: int, haproxy: HaproxyStats, disk: Option<DiskStats>)

  /** What a bucket accumulates: sums, and the largest object count. */
  datatype Tally = Tally(
    haproxyHit: nat, haproxyMiss: nat, memoryBytes: nat, compressionBytes: nat,
    diskHit: nat, diskMiss: nat, diskBytes: nat, diskObjects: nat)

  const ZERO := Tally(0, 0, 0, 0, 0, 0, 0, 0)

  function Max(a: int, b: int): int { if a >= b then a else b }

  function Plus(a: Tally, b: Tally): Tally {
    Tally(
      a.haproxyHit + b.haproxyHit, a.haproxyMiss + b.haproxyMiss, a.memoryBytes + b.memoryBytes,
      a.compressionBytes + b.compressionBytes, a.diskHit + b.diskHit, a.diskMiss + b.diskMiss,
      a.diskBytes + b.diskBytes, Max(a.diskObjects, b.diskObjects))
  }

  function CounterDelta(cur: nat, prev: nat): nat {
    if cur - prev >= 0 then cur - prev else cur
  }

  function BucketStart(time: int, step: nat): int
    requires step > 0
  {
    time / (step * SECOND) * (step * SECOND)
  }

  /** A sample lies in its bucket. */
  lemma BucketContains(time: int, step: nat)
    requires step > 0
    ensures BucketStart(time, step) <= time < BucketStart(time, step) + step * SECOND
  {
    var width := step * SECOND;
    assert time == time / width * width + time % width;
  }

  /** int(timestamp): truncation towards the epoch. */
  function WholeSecond(time: int): int {
    if time >= 0 then time / SECOND else -((-time) / SECOND)
  }

  function HaproxyTally(prev: HaproxyStats, cur: HaproxyStats): Tally {
    var compIn, compOut := CounterDelta(cur.compIn, prev.compIn), CounterDelta(cur.compOut, prev.compOut);
    Tally(CounterDelta(cur.hit, prev.hit), CounterDelta(cur.miss, prev.miss), CounterDelta(cur.bytesSaved, prev.bytesSaved),
          Max(0, compIn - compOut), 0, 0, 0, 0)
  }

  function DiskHits(prev: DiskStats, cur: DiskStats): nat {
    CounterDelta(cur.hit, prev.hit) + CounterDelta(cur.hitGrace, prev.hitGrace)
  }

  function DiskMisses(prev: DiskStats, cur: DiskStats): nat {
    CounterDelta(cur.miss, prev.miss) + CounterDelta(cur.hitPass, prev.hitPass) + CounterDelta(cur.hitMiss, prev.hitMiss)
  }

  /** Bytes served from disk count only when something was looked up. */
  function DiskBytes(prev: DiskStats, cur: DiskStats): nat {
    if DiskHits(prev, cur) + DiskMisses(prev, cur) > 0 then
      Max(0, CounterDelta(cur.clientBytes, prev.clientBytes) - CounterDelta(cur.backendBytes, prev.backendBytes))
    else 0
  }

  function DiskTally(prev: Option<DiskStats>, cur: DiskStats): Tally {
    match prev
    case None => ZERO.(diskObjects := cur.objects)
    case Some(p) => Tally(0, 0, 0, 0, DiskHits(p, cur), DiskMisses(p, cur), DiskBytes(p, cur), cur.objects)
  }

  // ---------------------------------------------------------------- deposits

  datatype Deposit = Deposit(bucket: int, amount: Tally)

  function Held(buckets: map<int, Tally>, b: int): Tally {
    if b in buckets then buckets[b] else ZERO
  }

  function Pour(buckets: map<int, Tally>, deposits: seq<Deposit>): map<int, Tally> {
    if deposits == [] then buckets
    else
      var d, before := deposits[|deposits| - 1], Pour(buckets, deposits[..|deposits| - 1]);
      before[d.bucket := Plus(Held(before, d.bucket), d.amount)]
  }

  function Total(deposits: seq<Deposit>): Tally {
    if deposits == [] then ZERO
    else Plus(Total(deposits[..|deposits| - 1]), deposits[|deposits| - 1].amount)
  }

  lemma PourOneMore(buckets: map<int, Tally>, deposits: seq<Deposit>, d: Deposit)
    ensures Pour(buckets, deposits + [d]) == Pour(buckets, deposits)[d.bucket := Plus(Held(Pour(buckets, deposits), d.bucket), d.amount)]
  {
    assert (deposits + [d])[..|deposits|] == deposits;
  }

  /** The deposits of one backend's series: one for each in-window sample that has a predecessor. */
  function HaproxyDeposits(series: seq<Snapshot>, from: int, step: nat): seq<Deposit>
    requires step > 0
  {
    if series == [] then []
    else
      var n := |series| - 1;
      HaproxyDeposits(series[..n], from, step) +
      (if n > 0 && series[n].time >= from
       then [Deposit(BucketStart(series[n].time, step), HaproxyTally(series[n - 1].haproxy, series[n].haproxy))]
       else [])
  }

  lemma HaproxyDepositsGrow(series: seq<Snapshot>, i: nat, from: int, step: nat)
    requires step > 0 && i < |series|
    ensures HaproxyDeposits(series[..i + 1], from, step) == HaproxyDeposits(series[..i], from, step) +
      (if i > 0 && series[i].time >= from
       then [Deposit(BucketStart(series[i].time, step), HaproxyTally(series[i - 1].haproxy, series[i].haproxy))]
       else [])
  {
    assert series[..i + 1][..i] == series[..i];
  }

  datatype DiskSample = DiskSample(second: int, stats: DiskStats)

  function DiskDeposits(series: seq<DiskSample>, from: int, step: nat): seq<Deposit>
    requires step > 0
  {
    if series == [] then []
    else
      var n := |series| - 1;
      var time := series[n].second * SECOND;
      DiskDeposits(series[..n], from, step) +
      (if time >= from
       then [Deposit(BucketStart(time, step), DiskTally(if n == 0 then None else Some(series[n - 1].stats), series[n].stats))]
       else [])
  }

  lemma DiskDepositsGrow(series: seq<DiskSample>, i: nat, from: int, step: nat)
    requires step > 0 && i < |series|
    ensures var time := series[i].second * SECOND;
      DiskDeposits(series[..i + 1], from, step) == DiskDeposits(series[..i], from, step) +
      (if time >= from
       then [Deposit(BucketStart(time, step), DiskTally(if i == 0 then None else Some(series[i - 1].stats), series[i].stats))]
       else [])
  {
    assert series[..i + 1][..i] == series[..i];
  }

  // ---------------------------------------------------------------- series

  /** The samples of one backend, in order. */
  function SeriesOf(snapshots: seq<Snapshot>, backend: int): seq<Snapshot> {
    if snapshots == [] then []
    else
      var n := |snapshots| - 1;
      SeriesOf(snapshots[..n], backend) + (if snapshots[n].backend == backend then [snapshots[n]] else [])
  }

  /** The backends in order of first appearance. */
  function Backends(snapshots: seq<Snapshot>): seq<int> {
    if snapshots == [] then []
    else
      var n, before := |snapshots| - 1, Backends(snapshots[..|snapshots| - 1]);
      if snapshots[n].backend in before then before else before + [snapshots[n].backend]
  }

  function AllHaproxyDeposits(backends: seq<int>, snapshots: seq<Snapshot>, from: int, step: nat): seq<Deposit>
    requires step > 0
  {
    if backends == [] then []
    else
      AllHaproxyDeposits(backends[..|backends| - 1], snapshots, from, step)
      + HaproxyDeposits(SeriesOf(snapshots, backends[|backends| - 1]), from, step)
  }

  function Join(a: DiskStats, b: DiskStats): DiskStats {
    DiskStats(
      Max(a.hit, b.hit), Max(a.miss, b.miss), Max(a.hitGrace, b.hitGrace), Max(a.hitPass, b.hitPass),
      Max(a.hitMiss, b.hitMiss), Max(a.objects, b.objects), Max(a.clientBytes, b.clientBytes), Max(a.backendBytes, b.backendBytes))
  }

  /** The disk readings by second, each the componentwise maximum of the rows sampled in that second. */
  function DiskSeries(snapshots: seq<Snapshot>): map<int, DiskStats> {
    if snapshots == [] then map[]
    else
      var n, before := |snapshots| - 1, DiskSeries(snapshots[..|snapshots| - 1]);
      match snapshots[n].disk
      case None => before
      case Some(stats) =>
        var key := WholeSecond(snapshots[n].time);
        before[key := if key in before then Join(before[key], stats) else stats]
  }

  ghost predicate Increasing(keys: seq<int>) {
    forall i, j :: 0 <= i < j < |keys| ==> keys[i] < keys[j]
  }

  /** The series in time order. */
  function Ordered(keys: seq<int>, series: map<int, DiskStats>): seq<DiskSample>
    requires forall i :: 0 <= i < |keys| ==> keys[i] in series
  {
    seq(|keys|, i requires 0 <= i < |keys| => DiskSample(keys[i], series[keys[i]]))
  }

  // ---------------------------------------------------------------- the program

  /** Some element of a set. */
  method Pick<T(==)>(s: set<T>) returns (x: T)
    requires s != {}
    ensures x in s
  {
    x :| x in s;
  }

  /** sorted(s) */
  method Sorted(s: set<int>) returns (keys: seq<int>)
    ensures Increasing(keys)
    ensures forall k :: k in keys <==> k in s
  {
    keys := [];
    var rest := s;
    while rest != {}
      invariant rest <= s && Increasing(keys)
      invariant forall k :: k in keys <==> k in s && k !in rest
      invariant forall i, k :: 0 <= i < |keys| && k in rest ==> keys[i] < k
      decreases rest
    {
      var least := Least(rest);
      keys := keys + [least];
      rest := rest - {least};
    }
  }

  method Least(s: set<int>) returns (least: int)
    requires s != {}
    ensures least in s && forall k :: k in s ==> least <= k
  {
    least := Pick(s);
    var rest := s - {least};
    while rest != {}
      invariant rest <= s && least in s
      invariant forall k :: k in s && k !in rest ==> least <= k
      decreases rest
    {
      var k := Pick(rest);
      if k < least {
        least := k;
      }
      rest := rest - {k};
    }
  }

  method AddBackend(buckets: map<int, Tally>, series: seq<Snapshot>, from: int, step: nat) returns (result: map<int, Tally>)
    requires step > 0
    ensures result == Pour(buckets, HaproxyDeposits(series, from, step))
  {
    hide HaproxyDeposits, Pour, Plus, HaproxyTally, BucketStart, Held;
    result := buckets;
    var prev: Option<HaproxyStats> := None;
    NoDeposits(buckets, from, step);
    for i := 0 to |series|
      invariant prev == if i == 0 then None else Some(series[i - 1].haproxy)
      invariant result == Pour(buckets, HaproxyDeposits(series[..i], from, step))
    {
      var snap := series[i];
      ghost var done := HaproxyDeposits(series[..i], from, step);
      HaproxyDepositsGrow(series, i, from, step);
      assert done + [] == done;
      if prev.Some? {
        var delta := HaproxyTally(prev.value, snap.haproxy);
        if snap.time >= from {
          var b := BucketStart(snap.time, step);
          result := result[b := Plus(Held(result, b), delta)];
          PourOneMore(buckets, done, Deposit(b, delta));
        }
      }
      prev := Some(snap.haproxy);
    }
    assert series[..|series|] == series;
  }

  lemma NoDeposits(buckets: map<int, Tally>, from: int, step: nat)
    requires step > 0
    ensures Pour(buckets, HaproxyDeposits([], from, step)) == buckets && Pour(buckets, DiskDeposits([], from, step)) == buckets
  {
  }

  method AddDisk(buckets: map<int, Tally>, series: seq<DiskSample>, from: int, step: nat) returns (result: map<int, Tally>)
    requires step > 0
    ensures result == Pour(buckets, DiskDeposits(series, from, step))
  {
    hide DiskDeposits, Pour, BucketStart, Held, DiskHits, DiskMisses, DiskBytes;
    result := buckets;
    var prev: Option<DiskStats> := None;
    NoDeposits(buckets, from, step);
    for i := 0 to |series|
      invariant prev == if i == 0 then None else Some(series[i - 1].stats)
      invariant result == Pour(buckets, DiskDeposits(series[..i], from, step))
    {
      var cur := series[i].stats;
      var time := series[i].second * SECOND;
      ghost var done := DiskDeposits(series[..i], from, step);
      DiskDepositsGrow(series, i, from, step);
      assert done + [] == done;
      if time >= from {
        var b := BucketStart(time, step);
        var bucket := Held(result, b);
        if prev.Some? {
          bucket := bucket.(
            diskHit := bucket.diskHit + DiskHits(prev.value, cur),
            diskMiss := bucket.diskMiss + DiskMisses(prev.value, cur),
            diskBytes := bucket.diskBytes + DiskBytes(prev.value, cur));
        }
        bucket := bucket.(diskObjects := Max(bucket.diskObjects, cur.objects));
        assert bucket == Plus(Held(result, b), DiskTally(prev, cur));
        result := result[b := bucket];
        PourOneMore(buckets, done, Deposit(b, DiskTally(prev, cur)));
      }
      prev := Some(cur);
    }
    assert series[..|series|] == series;
  }

  method Deduplicate(snapshots: seq<Snapshot>) returns (series: map<int, DiskStats>)
    ensures series == DiskSeries(snapshots)
  {
    series := map[];
    for i := 0 to |snapshots|
      invariant series == DiskSeries(snapshots[..i])
    {
      assert snapshots[..i + 1][..i] == snapshots[..i];
      if snapshots[i].disk.None? {
        continue;
      }
      var cur := snapshots[i].disk.value;
      var key := WholeSecond(snapshots[i].time);
      if key !in series {
        series := series[key := cur];
      } else {
        series := series[key := Join(series[key], cur)];
      }
    }
    assert snapshots[..|snapshots|] == snapshots;
  }

  lemma BackendsGrow(snapshots: seq<Snapshot>, i: nat)
    requires i < |snapshots|
    ensures var before := Backends(snapshots[..i]); var b := snapshots[i].backend;
      Backends(snapshots[..i + 1]) == if b in before then before else before + [b]
  {
    assert snapshots[..i + 1][..i] == snapshots[..i];
  }

  lemma SeriesGrows(snapshots: seq<Snapshot>, i: nat, backend: int)
    requires i < |snapshots|
    ensures SeriesOf(snapshots[..i + 1], backend)
         == SeriesOf(snapshots[..i], backend) + (if snapshots[i].backend == backend then [snapshots[i]] else [])
  {
    assert snapshots[..i + 1][..i] == snapshots[..i];
  }

  ghost predicate Grouped(snapshots: seq<Snapshot>, order: seq<int>, byBackend: map<int, seq<Snapshot>>) {
    && order == Backends(snapshots)
    && (forall b :: b in byBackend <==> b in order)
    && forall b :: SeriesOf(snapshots, b) == if b in byBackend then byBackend[b] else []
  }

  method GroupByBackend(snapshots: seq<Snapshot>) returns (order: seq<int>, byBackend: map<int, seq<Snapshot>>)
    ensures Grouped(snapshots, order, byBackend)
  {
    hide SeriesOf, Backends;
    order, byBackend := [], map[];
    NothingGrouped();
    for i := 0 to |snapshots|
      invariant Grouped(snapshots[..i], order, byBackend)
    {
      BackendsGrow(snapshots, i);
      forall b { SeriesGrows(snapshots, i, b); }
      var b := snapshots[i].backend;
      if b !in byBackend {
        order := order + [b];
        byBackend := byBackend[b := []];
      }
      byBackend := byBackend[b := byBackend[b] + [snapshots[i]]];
    }
    assert snapshots[..|snapshots|] == snapshots;
  }

  lemma NothingGrouped()
    ensures Grouped([], [], map[])
  {
  }

  ghost predicate SortedKeys(snapshots: seq<Snapshot>, keys: seq<int>) {
    Increasing(keys) && forall k :: k in keys <==> k in DiskSeries(snapshots)
  }

  // ---------------------------------------------------------------- buckets add up

  lemma {:induction false} PourAppends(buckets: map<int, Tally>, a: seq<Deposit>, b: seq<Deposit>)
    ensures Pour(buckets, a + b) == Pour(Pour(buckets, a), b)
  {
    hide Plus;
    if b == [] {
      assert a + b == a;
    } else {
      var n := |b| - 1;
      PourAppends(buckets, a, b[..n]);
      assert a + b == (a + b[..n]) + [b[n]];
      PourOneMore(buckets, a + b[..n], b[n]);
    }
  }

  /** The sum of the buckets listed. */
  function KeySum(keys: seq<int>, buckets: map<int, Tally>): Tally {
    if keys == [] then ZERO
    else Plus(KeySum(keys[..|keys| - 1], buckets), Held(buckets, keys[|keys| - 1]))
  }

  lemma {:induction false} KeySumUnchanged(keys: seq<int>, buckets: map<int, Tally>, b: int, t: Tally)
    requires b !in keys
    ensures KeySum(keys, buckets[b := t]) == KeySum(keys, buckets)
  {
    if keys != [] {
      KeySumUnchanged(keys[..|keys| - 1], buckets, b, t);
    }
  }

  lemma {:induction false} KeySumGrows(keys: seq<int>, buckets: map<int, Tally>, b: int, amount: Tally)
    requires Increasing(keys) && b in keys
    ensures KeySum(keys, buckets[b := Plus(Held(buckets, b), amount)]) == Plus(KeySum(keys, buckets), amount)
  {
    hide Plus;
    var n := |keys| - 1;
    var after := buckets[b := Plus(Held(buckets, b), amount)];
    if keys[n] == b {
      KeySumUnchanged(keys[..n], buckets, b, Plus(Held(buckets, b), amount));
      PlusRegroup(KeySum(keys[..n], buckets), Held(buckets, b), amount);
    } else {
      assert b in keys[..n];
      KeySumGrows(keys[..n], buckets, b, amount);
      PlusSwap(KeySum(keys[..n], buckets), amount, Held(buckets, keys[n]));
    }
  }

  lemma PlusRegroup(a: Tally, b: Tally, c: Tally)
    ensures Plus(a, Plus(b, c)) == Plus(Plus(a, b), c)
  {
  }

  lemma PlusSwap(a: Tally, b: Tally, c: Tally)
    ensures Plus(Plus(a, b), c) == Plus(Plus(a, c), b)
  {
  }

  /** No deposit is lost or counted twice: the buckets sum to the deposits, whatever the bucket width. */
  lemma {:induction false} BucketsHoldEveryDeposit(keys: seq<int>, deposits: seq<Deposit>)
    requires Increasing(keys) && forall i :: 0 <= i < |deposits| ==> deposits[i].bucket in keys
    ensures KeySum(keys, Pour(map[], deposits)) == Total(deposits)
  {
    hide Plus, KeySum;
    if deposits == [] {
      EmptySum(keys);
    } else {
      var n := |deposits| - 1;
      BucketsHoldEveryDeposit(keys, deposits[..n]);
      KeySumGrows(keys, Pour(map[], deposits[..n]), deposits[n].bucket, deposits[n].amount);
    }
  }

  lemma {:induction false} EmptySum(keys: seq<int>)
    ensures KeySum(keys, map[]) == ZERO
  {
    hide Plus;
    if keys != [] {
      EmptySum(keys[..|keys| - 1]);
      PlusZero(ZERO);
    }
  }

  lemma PlusZero(t: Tally)
    ensures Plus(t, ZERO) == t
  {
  }

  lemma {:induction false} PourKeys(deposits: seq<Deposit>)
    ensures forall b :: b in Pour(map[], deposits) <==> exists i :: 0 <= i < |deposits| && deposits[i].bucket == b
  {
    hide Plus;
    if deposits != [] {
      var n := |deposits| - 1;
      PourKeys(deposits[..n]);
      assert forall i :: 0 <= i < n ==> deposits[..n][i] == deposits[i];
      forall b ensures b in Pour(map[], deposits) <==> exists i :: 0 <= i < |deposits| && deposits[i].bucket == b {
        if b != deposits[n].bucket && exists i :: 0 <= i < |deposits| && deposits[i].bucket == b {
          var i :| 0 <= i < |deposits| && deposits[i].bucket == b;
          assert deposits[..n][i].bucket == b;
        }
      }
    }
  }

  // ---------------------------------------------------------------- the query

  datatype Row = Row(start: int, tally: Tally)

  /** Object counts are not totalled. */
  function Summed(t: Tally): Tally { t.(diskObjects := 0) }

  /** The rows list the buckets in time order. */
  ghost predicate Lists(rows: seq<Row>, buckets: map<int, Tally>) {
    && (forall i, j :: 0 <= i < j < |rows| ==> rows[i].start < rows[j].start)
    && (forall i :: 0 <= i < |rows| ==> rows[i].start in buckets && rows[i].tally == buckets[rows[i].start])
    && forall b :: b in buckets ==> exists i :: 0 <= i < |rows| && rows[i].start == b
  }

  ghost function Deposits(snapshots: seq<Snapshot>, disk: seq<DiskSample>, from: int, step: nat): seq<Deposit>
    requires step > 0
  {
    AllHaproxyDeposits(Backends(snapshots), snapshots, from, step) + DiskDeposits(disk, from, step)
  }

  /** The deduplicated disk readings in time order. */
  ghost predicate DiskReadings(snapshots: seq<Snapshot>, disk: seq<DiskSample>) {
    exists keys :: SortedKeys(snapshots, keys) && (forall i :: 0 <= i < |keys| ==> keys[i] in DiskSeries(snapshots)) && disk == Ordered(keys, DiskSeries(snapshots))
  }

  lemma GroupedAt(snapshots: seq<Snapshot>, order: seq<int>, byBackend: map<int, seq<Snapshot>>, i: nat)
    requires Grouped(snapshots, order, byBackend) && i < |order|
    ensures order[i] in byBackend && byBackend[order[i]] == SeriesOf(snapshots, order[i])
  {
    var b := order[i];
    assert b in order;
    assert b in byBackend;
  }

  method AddBackends(order: seq<int>, byBackend: map<int, seq<Snapshot>>, snapshots: seq<Snapshot>, from: int, step: nat) returns (buckets: map<int, Tally>)
    requires step > 0 && Grouped(snapshots, order, byBackend)
    ensures buckets == Pour(map[], AllHaproxyDeposits(order, snapshots, from, step))
  {
    hide Pour, HaproxyDeposits, Grouped, SeriesOf;
    buckets := map[];
    NoneYet(snapshots, from, step);
    for i := 0 to |order|
      invariant buckets == Pour(map[], AllHaproxyDeposits(order[..i], snapshots, from, step))
    {
      assert order[..i + 1][..i] == order[..i];
      GroupedAt(snapshots, order, byBackend, i);
      assert order[i] in byBackend && byBackend[order[i]] == SeriesOf(snapshots, order[i]);
      PourAppends(map[], AllHaproxyDeposits(order[..i], snapshots, from, step), HaproxyDeposits(SeriesOf(snapshots, order[i]), from, step));
      buckets := AddBackend(buckets, byBackend[order[i]], from, step);
    }
    assert order[..|order|] == order;
  }

  lemma NoneYet(snapshots: seq<Snapshot>, from: int, step: nat)
    requires step > 0
    ensures Pour(map[], AllHaproxyDeposits([], snapshots, from, step)) == map[]
  {
  }

  /** Rows for the buckets, and the totals, which are those of all deposits. */
  method GetCacheMetrics(snapshots: seq<Snapshot>, from: int, step: nat) returns (rows: seq<Row>, totals: Tally)
    requires step > 0
    ensures exists disk :: DiskReadings(snapshots, disk)
                           && Lists(rows, Pour(map[], Deposits(snapshots, disk, from, step)))
                           && totals == Summed(Total(Deposits(snapshots, disk, from, step)))
  {
    hide Pour, AllHaproxyDeposits, DiskDeposits, DiskSeries, Total, Plus;
    var order, byBackend := GroupByBackend(snapshots);
    var buckets := AddBackends(order, byBackend, snapshots, from, step);
    var series := Deduplicate(snapshots);
    var seconds := Sorted(series.Keys);
    assert forall i :: 0 <= i < |seconds| ==> seconds[i] in seconds;
    var disk := Ordered(seconds, series);
    buckets := AddDisk(buckets, disk, from, step);
    ghost var deposits := Deposits(snapshots, disk, from, step);
    assert buckets == Pour(map[], deposits) by {
      PourAppends(map[], AllHaproxyDeposits(order, snapshots, from, step), DiskDeposits(disk, from, step));
    }
    var keys := Sorted(buckets.Keys);
    rows, totals := Summarize(keys, buckets);
    PourKeys(deposits);
    BucketsHoldEveryDeposit(keys, deposits);
  }

  lemma NextKeySum(keys: seq<int>, i: nat, buckets: map<int, Tally>)
    requires i < |keys| && keys[i] in buckets
    ensures KeySum(keys[..i + 1], buckets) == Plus(KeySum(keys[..i], buckets), buckets[keys[i]])
  {
    assert keys[..i + 1][..i] == keys[..i];
  }

  lemma SummedPlus(a: Tally, b: Tally)
    ensures Summed(Plus(Summed(a), b)) == Summed(Plus(a, b))
  {
  }

  lemma ListsKeys(keys: seq<int>, buckets: map<int, Tally>, rows: seq<Row>)
    requires Increasing(keys) && (forall k :: k in keys <==> k in buckets) && |rows| == |keys|
    requires forall j :: 0 <= j < |rows| ==> keys[j] in buckets && rows[j] == Row(keys[j], buckets[keys[j]])
    ensures Lists(rows, buckets)
  {
    forall k | k in buckets ensures exists i :: 0 <= i < |rows| && rows[i].start == k {
      var i :| 0 <= i < |keys| && keys[i] == k;
      assert rows[i].start == k;
    }
  }

  method Summarize(keys: seq<int>, buckets: map<int, Tally>) returns (rows: seq<Row>, totals: Tally)
    requires Increasing(keys) && forall k :: k in keys <==> k in buckets
    ensures Lists(rows, buckets)
    ensures totals == Summed(KeySum(keys, buckets))
  {
    rows, totals := [], ZERO;
    assert totals == Summed(KeySum([], buckets));
    hide Plus, Summed, KeySum, Lists, Increasing;
    for i := 0 to |keys|
      invariant |rows| == i && forall j :: 0 <= j < i ==> keys[j] in buckets && rows[j] == Row(keys[j], buckets[keys[j]])
      invariant totals == Summed(KeySum(keys[..i], buckets))
    {
      assert keys[i] in keys;
      var b := buckets[keys[i]];
      NextKeySum(keys, i, buckets);
      SummedPlus(KeySum(keys[..i], buckets), b);
      totals := Summed(Plus(totals, b));
      rows := rows + [Row(keys[i], b)];
    }
    assert keys[..|keys|] == keys;
    ListsKeys(keys, buckets, rows);
  }
}
