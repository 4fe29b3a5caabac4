/** What each row of a cache-metrics query holds: the deltas of exactly the samples in its step. */
module MetricsRows {
  import opened Common
  import opened CacheMetrics

  // ---------------------------------------------------------------- buckets

  ghost predicate IsMultiple(x: int, width: int) {
    exists k :: Times(k, width) == x
  }

  function Times(k: int, width: int): int { k * width }

  /** A multiple of the step lies after a and not after b. */
  ghost predicate Separated(a: int, b: int, width: int) {
    exists x | a < x <= b :: IsMultiple(x, width)
  }

  lemma BucketIsMultiple(time: int, step: nat)
    requires step > 0
    ensures IsMultiple(BucketStart(time, step), step * SECOND)
  {
    assert Times(time / (step * SECOND), step * SECOND) == BucketStart(time, step);
  }

  /** Different multiples lie at least one step apart. */
  lemma MultiplesApart(x: int, y: int, width: int)
    requires width > 0 && IsMultiple(x, width) && IsMultiple(y, width) && x < y
    ensures x + width <= y
  {
    var i :| Times(i, width) == x;
    var j :| Times(j, width) == y;
    if j <= i { TimesGrows(j, i - j, width); } else { TimesGrows(i + 1, j - i - 1, width); }
  }

  lemma TimesGrows(k: int, d: nat, width: int)
    requires width > 0
    ensures Times(k, width) <= Times(k + d, width)
    ensures Times(k, width) == Times(k - 1, width) + width
  {
    assert d * width >= 0;
    assert (k + d) * width == k * width + d * width && (k - 1) * width == k * width - width;
  }

  /** A multiple of the step is the bucket of exactly the times from there to the next one. */
  lemma BucketExactlyWhen(time: int, start: int, step: nat)
    requires step > 0
    ensures BucketStart(time, step) == start <==> IsMultiple(start, step * SECOND) && start <= time < start + step * SECOND
  {
    hide BucketStart, IsMultiple;
    var b := BucketStart(time, step);
    BucketContains(time, step);
    BucketIsMultiple(time, step);
    if IsMultiple(start, step * SECOND) && start <= time < start + step * SECOND {
      if b < start { MultiplesApart(b, start, step * SECOND); }
      if start < b { MultiplesApart(start, b, step * SECOND); }
    }
  }

  /** Two times share a bucket exactly when no multiple of the step separates them. */
  lemma SameBucketExactlyWhen(a: int, b: int, step: nat)
    requires step > 0 && a <= b
    ensures BucketStart(a, step) == BucketStart(b, step) <==> !Separated(a, b, step * SECOND)
  {
    hide BucketStart, IsMultiple;
    var width, x, y := step * SECOND, BucketStart(a, step), BucketStart(b, step);
    BucketContains(a, step);
    BucketContains(b, step);
    BucketIsMultiple(a, step);
    BucketIsMultiple(b, step);
    if x == y {
      forall z | a < z <= b ensures !IsMultiple(z, width) {
        if IsMultiple(z, width) { MultiplesApart(x, z, width); }
      }
    } else {
      if y < x { MultiplesApart(y, x, width); } else { MultiplesApart(x, y, width); }
      assert a < y <= b;
    }
  }

  // ---------------------------------------------------------------- deltas in an interval

  /** The deltas of one backend's samples in [lo, hi) that lie in the window and have a predecessor. */
  function HaproxyIn(series: seq<Snapshot>, from: int, lo: int, hi: int): Tally {
    if series == [] then ZERO
    else
      var n := |series| - 1;
      var before := HaproxyIn(series[..n], from, lo, hi);
      if n > 0 && series[n].time >= from && lo <= series[n].time < hi
      then Plus(before, HaproxyTally(series[n - 1].haproxy, series[n].haproxy)) else before
  }

  function BackendsIn(backends: seq<int>, snapshots: seq<Snapshot>, from: int, lo: int, hi: int): Tally {
    if backends == [] then ZERO
    else
      var n := |backends| - 1;
      Plus(BackendsIn(backends[..n], snapshots, from, lo, hi), HaproxyIn(SeriesOf(snapshots, backends[n]), from, lo, hi))
  }

  function DiskIn(disk: seq<DiskSample>, from: int, lo: int, hi: int): Tally {
    if disk == [] then ZERO
    else
      var n := |disk| - 1;
      var time := disk[n].second * SECOND;
      var before := DiskIn(disk[..n], from, lo, hi);
      if time >= from && lo <= time < hi
      then Plus(before, DiskTally(if n == 0 then None else Some(disk[n - 1].stats), disk[n].stats)) else before
  }

  /** Everything that was sampled in [lo, hi). */
  function SampledIn(snapshots: seq<Snapshot>, disk: seq<DiskSample>, from: int, lo: int, hi: int): Tally {
    Plus(BackendsIn(Backends(snapshots), snapshots, from, lo, hi), DiskIn(disk, from, lo, hi))
  }

  // ---------------------------------------------------------------- what a bucket holds

  /** The sum of the deposits into one bucket. */
  function Into(deposits: seq<Deposit>, b: int): Tally {
    if deposits == [] then ZERO
    else
      var n := |deposits| - 1;
      if deposits[n].bucket == b then Plus(Into(deposits[..n], b), deposits[n].amount) else Into(deposits[..n], b)
  }

  lemma {:induction false} PouredInto(deposits: seq<Deposit>, b: int)
    ensures Held(Pour(map[], deposits), b) == Into(deposits, b)
  {
    hide Plus;
    if deposits != [] {
      PouredInto(deposits[..|deposits| - 1], b);
    }
  }

  lemma {:induction false} IntoAppends(a: seq<Deposit>, b: seq<Deposit>, bucket: int)
    ensures Into(a + b, bucket) == Plus(Into(a, bucket), Into(b, bucket))
  {
    hide Plus;
    if b == [] {
      assert a + b == a;
      PlusZero(Into(a, bucket));
    } else {
      var n := |b| - 1;
      IntoAppends(a, b[..n], bucket);
      assert (a + b)[..|a + b| - 1] == a + b[..n];
      PlusRegroup(Into(a, bucket), Into(b[..n], bucket), b[n].amount);
    }
  }

  lemma IntoOneMore(deposits: seq<Deposit>, d: Deposit, b: int)
    ensures Into(deposits + [d], b) == if d.bucket == b then Plus(Into(deposits, b), d.amount) else Into(deposits, b)
  {
    assert (deposits + [d])[..|deposits|] == deposits;
  }

  lemma {:induction false} IntoHaproxy(series: seq<Snapshot>, from: int, step: nat, b: int)
    requires step > 0 && IsMultiple(b, step * SECOND)
    ensures Into(HaproxyDeposits(series, from, step), b) == HaproxyIn(series, from, b, b + step * SECOND)
  {
    hide IsMultiple, BucketStart, Plus, HaproxyTally, Into;
    if series == [] {
      IntoNothing(b);
    } else {
      var n := |series| - 1;
      var done := HaproxyDeposits(series[..n], from, step);
      IntoHaproxy(series[..n], from, step, b);
      BucketExactlyWhen(series[n].time, b, step);
      if n > 0 && series[n].time >= from {
        IntoOneMore(done, Deposit(BucketStart(series[n].time, step), HaproxyTally(series[n - 1].haproxy, series[n].haproxy)), b);
      } else {
        assert done + [] == done;
      }
    }
  }

  lemma IntoNothing(b: int)
    ensures Into([], b) == ZERO
  {
  }

  lemma {:induction false} IntoDisk(disk: seq<DiskSample>, from: int, step: nat, b: int)
    requires step > 0 && IsMultiple(b, step * SECOND)
    ensures Into(DiskDeposits(disk, from, step), b) == DiskIn(disk, from, b, b + step * SECOND)
  {
    hide IsMultiple, BucketStart, Plus, DiskTally, Into;
    if disk == [] {
      IntoNothing(b);
    } else {
      var n := |disk| - 1;
      var time := disk[n].second * SECOND;
      var done := DiskDeposits(disk[..n], from, step);
      IntoDisk(disk[..n], from, step, b);
      BucketExactlyWhen(time, b, step);
      if time >= from {
        IntoOneMore(done, Deposit(BucketStart(time, step), DiskTally(if n == 0 then None else Some(disk[n - 1].stats), disk[n].stats)), b);
      } else {
        assert done + [] == done;
      }
    }
  }

  lemma {:induction false} IntoBackends(backends: seq<int>, snapshots: seq<Snapshot>, from: int, step: nat, b: int)
    requires step > 0 && IsMultiple(b, step * SECOND)
    ensures Into(AllHaproxyDeposits(backends, snapshots, from, step), b) == BackendsIn(backends, snapshots, from, b, b + step * SECOND)
  {
    hide IsMultiple, Plus, Into, HaproxyDeposits, HaproxyIn, SeriesOf;
    if backends == [] {
      IntoNothing(b);
    } else {
      var n := |backends| - 1;
      IntoBackends(backends[..n], snapshots, from, step, b);
      IntoHaproxy(SeriesOf(snapshots, backends[n]), from, step, b);
      IntoAppends(AllHaproxyDeposits(backends[..n], snapshots, from, step), HaproxyDeposits(SeriesOf(snapshots, backends[n]), from, step), b);
    }
  }

  // ---------------------------------------------------------------- which buckets there are

  /** A sample in [lo, hi) that lies in the window and, for HAProxy, has a predecessor in its series. */
  ghost predicate SomeSampleIn(snapshots: seq<Snapshot>, disk: seq<DiskSample>, from: int, lo: int, hi: int) {
    AnyBackendIn(Backends(snapshots), snapshots, from, lo, hi) || AnyReadingIn(disk, from, lo, hi)
  }

  ghost predicate AnyBackendIn(backends: seq<int>, snapshots: seq<Snapshot>, from: int, lo: int, hi: int) {
    exists k | 0 <= k < |backends| :: AnySampleIn(SeriesOf(snapshots, backends[k]), from, lo, hi)
  }

  ghost predicate AnySampleIn(series: seq<Snapshot>, from: int, lo: int, hi: int) {
    exists i :: SampleIn(series, i, from, lo, hi)
  }

  ghost predicate AnyReadingIn(disk: seq<DiskSample>, from: int, lo: int, hi: int) {
    exists i :: ReadingIn(disk, i, from, lo, hi)
  }

  predicate ReadingIn(disk: seq<DiskSample>, i: int, from: int, lo: int, hi: int) {
    0 <= i < |disk| && disk[i].second * SECOND >= from && lo <= disk[i].second * SECOND < hi
  }

  predicate SampleIn(series: seq<Snapshot>, i: int, from: int, lo: int, hi: int) {
    0 < i < |series| && series[i].time >= from && lo <= series[i].time < hi
  }

  predicate Fed(deposits: seq<Deposit>, b: int) {
    exists i | 0 <= i < |deposits| :: deposits[i].bucket == b
  }

  lemma FedAppends(x: seq<Deposit>, y: seq<Deposit>, b: int)
    ensures Fed(x + y, b) <==> Fed(x, b) || Fed(y, b)
  {
    var all := x + y;
    if i :| 0 <= i < |x| && x[i].bucket == b { assert all[i].bucket == b; }
    if i :| 0 <= i < |y| && y[i].bucket == b { assert all[|x| + i].bucket == b; }
    if i :| 0 <= i < |all| && all[i].bucket == b {
      if i < |x| { assert x[i].bucket == b; } else { assert y[i - |x|].bucket == b; }
    }
  }

  lemma FedByOne(d: Deposit, b: int)
    ensures Fed([d], b) <==> d.bucket == b
    ensures !Fed([], b)
  {
    assert [d][0] == d;
  }

  lemma {:induction false} FedHaproxy(series: seq<Snapshot>, from: int, step: nat, b: int)
    requires step > 0 && IsMultiple(b, step * SECOND)
    ensures Fed(HaproxyDeposits(series, from, step), b) <==> AnySampleIn(series, from, b, b + step * SECOND)
  {
    hide IsMultiple, BucketStart, HaproxyTally, Fed;
    if series == [] {
      FedByOne(Deposit(b, ZERO), b);
    } else {
      var n := |series| - 1;
      FedHaproxy(series[..n], from, step, b);
      BucketExactlyWhen(series[n].time, b, step);
      var d := Deposit(BucketStart(series[n].time, step), if n > 0 then HaproxyTally(series[n - 1].haproxy, series[n].haproxy) else ZERO);
      FedByOne(d, b);
      FedAppends(HaproxyDeposits(series[..n], from, step), if n > 0 && series[n].time >= from then [d] else [], b);
      LastSample(series, from, b, b + step * SECOND);
    }
  }

  lemma LastSample(series: seq<Snapshot>, from: int, lo: int, hi: int)
    requires series != []
    ensures var n := |series| - 1;
      AnySampleIn(series, from, lo, hi) <==> SampleIn(series, n, from, lo, hi) || AnySampleIn(series[..n], from, lo, hi)
  {
    var n := |series| - 1;
    if i :| SampleIn(series, i, from, lo, hi) { assert i < n ==> SampleIn(series[..n], i, from, lo, hi); }
    if i :| SampleIn(series[..n], i, from, lo, hi) { assert SampleIn(series, i, from, lo, hi); }
  }

  lemma {:induction false} FedDisk(disk: seq<DiskSample>, from: int, step: nat, b: int)
    requires step > 0 && IsMultiple(b, step * SECOND)
    ensures Fed(DiskDeposits(disk, from, step), b) <==> AnyReadingIn(disk, from, b, b + step * SECOND)
  {
    hide IsMultiple, BucketStart, DiskTally, Fed;
    if disk == [] {
      FedByOne(Deposit(b, ZERO), b);
    } else {
      var n := |disk| - 1;
      var time := disk[n].second * SECOND;
      FedDisk(disk[..n], from, step, b);
      BucketExactlyWhen(time, b, step);
      var d := Deposit(BucketStart(time, step), DiskTally(if n == 0 then None else Some(disk[n - 1].stats), disk[n].stats));
      FedByOne(d, b);
      FedAppends(DiskDeposits(disk[..n], from, step), if time >= from then [d] else [], b);
      LastReading(disk, from, b, b + step * SECOND);
    }
  }

  lemma LastReading(disk: seq<DiskSample>, from: int, lo: int, hi: int)
    requires disk != []
    ensures var n := |disk| - 1;
      AnyReadingIn(disk, from, lo, hi) <==> ReadingIn(disk, n, from, lo, hi) || AnyReadingIn(disk[..n], from, lo, hi)
  {
    var n := |disk| - 1;
    if i :| ReadingIn(disk, i, from, lo, hi) { assert i < n ==> ReadingIn(disk[..n], i, from, lo, hi); }
    if i :| ReadingIn(disk[..n], i, from, lo, hi) { assert ReadingIn(disk, i, from, lo, hi); }
  }

  lemma {:induction false} FedBackends(backends: seq<int>, snapshots: seq<Snapshot>, from: int, step: nat, b: int)
    requires step > 0 && IsMultiple(b, step * SECOND)
    ensures Fed(AllHaproxyDeposits(backends, snapshots, from, step), b)
       <==> AnyBackendIn(backends, snapshots, from, b, b + step * SECOND)
  {
    hide IsMultiple, HaproxyDeposits, Fed, SeriesOf, AnySampleIn;
    if backends == [] {
      FedByOne(Deposit(b, ZERO), b);
    } else {
      var n := |backends| - 1;
      FedBackends(backends[..n], snapshots, from, step, b);
      FedHaproxy(SeriesOf(snapshots, backends[n]), from, step, b);
      FedAppends(AllHaproxyDeposits(backends[..n], snapshots, from, step), HaproxyDeposits(SeriesOf(snapshots, backends[n]), from, step), b);
      var lo, hi := b, b + step * SECOND;
      assert forall k :: 0 <= k < n ==> backends[..n][k] == backends[k];
      if k :| 0 <= k < n && AnySampleIn(SeriesOf(snapshots, backends[..n][k]), from, lo, hi) {
        assert AnySampleIn(SeriesOf(snapshots, backends[k]), from, lo, hi);
      }
      if k :| 0 <= k < |backends| && AnySampleIn(SeriesOf(snapshots, backends[k]), from, lo, hi) {
        assert k < n ==> AnySampleIn(SeriesOf(snapshots, backends[..n][k]), from, lo, hi);
      }
    }
  }

  // ---------------------------------------------------------------- the rows

  /** The deposits go into multiples of the step. */
  ghost predicate AllMultiples(deposits: seq<Deposit>, width: int) {
    forall i | 0 <= i < |deposits| :: IsMultiple(deposits[i].bucket, width)
  }

  lemma {:induction false} HaproxyMultiples(series: seq<Snapshot>, from: int, step: nat)
    requires step > 0
    ensures AllMultiples(HaproxyDeposits(series, from, step), step * SECOND)
  {
    hide IsMultiple, BucketStart, HaproxyTally;
    if series != [] {
      HaproxyMultiples(series[..|series| - 1], from, step);
      BucketIsMultiple(series[|series| - 1].time, step);
    }
  }

  lemma {:induction false} DiskMultiples(disk: seq<DiskSample>, from: int, step: nat)
    requires step > 0
    ensures AllMultiples(DiskDeposits(disk, from, step), step * SECOND)
  {
    hide IsMultiple, BucketStart, DiskTally;
    if disk != [] {
      DiskMultiples(disk[..|disk| - 1], from, step);
      BucketIsMultiple(disk[|disk| - 1].second * SECOND, step);
    }
  }

  lemma {:induction false} BackendsMultiples(backends: seq<int>, snapshots: seq<Snapshot>, from: int, step: nat)
    requires step > 0
    ensures AllMultiples(AllHaproxyDeposits(backends, snapshots, from, step), step * SECOND)
  {
    hide IsMultiple, HaproxyDeposits, SeriesOf;
    if backends != [] {
      var n := |backends| - 1;
      BackendsMultiples(backends[..n], snapshots, from, step);
      HaproxyMultiples(SeriesOf(snapshots, backends[n]), from, step);
    }
  }

  /** A bucket is there exactly when something was deposited into it. */
  lemma BucketIsFed(deposits: seq<Deposit>, b: int)
    ensures b in Pour(map[], deposits) <==> Fed(deposits, b)
  {
    PourKeys(deposits);
  }

  /** A multiple of the step has a row exactly when something was sampled in the step that starts there; the row holds just that. */
  lemma BucketHoldsItsStep(snapshots: seq<Snapshot>, disk: seq<DiskSample>, from: int, step: nat, b: int)
    requires step > 0 && IsMultiple(b, step * SECOND)
    ensures var buckets := Pour(map[], Deposits(snapshots, disk, from, step));
      && Held(buckets, b) == SampledIn(snapshots, disk, from, b, b + step * SECOND)
      && (b in buckets <==> SomeSampleIn(snapshots, disk, from, b, b + step * SECOND))
  {
    hide IsMultiple, Pour, Plus, Into, AllHaproxyDeposits, DiskDeposits, Backends, BackendsIn, DiskIn, Fed, AnyBackendIn, AnyReadingIn;
    var x, y := AllHaproxyDeposits(Backends(snapshots), snapshots, from, step), DiskDeposits(disk, from, step);
    PouredInto(x + y, b);
    IntoAppends(x, y, b);
    IntoBackends(Backends(snapshots), snapshots, from, step, b);
    IntoDisk(disk, from, step, b);
    BucketIsFed(x + y, b);
    FedAppends(x, y, b);
    FedBackends(Backends(snapshots), snapshots, from, step, b);
    FedDisk(disk, from, step, b);
  }

  lemma BucketsAreMultiples(snapshots: seq<Snapshot>, disk: seq<DiskSample>, from: int, step: nat, b: int)
    requires step > 0 && b in Pour(map[], Deposits(snapshots, disk, from, step))
    ensures IsMultiple(b, step * SECOND)
  {
    hide IsMultiple, Pour, AllHaproxyDeposits, DiskDeposits, Backends;
    var x, y := AllHaproxyDeposits(Backends(snapshots), snapshots, from, step), DiskDeposits(disk, from, step);
    BackendsMultiples(Backends(snapshots), snapshots, from, step);
    DiskMultiples(disk, from, step);
    BucketIsFed(x + y, b);
  }

  /**
   * The rows start at multiples of the step, at least a step apart; there is one for each step in which something was sampled,
   * and it holds the deltas of exactly the samples in that step.
   */
  lemma RowsAreSteps(snapshots: seq<Snapshot>, disk: seq<DiskSample>, from: int, step: nat, rows: seq<Row>)
    requires step > 0 && Lists(rows, Pour(map[], Deposits(snapshots, disk, from, step)))
    ensures forall i :: 0 <= i < |rows| ==> IsMultiple(rows[i].start, step * SECOND)
    ensures forall i, j :: 0 <= i < j < |rows| ==> rows[i].start + step * SECOND <= rows[j].start
    ensures forall i :: 0 <= i < |rows| ==>
      rows[i].tally == SampledIn(snapshots, disk, from, rows[i].start, rows[i].start + step * SECOND)
    ensures forall b :: IsMultiple(b, step * SECOND) ==>
      ((exists i :: 0 <= i < |rows| && rows[i].start == b) <==> SomeSampleIn(snapshots, disk, from, b, b + step * SECOND))
  {
    hide IsMultiple, Pour, Deposits, SampledIn, SomeSampleIn;
    forall i | 0 <= i < |rows|
      ensures IsMultiple(rows[i].start, step * SECOND)
      ensures rows[i].tally == SampledIn(snapshots, disk, from, rows[i].start, rows[i].start + step * SECOND)
    {
      BucketsAreMultiples(snapshots, disk, from, step, rows[i].start);
      BucketHoldsItsStep(snapshots, disk, from, step, rows[i].start);
    }
    forall i, j | 0 <= i < j < |rows| ensures rows[i].start + step * SECOND <= rows[j].start {
      MultiplesApart(rows[i].start, rows[j].start, step * SECOND);
    }
    forall b | IsMultiple(b, step * SECOND)
      ensures (exists i :: 0 <= i < |rows| && rows[i].start == b) <==> SomeSampleIn(snapshots, disk, from, b, b + step * SECOND)
    {
      BucketHoldsItsStep(snapshots, disk, from, step, b);
    }
  }

  // ---------------------------------------------------------------- series

  /** A backend's series holds its own samples, each as often as it was sampled, and no others. */
  lemma {:induction false} SeriesHoldsOwnSamples(snapshots: seq<Snapshot>, backend: int, x: Snapshot)
    ensures multiset(SeriesOf(snapshots, backend))[x] == if x.backend == backend then multiset(snapshots)[x] else 0
  {
    if snapshots != [] {
      var n := |snapshots| - 1;
      SeriesHoldsOwnSamples(snapshots[..n], backend, x);
      assert snapshots == snapshots[..n] + [snapshots[n]];
    }
  }

  /** The backends are those sampled, each once. */
  lemma {:induction false} BackendsAreThoseSampled(snapshots: seq<Snapshot>)
    ensures forall b :: b in Backends(snapshots) <==> exists i :: 0 <= i < |snapshots| && snapshots[i].backend == b
    ensures forall i, j :: 0 <= i < j < |Backends(snapshots)| ==> Backends(snapshots)[i] != Backends(snapshots)[j]
  {
    if snapshots != [] {
      var n := |snapshots| - 1;
      BackendsAreThoseSampled(snapshots[..n]);
      forall b ensures b in Backends(snapshots) <==> exists i :: 0 <= i < |snapshots| && snapshots[i].backend == b {
        if i :| 0 <= i < n && snapshots[i].backend == b { assert snapshots[..n][i].backend == b; }
        if b == snapshots[n].backend { assert snapshots[n].backend == b; }
      }
    }
  }

  /** Rows of one second since the epoch are those from there to the next one. */
  lemma SecondExactlyWhen(time: int, second: int)
    requires time >= 0
    ensures WholeSecond(time) == second <==> second * SECOND <= time < (second + 1) * SECOND
  {
  }

  lemma {:induction false} SecondsWithReadings(snapshots: seq<Snapshot>, second: int)
    ensures second in DiskSeries(snapshots)
       <==> exists i :: 0 <= i < |snapshots| && snapshots[i].disk.Some? && WholeSecond(snapshots[i].time) == second
  {
    hide WholeSecond;
    if snapshots != [] {
      var n := |snapshots| - 1;
      var before := snapshots[..n];
      SecondsWithReadings(before, second);
      assert forall i :: 0 <= i < n ==> before[i] == snapshots[i];
      if i :| 0 <= i < n && before[i].disk.Some? && WholeSecond(before[i].time) == second {
        assert snapshots[i].disk.Some? && WholeSecond(snapshots[i].time) == second;
      }
      if i :| 0 <= i < |snapshots| && snapshots[i].disk.Some? && WholeSecond(snapshots[i].time) == second {
        assert i < n ==> before[i].disk.Some? && WholeSecond(before[i].time) == second;
      }
    }
  }

  /** The disk readings are one for each second with disk counters, in time order. */
  lemma DiskReadingsAreSeconds(snapshots: seq<Snapshot>, disk: seq<DiskSample>, second: int)
    requires DiskReadings(snapshots, disk)
    ensures forall i, j :: 0 <= i < j < |disk| ==> disk[i].second < disk[j].second
    ensures (exists i :: 0 <= i < |disk| && disk[i].second == second)
       <==> exists i :: 0 <= i < |snapshots| && snapshots[i].disk.Some? && WholeSecond(snapshots[i].time) == second
  {
    hide WholeSecond, DiskSeries;
    SecondsWithReadings(snapshots, second);
    var keys: seq<int> :| SortedKeys(snapshots, keys) && (forall i :: 0 <= i < |keys| ==> keys[i] in DiskSeries(snapshots))
                          && disk == Ordered(keys, DiskSeries(snapshots));
    assert forall i :: 0 <= i < |keys| ==> disk[i].second == keys[i];
    if second in DiskSeries(snapshots) {
      var i :| 0 <= i < |keys| && keys[i] == second;
      assert disk[i].second == second;
    }
  }

  // ---------------------------------------------------------------- one interval

  /** HAProxy samples feed no disk counts and disk samples no HAProxy counts; a first disk sample gives its object count only. */
  lemma SourcesAreSeparate(h1: HaproxyStats, h2: HaproxyStats, d1: DiskStats, d2: DiskStats)
    ensures var t := HaproxyTally(h1, h2); t.diskHit == 0 && t.diskMiss == 0 && t.diskBytes == 0 && t.diskObjects == 0
    ensures var t := DiskTally(Some(d1), d2); t.haproxyHit == 0 && t.haproxyMiss == 0 && t.memoryBytes == 0 && t.compressionBytes == 0
    ensures DiskTally(None, d2) == Tally(0, 0, 0, 0, 0, 0, 0, d2.objects)
  {
  }

  /** The object count of a row is the largest that was sampled in its step. */
  lemma {:induction false} ObjectsAreTheLargest(disk: seq<DiskSample>, from: int, lo: int, hi: int)
    ensures forall i :: ReadingIn(disk, i, from, lo, hi) ==> disk[i].stats.objects <= DiskIn(disk, from, lo, hi).diskObjects
    ensures DiskIn(disk, from, lo, hi).diskObjects == 0
         || exists i :: ReadingIn(disk, i, from, lo, hi) && disk[i].stats.objects == DiskIn(disk, from, lo, hi).diskObjects
  {
    hide DiskHits, DiskMisses, DiskBytes;
    if disk != [] {
      var n := |disk| - 1;
      ObjectsAreTheLargest(disk[..n], from, lo, hi);
      forall i | ReadingIn(disk, i, from, lo, hi) ensures disk[i].stats.objects <= DiskIn(disk, from, lo, hi).diskObjects {
        if i < n { assert ReadingIn(disk[..n], i, from, lo, hi); }
      }
      if i :| ReadingIn(disk[..n], i, from, lo, hi) && disk[..n][i].stats.objects == DiskIn(disk[..n], from, lo, hi).diskObjects {
        assert ReadingIn(disk, i, from, lo, hi) && disk[i] == disk[..n][i];
      }
      assert ReadingIn(disk, n, from, lo, hi) <==> disk[n].second * SECOND >= from && lo <= disk[n].second * SECOND < hi;
    }
  }

  /** Without a restart the bytes saved by compression are what went in less what came out, and never negative. */
  lemma CompressionSaves(prev: HaproxyStats, cur: HaproxyStats)
    requires prev.compIn <= cur.compIn && prev.compOut <= cur.compOut
    ensures var saved := HaproxyTally(prev, cur).compressionBytes;
      if cur.compIn - prev.compIn >= cur.compOut - prev.compOut then saved + cur.compOut + prev.compIn == cur.compIn + prev.compOut else saved == 0
  {
  }

  /** Without a restart the bytes served from disk are what clients got less what backends sent, if anything was looked up, and otherwise none. */
  lemma DiskSaves(prev: DiskStats, cur: DiskStats)
    requires prev.clientBytes <= cur.clientBytes && prev.backendBytes <= cur.backendBytes
    requires prev.hit <= cur.hit && prev.miss <= cur.miss && prev.hitGrace <= cur.hitGrace && prev.hitPass <= cur.hitPass && prev.hitMiss <= cur.hitMiss
    ensures var saved := DiskTally(Some(prev), cur).diskBytes;
      if prev.hit == cur.hit && prev.miss == cur.miss && prev.hitGrace == cur.hitGrace && prev.hitPass == cur.hitPass && prev.hitMiss == cur.hitMiss
      then saved == 0
      else if cur.clientBytes - prev.clientBytes >= cur.backendBytes - prev.backendBytes
      then saved + cur.backendBytes + prev.clientBytes == cur.clientBytes + prev.backendBytes
      else saved == 0
  {
  }
}
