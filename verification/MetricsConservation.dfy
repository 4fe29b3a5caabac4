/** What the totals of a cache-metrics query count: conservation of the cumulative counters. */
module MetricsConservation {
  import opened Common
  import opened CacheMetrics

  /** One reading of one cumulative counter. */
  datatype Reading = Reading(time: int, count: nat)

  /** The events that a series shows: the deltas of its in-window readings that have a predecessor. */
  function Gain(readings: seq<Reading>, from: int): nat {
    if readings == [] then 0
    else
      var n := |readings| - 1;
      Gain(readings[..n], from) +
      (if n > 0 && readings[n].time >= from then CounterDelta(readings[n].count, readings[n - 1].count) else 0)
  }

  predicate InOrder(readings: seq<Reading>) {
    forall i, j :: 0 <= i < j < |readings| ==> readings[i].time <= readings[j].time
  }

  /** No reset: the counter never drops. */
  predicate Monotone(readings: seq<Reading>) {
    forall i :: 0 < i < |readings| ==> readings[i - 1].count <= readings[i].count
  }

  /** The reading that deltas start from: the last one before the window, or else the first. */
  function Baseline(readings: seq<Reading>, from: int): (b: nat)
    requires readings != []
    ensures b < |readings|
    ensures b > 0 ==> readings[b].time < from
    ensures forall i :: b < i < |readings| ==> readings[i].time >= from
  {
    var n := |readings| - 1;
    if n == 0 || readings[n].time < from then n else Baseline(readings[..n], from)
  }

  lemma {:induction false} NothingInWindow(readings: seq<Reading>, from: int)
    requires forall i :: 0 <= i < |readings| ==> readings[i].time < from
    ensures Gain(readings, from) == 0
  {
    if readings != [] {
      NothingInWindow(readings[..|readings| - 1], from);
    }
  }

  /** Without resets the deltas telescope: last reading minus baseline. */
  lemma {:induction false} GainTelescopes(readings: seq<Reading>, from: int)
    requires readings != [] && InOrder(readings) && Monotone(readings)
    ensures Gain(readings, from) == readings[|readings| - 1].count - readings[Baseline(readings, from)].count
  {
    var n := |readings| - 1;
    if n > 0 {
      if readings[n].time < from {
        NothingInWindow(readings, from);
      } else {
        GainTelescopes(readings[..n], from);
      }
    } else {
      assert Gain(readings[..0], from) == 0;
    }
  }

  /** events[i] happened since the previous reading: the counter advanced by them, or restarted and holds some of them. */
  predicate Counted(readings: seq<Reading>, events: seq<nat>) {
    |events| == |readings| &&
    forall i :: 0 < i < |readings| ==>
      readings[i].count == readings[i - 1].count + events[i] || readings[i].count <= events[i]
  }

  function EventsIn(readings: seq<Reading>, events: seq<nat>, from: int): nat
    requires |events| == |readings|
  {
    if readings == [] then 0
    else
      var n := |readings| - 1;
      EventsIn(readings[..n], events[..n], from) + (if n > 0 && readings[n].time >= from then events[n] else 0)
  }

  /** Reading i shows all its events: no restart, or a restart that shows as a drop and lost nothing before it. */
  predicate ShowsAll(readings: seq<Reading>, events: seq<nat>, i: nat)
    requires 0 < i < |readings| && |events| == |readings|
  {
    readings[i].count == readings[i - 1].count + events[i] || (readings[i].count == events[i] && readings[i].count < readings[i - 1].count)
  }

  lemma DeltaNeverExceedsEvents(readings: seq<Reading>, events: seq<nat>, i: nat)
    requires Counted(readings, events) && 0 < i < |readings|
    ensures CounterDelta(readings[i].count, readings[i - 1].count) <= events[i]
    ensures CounterDelta(readings[i].count, readings[i - 1].count) == events[i] <==> ShowsAll(readings, events, i)
  {
  }

  ghost predicate AllShown(readings: seq<Reading>, events: seq<nat>, from: int)
    requires |events| == |readings|
  {
    forall i :: 0 < i < |readings| && readings[i].time >= from ==> ShowsAll(readings, events, i)
  }

  lemma AllShownGrows(readings: seq<Reading>, events: seq<nat>, from: int)
    requires |events| == |readings| > 0
    ensures var n := |readings| - 1;
            (AllShown(readings, events, from)
             <==> AllShown(readings[..n], events[..n], from) && (n > 0 && readings[n].time >= from ==> ShowsAll(readings, events, n)))
  {
    var n := |readings| - 1;
    assert forall i :: 0 < i < n ==> ShowsAll(readings[..n], events[..n], i) == ShowsAll(readings, events, i);
  }

  /** Resets never make the query count more than happened, and it counts all exactly when every interval shows all. */
  lemma {:induction false} GainNeverExceedsEvents(readings: seq<Reading>, events: seq<nat>, from: int)
    requires Counted(readings, events)
    ensures Gain(readings, from) <= EventsIn(readings, events, from)
    ensures Gain(readings, from) == EventsIn(readings, events, from) <==> AllShown(readings, events, from)
  {
    hide AllShown, ShowsAll, CounterDelta;
    if readings == [] {
      NothingToShow(from);
    } else {
      var n := |readings| - 1;
      GainNeverExceedsEvents(readings[..n], events[..n], from);
      AllShownGrows(readings, events, from);
      if n > 0 {
        DeltaNeverExceedsEvents(readings, events, n);
      }
    }
  }

  lemma NothingToShow(from: int)
    ensures AllShown([], [], from)
  {
  }

  // ---------------------------------------------------------------- one backend

  datatype HaproxyCounter = Hits | Misses | SavedBytes

  function HaproxyCount(c: HaproxyCounter, s: HaproxyStats): nat {
    match c
    case Hits => s.hit
    case Misses => s.miss
    case SavedBytes => s.bytesSaved
  }

  function HaproxyReadings(series: seq<Snapshot>, c: HaproxyCounter): (r: seq<Reading>)
    ensures |r| == |series|
  {
    seq(|series|, i requires 0 <= i < |series| => Reading(series[i].time, HaproxyCount(c, series[i].haproxy)))
  }

  datatype DiskCounter = CacheHits | GraceHits | CacheMisses | HitsForPass | HitsForMiss

  function DiskCount(c: DiskCounter, s: DiskStats): nat {
    match c
    case CacheHits => s.hit
    case GraceHits => s.hitGrace
    case CacheMisses => s.miss
    case HitsForPass => s.hitPass
    case HitsForMiss => s.hitMiss
  }

  function DiskCounts(series: seq<DiskSample>, c: DiskCounter): (r: seq<Reading>)
    ensures |r| == |series|
  {
    seq(|series|, i requires 0 <= i < |series| => Reading(series[i].second * SECOND, DiskCount(c, series[i].stats)))
  }

  lemma GainGrows(readings: seq<Reading>, before: seq<Reading>, from: int)
    requires readings != [] && before == readings[..|readings| - 1]
    ensures var n := |readings| - 1;
            Gain(readings, from) == Gain(before, from) +
            (if n > 0 && readings[n].time >= from then CounterDelta(readings[n].count, readings[n - 1].count) else 0)
  {
  }

  lemma {:induction false} TotalAppends(a: seq<Deposit>, b: seq<Deposit>)
    ensures Total(a + b) == Plus(Total(a), Total(b))
  {
    hide Plus;
    if b == [] {
      assert a + b == a;
      PlusZero(Total(a));
    } else {
      var n := |b| - 1;
      TotalAppends(a, b[..n]);
      assert (a + b)[..|a + b| - 1] == a + b[..n];
      PlusRegroup(Total(a), Total(b[..n]), b[n].amount);
    }
  }

  /** The part of a tally that one HAProxy counter feeds. */
  function HaproxyPart(c: HaproxyCounter, t: Tally): nat {
    match c
    case Hits => t.haproxyHit
    case Misses => t.haproxyMiss
    case SavedBytes => t.memoryBytes
  }

  lemma TotalOneMore(deposits: seq<Deposit>, d: Deposit, c: HaproxyCounter)
    ensures HaproxyPart(c, Total(deposits + [d])) == HaproxyPart(c, Total(deposits)) + HaproxyPart(c, d.amount)
    ensures Total(deposits + [d]).diskHit == Total(deposits).diskHit + d.amount.diskHit
    ensures Total(deposits + [d]).diskMiss == Total(deposits).diskMiss + d.amount.diskMiss
  {
    assert (deposits + [d])[..|deposits|] == deposits;
  }

  /** A backend's deposits hold, counter by counter, what its series gained. */
  lemma {:induction false} BackendTotals(series: seq<Snapshot>, from: int, step: nat, c: HaproxyCounter)
    requires step > 0
    ensures HaproxyPart(c, Total(HaproxyDeposits(series, from, step))) == Gain(HaproxyReadings(series, c), from)
    ensures Total(HaproxyDeposits(series, from, step)).diskHit == 0 && Total(HaproxyDeposits(series, from, step)).diskMiss == 0
  {
    hide Gain, BucketStart, Total, HaproxyDeposits;
    if series == [] {
      EmptyTotals(from, step, c);
    } else {
      var n := |series| - 1;
      var before, readings := series[..n], HaproxyReadings(series, c);
      BackendTotals(before, from, step, c);
      GainGrows(readings, HaproxyReadings(before, c), from);
      var done := HaproxyDeposits(before, from, step);
      HaproxyDepositsGrow(series, n, from, step);
      assert series[..n + 1] == series;
      if n > 0 && series[n].time >= from {
        TotalOneMore(done, Deposit(BucketStart(series[n].time, step), HaproxyTally(series[n - 1].haproxy, series[n].haproxy)), c);
      } else {
        assert done + [] == done;
      }
    }
  }

  lemma EmptyTotals(from: int, step: nat, c: HaproxyCounter)
    requires step > 0
    ensures Total(HaproxyDeposits([], from, step)) == ZERO && Gain(HaproxyReadings([], c), from) == 0
    ensures HaproxyPart(c, ZERO) == 0
  {
  }

  // ---------------------------------------------------------------- the disk cache

  /** The disk deposits hold what the global counters gained; grace hits are hits, passes are misses. */
  lemma {:induction false} DiskTotals(series: seq<DiskSample>, from: int, step: nat)
    requires step > 0
    ensures Total(DiskDeposits(series, from, step)).diskHit == Gain(DiskCounts(series, CacheHits), from) + Gain(DiskCounts(series, GraceHits), from)
    ensures Total(DiskDeposits(series, from, step)).diskMiss
         == Gain(DiskCounts(series, CacheMisses), from) + Gain(DiskCounts(series, HitsForPass), from) + Gain(DiskCounts(series, HitsForMiss), from)
  {
    hide Gain, BucketStart, Total, DiskDeposits, DiskBytes;
    if series == [] {
      EmptyDiskTotals(from, step);
    } else {
      var n := |series| - 1;
      var before := series[..n];
      DiskTotals(before, from, step);
      forall c { GainGrows(DiskCounts(series, c), DiskCounts(before, c), from); }
      var done := DiskDeposits(before, from, step);
      DiskDepositsGrow(series, n, from, step);
      assert series[..n + 1] == series;
      var time := series[n].second * SECOND;
      if time >= from {
        TotalOneMore(done, Deposit(BucketStart(time, step), DiskTally(if n == 0 then None else Some(series[n - 1].stats), series[n].stats)), Hits);
      } else {
        assert done + [] == done;
      }
    }
  }

  lemma EmptyDiskTotals(from: int, step: nat)
    requires step > 0
    ensures Total(DiskDeposits([], from, step)) == ZERO && forall c :: Gain(DiskCounts([], c), from) == 0
  {
  }

  lemma {:induction false} DiskAddsNoHaproxy(series: seq<DiskSample>, from: int, step: nat, c: HaproxyCounter)
    requires step > 0
    ensures HaproxyPart(c, Total(DiskDeposits(series, from, step))) == 0
  {
    hide BucketStart, Total, DiskDeposits, DiskBytes;
    if series == [] {
      EmptyDiskTotals(from, step);
    } else {
      var n := |series| - 1;
      var done := DiskDeposits(series[..n], from, step);
      DiskAddsNoHaproxy(series[..n], from, step, c);
      DiskDepositsGrow(series, n, from, step);
      assert series[..n + 1] == series;
      var time := series[n].second * SECOND;
      if time >= from {
        TotalOneMore(done, Deposit(BucketStart(time, step), DiskTally(if n == 0 then None else Some(series[n - 1].stats), series[n].stats)), c);
      } else {
        assert done + [] == done;
      }
    }
  }

  // ---------------------------------------------------------------- the whole query

  function GainOfBackends(backends: seq<int>, snapshots: seq<Snapshot>, c: HaproxyCounter, from: int): nat {
    if backends == [] then 0
    else
      GainOfBackends(backends[..|backends| - 1], snapshots, c, from)
      + Gain(HaproxyReadings(SeriesOf(snapshots, backends[|backends| - 1]), c), from)
  }

  lemma EmptyTotal()
    ensures Total([]) == ZERO
  {
  }

  lemma {:induction false} AllBackendTotals(backends: seq<int>, snapshots: seq<Snapshot>, from: int, step: nat, c: HaproxyCounter)
    requires step > 0
    ensures HaproxyPart(c, Total(AllHaproxyDeposits(backends, snapshots, from, step))) == GainOfBackends(backends, snapshots, c, from)
    ensures Total(AllHaproxyDeposits(backends, snapshots, from, step)).diskHit == 0
    ensures Total(AllHaproxyDeposits(backends, snapshots, from, step)).diskMiss == 0
  {
    hide Gain, HaproxyDeposits, SeriesOf, Total;
    if backends == [] {
      EmptyTotals(from, step, c);
      assert Total([]) == ZERO by { EmptyTotal(); }
    } else {
      var n := |backends| - 1;
      AllBackendTotals(backends[..n], snapshots, from, step, c);
      BackendTotals(SeriesOf(snapshots, backends[n]), from, step, c);
      TotalAppends(AllHaproxyDeposits(backends[..n], snapshots, from, step), HaproxyDeposits(SeriesOf(snapshots, backends[n]), from, step));
    }
  }

  /** The totals of a query are what the counters gained in the window: the bucket width does not matter. */
  lemma QueryCountsGains(snapshots: seq<Snapshot>, disk: seq<DiskSample>, from: int, step: nat, c: HaproxyCounter)
    requires step > 0
    ensures HaproxyPart(c, Summed(Total(Deposits(snapshots, disk, from, step)))) == GainOfBackends(Backends(snapshots), snapshots, c, from)
    ensures Summed(Total(Deposits(snapshots, disk, from, step))).diskHit == Gain(DiskCounts(disk, CacheHits), from) + Gain(DiskCounts(disk, GraceHits), from)
    ensures Summed(Total(Deposits(snapshots, disk, from, step))).diskMiss
         == Gain(DiskCounts(disk, CacheMisses), from) + Gain(DiskCounts(disk, HitsForPass), from) + Gain(DiskCounts(disk, HitsForMiss), from)
  {
    hide Gain, AllHaproxyDeposits, DiskDeposits, Total, GainOfBackends, DiskCounts, Backends;
    AllBackendTotals(Backends(snapshots), snapshots, from, step, c);
    DiskTotals(disk, from, step);
    DiskAddsNoHaproxy(disk, from, step, c);
    TotalAppends(AllHaproxyDeposits(Backends(snapshots), snapshots, from, step), DiskDeposits(disk, from, step));
  }

  /** Last reading minus baseline, summed over the backends. */
  function GrowthOfBackends(backends: seq<int>, snapshots: seq<Snapshot>, c: HaproxyCounter, from: int): int {
    if backends == [] then 0
    else
      var readings := HaproxyReadings(SeriesOf(snapshots, backends[|backends| - 1]), c);
      GrowthOfBackends(backends[..|backends| - 1], snapshots, c, from) +
      (if readings == [] then 0 else readings[|readings| - 1].count - readings[Baseline(readings, from)].count)
  }

  ghost predicate TimeOrdered(snapshots: seq<Snapshot>) {
    forall i, j :: 0 <= i < j < |snapshots| ==> snapshots[i].time <= snapshots[j].time
  }

  lemma {:induction false} SeriesBefore(snapshots: seq<Snapshot>, backend: int, limit: int)
    requires forall i :: 0 <= i < |snapshots| ==> snapshots[i].time <= limit
    ensures forall i :: 0 <= i < |SeriesOf(snapshots, backend)| ==> SeriesOf(snapshots, backend)[i].time <= limit
  {
    if snapshots != [] {
      SeriesBefore(snapshots[..|snapshots| - 1], backend, limit);
    }
  }

  lemma {:induction false} SeriesIsOrdered(snapshots: seq<Snapshot>, backend: int)
    requires TimeOrdered(snapshots)
    ensures TimeOrdered(SeriesOf(snapshots, backend))
  {
    if snapshots != [] {
      var n := |snapshots| - 1;
      SeriesIsOrdered(snapshots[..n], backend);
      SeriesBefore(snapshots[..n], backend, snapshots[n].time);
    }
  }

  lemma {:induction false} GainsAreGrowth(backends: seq<int>, snapshots: seq<Snapshot>, c: HaproxyCounter, from: int)
    requires TimeOrdered(snapshots) && forall b :: Monotone(HaproxyReadings(SeriesOf(snapshots, b), c))
    ensures GainOfBackends(backends, snapshots, c, from) == GrowthOfBackends(backends, snapshots, c, from)
  {
    hide SeriesOf, Monotone, Baseline;
    if backends != [] {
      var n := |backends| - 1;
      var readings := HaproxyReadings(SeriesOf(snapshots, backends[n]), c);
      GainsAreGrowth(backends[..n], snapshots, c, from);
      SeriesIsOrdered(snapshots, backends[n]);
      if readings != [] {
        GainTelescopes(readings, from);
      }
    }
  }

  /** Conservation: without resets a query totals, over the backends, the last reading minus the baseline reading. */
  lemma QueryConservesCounters(snapshots: seq<Snapshot>, disk: seq<DiskSample>, from: int, step: nat, c: HaproxyCounter)
    requires step > 0 && TimeOrdered(snapshots)
    requires forall b :: Monotone(HaproxyReadings(SeriesOf(snapshots, b), c))
    ensures HaproxyPart(c, Summed(Total(Deposits(snapshots, disk, from, step)))) == GrowthOfBackends(Backends(snapshots), snapshots, c, from)
  {
    QueryCountsGains(snapshots, disk, from, step, c);
    GainsAreGrowth(Backends(snapshots), snapshots, c, from);
  }

  /** Last reading minus baseline of one disk counter. */
  function DiskGrowth(disk: seq<DiskSample>, c: DiskCounter, from: int): int {
    var readings := DiskCounts(disk, c);
    if readings == [] then 0 else readings[|readings| - 1].count - readings[Baseline(readings, from)].count
  }

  lemma DiskReadingsInOrder(snapshots: seq<Snapshot>, disk: seq<DiskSample>, c: DiskCounter)
    requires DiskReadings(snapshots, disk)
    ensures InOrder(DiskCounts(disk, c))
  {
    var keys: seq<int> :| SortedKeys(snapshots, keys) && (forall i :: 0 <= i < |keys| ==> keys[i] in DiskSeries(snapshots)) && disk == Ordered(keys, DiskSeries(snapshots));
    assert forall i :: 0 <= i < |keys| ==> disk[i].second == keys[i];
  }

  lemma DiskGainIsGrowth(snapshots: seq<Snapshot>, disk: seq<DiskSample>, c: DiskCounter, from: int)
    requires DiskReadings(snapshots, disk) && Monotone(DiskCounts(disk, c))
    ensures Gain(DiskCounts(disk, c), from) == DiskGrowth(disk, c, from)
  {
    hide DiskReadings, InOrder, Monotone;
    DiskReadingsInOrder(snapshots, disk, c);
    if disk != [] {
      GainTelescopes(DiskCounts(disk, c), from);
    }
  }

  /** Conservation for the disk cache: without resets its totals are last reading minus baseline of the deduplicated series. */
  lemma QueryConservesDisk(snapshots: seq<Snapshot>, disk: seq<DiskSample>, from: int, step: nat)
    requires step > 0 && DiskReadings(snapshots, disk) && forall c :: Monotone(DiskCounts(disk, c))
    ensures Summed(Total(Deposits(snapshots, disk, from, step))).diskHit == DiskGrowth(disk, CacheHits, from) + DiskGrowth(disk, GraceHits, from)
    ensures Summed(Total(Deposits(snapshots, disk, from, step))).diskMiss
         == DiskGrowth(disk, CacheMisses, from) + DiskGrowth(disk, HitsForPass, from) + DiskGrowth(disk, HitsForMiss, from)
  {
    hide DiskReadings, Monotone, DiskGrowth, Total, Deposits;
    QueryCountsGains(snapshots, disk, from, step, Hits);
    forall c ensures Gain(DiskCounts(disk, c), from) == DiskGrowth(disk, c, from) {
      DiskGainIsGrowth(snapshots, disk, c, from);
    }
  }

  // ---------------------------------------------------------------- repeated rows

  ghost predicate Leq(a: DiskStats, b: DiskStats) {
    && a.hit <= b.hit && a.miss <= b.miss && a.hitGrace <= b.hitGrace && a.hitPass <= b.hitPass && a.hitMiss <= b.hitMiss
    && a.objects <= b.objects && a.clientBytes <= b.clientBytes && a.backendBytes <= b.backendBytes
  }

  /** stats was sampled in that second, on some row. */
  ghost predicate Sampled(snapshots: seq<Snapshot>, second: int, stats: DiskStats) {
    exists i :: 0 <= i < |snapshots| && snapshots[i].disk == Some(stats) && WholeSecond(snapshots[i].time) == second
  }

  lemma SampledGrows(snapshots: seq<Snapshot>, second: int, stats: DiskStats)
    requires snapshots != []
    ensures var n := |snapshots| - 1;
            (Sampled(snapshots, second, stats)
             <==> Sampled(snapshots[..n], second, stats) || (snapshots[n].disk == Some(stats) && WholeSecond(snapshots[n].time) == second))
  {
    hide WholeSecond;
    var n := |snapshots| - 1;
    assert forall i :: 0 <= i < n ==> snapshots[..n][i] == snapshots[i];
    if Sampled(snapshots[..n], second, stats) {
      var i :| 0 <= i < n && snapshots[..n][i].disk == Some(stats) && WholeSecond(snapshots[..n][i].time) == second;
      assert snapshots[i].disk == Some(stats);
    }
  }

  lemma {:induction false} SeriesIsUpperBound(snapshots: seq<Snapshot>, second: int, stats: DiskStats)
    requires Sampled(snapshots, second, stats)
    ensures second in DiskSeries(snapshots) && Leq(stats, DiskSeries(snapshots)[second])
  {
    hide WholeSecond, Sampled;
    var n := |snapshots| - 1;
    NothingSampled(second, stats);
    SampledGrows(snapshots, second, stats);
    if Sampled(snapshots[..n], second, stats) {
      SeriesIsUpperBound(snapshots[..n], second, stats);
    }
  }

  lemma NothingSampled(second: int, stats: DiskStats)
    ensures !Sampled([], second, stats)
  {
  }

  lemma {:induction false} SeriesIsLeastBound(snapshots: seq<Snapshot>, second: int, bound: DiskStats)
    requires second in DiskSeries(snapshots)
    requires forall stats :: Sampled(snapshots, second, stats) ==> Leq(stats, bound)
    ensures Leq(DiskSeries(snapshots)[second], bound)
    ensures exists stats :: Sampled(snapshots, second, stats)
  {
    hide WholeSecond, Sampled;
    var n := |snapshots| - 1;
    var before := snapshots[..n];
    forall stats | Sampled(before, second, stats) ensures Sampled(snapshots, second, stats) { SampledGrows(snapshots, second, stats); }
    if snapshots[n].disk.Some? && WholeSecond(snapshots[n].time) == second {
      SampledGrows(snapshots, second, snapshots[n].disk.value);
    }
    if second in DiskSeries(before) {
      SeriesIsLeastBound(before, second, bound);
    }
  }

  /** Only what was sampled in each second matters, however many rows repeat it and in whatever order. */
  lemma RepeatedRowsDoNotMatter(a: seq<Snapshot>, b: seq<Snapshot>)
    requires forall second, stats :: Sampled(a, second, stats) <==> Sampled(b, second, stats)
    ensures DiskSeries(a) == DiskSeries(b)
  {
    hide Sampled, DiskSeries;
    forall second | second in DiskSeries(a) || second in DiskSeries(b)
      ensures second in DiskSeries(a) && second in DiskSeries(b) && DiskSeries(a)[second] == DiskSeries(b)[second]
    {
      SeriesNotAbove(a, b, second);
      SeriesNotAbove(b, a, second);
    }
    assert DiskSeries(a).Keys == DiskSeries(b).Keys;
  }

  lemma SeriesNotAbove(a: seq<Snapshot>, b: seq<Snapshot>, second: int)
    requires forall second, stats :: Sampled(a, second, stats) ==> Sampled(b, second, stats)
    ensures second in DiskSeries(a) ==> second in DiskSeries(b) && Leq(DiskSeries(a)[second], DiskSeries(b)[second])
  {
    hide Sampled, DiskSeries, Leq;
    if second in DiskSeries(a) {
      SeriesHasSample(a, second);
      var some :| Sampled(a, second, some);
      SeriesIsUpperBound(b, second, some);
      forall stats | Sampled(a, second, stats) ensures Leq(stats, DiskSeries(b)[second]) { SeriesIsUpperBound(b, second, stats); }
      SeriesIsLeastBound(a, second, DiskSeries(b)[second]);
    }
  }

  lemma {:induction false} SeriesHasSample(snapshots: seq<Snapshot>, second: int)
    requires second in DiskSeries(snapshots)
    ensures exists stats :: Sampled(snapshots, second, stats)
  {
    hide WholeSecond, Sampled;
    var n := |snapshots| - 1;
    if snapshots[n].disk.Some? && WholeSecond(snapshots[n].time) == second {
      SampledGrows(snapshots, second, snapshots[n].disk.value);
    } else {
      SeriesHasSample(snapshots[..n], second);
      var stats :| Sampled(snapshots[..n], second, stats);
      SampledGrows(snapshots, second, stats);
    }
  }
}
