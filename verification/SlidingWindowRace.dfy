/**
 * The limiter of module SlidingWindow when callers interleave: the prune-and-count pipeline and the
 * add pipeline are separate atomic commands.
 */
module SlidingWindowRace {
  import opened SlidingWindow

  type Caller = nat

  /** The stored members, and the member each approved caller has yet to add. */
  datatype Race = Race(members: set<Member>, pending: map<Caller, Member>)

  datatype Step = CountStep(caller: Caller, now: real) | AddStep(caller: Caller) | ExpireStep

  predicate Enabled(r: Race, step: Step) {
    match step
    case CountStep(c, _) => c !in r.pending
    case AddStep(c) => c in r.pending
    case ExpireStep => true
  }

  function Kept(r: Race, now: real, window: real): set<Member> {
    set m | m in r.members && !(0.0 <= m.at <= now - window)
  }

  function Next(r: Race, step: Step, maxCount: nat, window: real): Race
    requires Enabled(r, step)
  {
    match step
    case CountStep(c, now) =>
      var kept := Kept(r, now, window);
      if |kept| >= maxCount then r.(members := kept)
      else Race(kept, r.pending[c := Member(now, |kept|)])
    case AddStep(c) => Race(r.members + {r.pending[c]}, r.pending - {c})
    case ExpireStep => r.(members := {})
  }

  /** The states of a run, from an absent key and no callers. */
  ghost predicate IsRun(states: seq<Race>, steps: seq<Step>, maxCount: nat, window: real) {
    && |states| == |steps| + 1
    && states[0] == Race({}, map[])
    && forall i | 0 <= i < |steps| :: Enabled(states[i], steps[i]) && states[i + 1] == Next(states[i], steps[i], maxCount, window)
  }

  lemma NextOvershoot(r: Race, step: Step, maxCount: nat, window: real, k: nat)
    requires Enabled(r, step) && maxCount >= 1 && k >= 1
    requires |r.members| + |r.pending| <= maxCount + k - 1 && |Next(r, step, maxCount, window).pending| <= k
    ensures var after := Next(r, step, maxCount, window); |after.members| + |after.pending| <= maxCount + k - 1
  {
    hide Kept;
    match step
    case CountStep(c, now) =>
      KeptSmaller(r, now, window);
      OneMorePending(r.pending, c, Member(now, |Kept(r, now, window)|));
    case AddStep(c) =>
      OneLessPending(r.pending, c);
    case ExpireStep =>
  }

  lemma OneMorePending(pending: map<Caller, Member>, c: Caller, m: Member)
    requires c !in pending
    ensures |pending[c := m]| == |pending| + 1
  {
    assert pending[c := m].Keys == pending.Keys + {c};
  }

  lemma OneLessPending(pending: map<Caller, Member>, c: Caller)
    requires c in pending
    ensures |pending - {c}| == |pending| - 1
  {
    assert pending.Keys == (pending - {c}).Keys + {c};
  }

  lemma KeptSmaller(r: Race, now: real, window: real)
    ensures |Kept(r, now, window)| <= |r.members|
  {
    SubsetSize(Kept(r, now, window), r.members);
  }

  lemma {:induction false} SubsetSize<T>(a: set<T>, b: set<T>)
    requires a <= b
    ensures |a| <= |b|
  {
    if a != {} {
      var x :| x in a;
      SubsetSize(a - {x}, b - {x});
    }
  }

  /** If never more than k callers are between counting and adding, the set never outgrows maxCount + k - 1. */
  lemma {:induction false} OvershootBound(states: seq<Race>, steps: seq<Step>, maxCount: nat, window: real, k: nat, i: nat)
    requires IsRun(states, steps, maxCount, window) && maxCount >= 1 && k >= 1 && i < |states|
    requires forall j :: 0 <= j < |states| ==> |states[j].pending| <= k
    ensures |states[i].members| + |states[i].pending| <= maxCount + k - 1
  {
    hide Next, Enabled;
    if i > 0 {
      var j := i - 1;
      OvershootBound(states, steps, maxCount, window, k, j);
      assert Enabled(states[j], steps[j]) && states[j + 1] == Next(states[j], steps[j], maxCount, window);
      assert |states[j + 1].pending| <= k;
      NextOvershoot(states[j], steps[j], maxCount, window, k);
    }
  }

  // ---------------------------------------------------------------- the bound is attained

  /** The i-th of n moments inside one window. */
  function Moment(i: nat, n: nat, window: real): real
    requires n > 0
  {
    window / (n as real) * (i as real)
  }

  lemma MomentsDiffer(i: nat, j: nat, n: nat, window: real)
    requires i < n && j < n && window > 0.0
    ensures 0.0 <= Moment(i, n, window) < window
    ensures i != j ==> Moment(i, n, window) != Moment(j, n, window)
  {
    var d := window / (n as real);
    assert d > 0.0 && d * (n as real) == window;
    if i < j {
      assert d * (j as real) - d * (i as real) == d * ((j - i) as real) > 0.0;
    } else if i > j {
      assert d * (i as real) - d * (j as real) == d * ((i - j) as real) > 0.0;
    }
    assert d * (i as real) >= 0.0;
    assert d * (n as real) - d * (i as real) == d * ((n - i) as real) > 0.0;
  }

  /** The state after `added` callers went through alone and `waiting` more have counted at the limit minus one. */
  function Crowded(added: nat, waiting: nat, maxCount: nat, n: nat, window: real): Race
    requires n > 0 && maxCount >= 1
  {
    Race(set i: nat | i < added :: Claimed(i, maxCount, n, window),
         map i: nat | added <= i < added + waiting :: Claimed(i, maxCount, n, window))
  }

  /** What caller number i adds. */
  function Claimed(i: nat, maxCount: nat, n: nat, window: real): Member
    requires n > 0 && maxCount >= 1
  {
    Member(Moment(i, n, window), if i < maxCount then i else maxCount - 1)
  }

  lemma {:induction false} CrowdedSize(added: nat, waiting: nat, maxCount: nat, n: nat, window: real)
    requires window > 0.0 && added <= n && n > 0 && maxCount >= 1
    ensures |Crowded(added, waiting, maxCount, n, window).members| == added
  {
    var all := Crowded(added, waiting, maxCount, n, window).members;
    if added == 0 {
      assert all == {};
    } else {
      CrowdedSize(added - 1, waiting, maxCount, n, window);
      var init := Crowded(added - 1, waiting, maxCount, n, window).members;
      var last := Claimed(added - 1, maxCount, n, window);
      forall i: nat | i < added - 1 ensures Moment(i, n, window) != Moment(added - 1, n, window) {
        MomentsDiffer(i, added - 1, n, window);
      }
      assert last !in init;
      assert all == init + {last};
    }
  }

  lemma CrowdedKeepsAll(added: nat, waiting: nat, i: nat, maxCount: nat, n: nat, window: real)
    requires window > 0.0 && added <= n && i < n && maxCount >= 1
    ensures var r := Crowded(added, waiting, maxCount, n, window); Kept(r, Moment(i, n, window), window) == r.members
  {
    MomentsDiffer(i, i, n, window);
    var r := Crowded(added, waiting, maxCount, n, window);
    forall m | m in r.members ensures !(0.0 <= m.at <= Moment(i, n, window) - window) {
      var j: nat :| j < added && m == Claimed(j, maxCount, n, window);
      MomentsDiffer(j, j, n, window);
    }
  }

  /** Caller number added + waiting counts. */
  lemma CrowdedCount(added: nat, waiting: nat, maxCount: nat, n: nat, window: real)
    requires window > 0.0 && maxCount >= 1 && added < maxCount && added + waiting < n
    requires waiting == 0 || added == maxCount - 1
    ensures var r, c := Crowded(added, waiting, maxCount, n, window), added + waiting;
            Enabled(r, CountStep(c, Moment(c, n, window)))
            && Next(r, CountStep(c, Moment(c, n, window)), maxCount, window) == Crowded(added, waiting + 1, maxCount, n, window)
  {
    var r, c := Crowded(added, waiting, maxCount, n, window), added + waiting;
    var after := Crowded(added, waiting + 1, maxCount, n, window);
    CrowdedKeepsAll(added, waiting, c, maxCount, n, window);
    CrowdedSize(added, waiting, maxCount, n, window);
    assert r.pending[c := Member(Moment(c, n, window), added)] == after.pending;
    assert r.members == after.members;
  }

  /** The first waiting caller adds. */
  lemma CrowdedAdd(added: nat, waiting: nat, maxCount: nat, n: nat, window: real)
    requires window > 0.0 && maxCount >= 1 && waiting >= 1 && added + waiting <= n
    ensures var r := Crowded(added, waiting, maxCount, n, window);
            Enabled(r, AddStep(added)) && Next(r, AddStep(added), maxCount, window) == Crowded(added + 1, waiting - 1, maxCount, n, window)
  {
    var r := Crowded(added, waiting, maxCount, n, window);
    var after := Crowded(added + 1, waiting - 1, maxCount, n, window);
    assert r.members + {r.pending[added]} == after.members;
    assert r.pending - {added} == after.pending;
  }

  /** A run that ends in `last`, with never more than k callers in between. */
  ghost predicate ReachedBy(states: seq<Race>, steps: seq<Step>, last: Race, maxCount: nat, window: real, k: nat) {
    && IsRun(states, steps, maxCount, window) && states[|states| - 1] == last
    && forall j | 0 <= j < |states| :: |states[j].pending| <= k
  }

  lemma Extend(states: seq<Race>, steps: seq<Step>, r: Race, step: Step, maxCount: nat, window: real, k: nat)
    returns (states': seq<Race>, steps': seq<Step>)
    requires ReachedBy(states, steps, r, maxCount, window, k) && Enabled(r, step)
    requires |Next(r, step, maxCount, window).pending| <= k
    ensures ReachedBy(states', steps', Next(r, step, maxCount, window), maxCount, window, k)
  {
    hide Next, Enabled;
    states', steps' := states + [Next(r, step, maxCount, window)], steps + [step];
    forall i | 0 <= i < |steps'|
      ensures Enabled(states'[i], steps'[i]) && states'[i + 1] == Next(states'[i], steps'[i], maxCount, window)
    {
      if i < |steps| { assert states'[i] == states[i] && steps'[i] == steps[i] && states'[i + 1] == states[i + 1]; }
    }
  }

  lemma {:induction false} CrowdedPending(added: nat, waiting: nat, maxCount: nat, n: nat, window: real)
    requires n > 0 && maxCount >= 1
    ensures |Crowded(added, waiting, maxCount, n, window).pending| == waiting
  {
    var p := Crowded(added, waiting, maxCount, n, window).pending;
    if waiting == 0 {
      assert p == map[];
    } else {
      CrowdedPending(added, waiting - 1, maxCount, n, window);
      var q := Crowded(added, waiting - 1, maxCount, n, window).pending;
      assert p.Keys == q.Keys + {added + waiting - 1};
    }
  }

  /** Alone, one after the other, maxCount - 1 callers fill the window. */
  lemma {:induction false} ReachFilled(added: nat, maxCount: nat, k: nat, window: real) returns (states: seq<Race>, steps: seq<Step>)
    requires window > 0.0 && maxCount >= 1 && k >= 1 && added < maxCount
    ensures ReachedBy(states, steps, Crowded(added, 0, maxCount, maxCount + k, window), maxCount, window, k)
  {
    hide Crowded, IsRun, Next, Enabled;
    var n := maxCount + k;
    CrowdedPending(added, 0, maxCount, n, window);
    if added == 0 {
      states, steps := InitialRun(maxCount, k, window);
    } else {
      states, steps := ReachFilled(added - 1, maxCount, k, window);
      CrowdedCount(added - 1, 0, maxCount, n, window);
      CrowdedPending(added - 1, 1, maxCount, n, window);
      var c := added - 1;
      states, steps := Extend(states, steps, Crowded(c, 0, maxCount, n, window), CountStep(c, Moment(c, n, window)), maxCount, window, k);
      CrowdedAdd(c, 1, maxCount, n, window);
      states, steps := Extend(states, steps, Crowded(c, 1, maxCount, n, window), AddStep(c), maxCount, window, k);
    }
  }

  lemma InitialRun(maxCount: nat, k: nat, window: real) returns (states: seq<Race>, steps: seq<Step>)
    requires k >= 1 && maxCount >= 1
    ensures ReachedBy(states, steps, Crowded(0, 0, maxCount, maxCount + k, window), maxCount, window, k)
  {
    var r := Crowded(0, 0, maxCount, maxCount + k, window);
    assert r.members == {} && r.pending == map[];
    states, steps := [r], [];
  }

  /** Then k callers count together. */
  lemma {:induction false} ReachWaiting(waiting: nat, maxCount: nat, k: nat, window: real) returns (states: seq<Race>, steps: seq<Step>)
    requires window > 0.0 && maxCount >= 1 && k >= 1 && waiting <= k
    ensures ReachedBy(states, steps, Crowded(maxCount - 1, waiting, maxCount, maxCount + k, window), maxCount, window, k)
  {
    hide Crowded, IsRun, Next, Enabled;
    var n := maxCount + k;
    if waiting == 0 {
      states, steps := ReachFilled(maxCount - 1, maxCount, k, window);
    } else {
      states, steps := ReachWaiting(waiting - 1, maxCount, k, window);
      var c := maxCount - 1 + (waiting - 1);
      CrowdedCount(maxCount - 1, waiting - 1, maxCount, n, window);
      CrowdedPending(maxCount - 1, waiting, maxCount, n, window);
      states, steps := Extend(states, steps, Crowded(maxCount - 1, waiting - 1, maxCount, n, window),
                              CountStep(c, Moment(c, n, window)), maxCount, window, k);
    }
  }

  /** And all k of them add. */
  lemma {:induction false} ReachAdded(done: nat, maxCount: nat, k: nat, window: real) returns (states: seq<Race>, steps: seq<Step>)
    requires window > 0.0 && maxCount >= 1 && k >= 1 && done <= k
    ensures ReachedBy(states, steps, Crowded(maxCount - 1 + done, k - done, maxCount, maxCount + k, window), maxCount, window, k)
  {
    hide Crowded, IsRun, Next, Enabled;
    var n := maxCount + k;
    if done == 0 {
      states, steps := ReachWaiting(k, maxCount, k, window);
    } else {
      states, steps := ReachAdded(done - 1, maxCount, k, window);
      var added := maxCount - 1 + (done - 1);
      CrowdedAdd(added, k - done + 1, maxCount, n, window);
      CrowdedPending(added + 1, k - done, maxCount, n, window);
      states, steps := Extend(states, steps, Crowded(added, k - done + 1, maxCount, n, window), AddStep(added), maxCount, window, k);
    }
  }

  /** The overshoot bound is tight for every limit and every number of racing callers. */
  lemma OvershootAttained(maxCount: nat, k: nat, window: real)
    requires window > 0.0 && maxCount >= 1 && k >= 1
    ensures exists states: seq<Race>, steps: seq<Step>, last: Race ::
              ReachedBy(states, steps, last, maxCount, window, k) && |last.members| == maxCount + k - 1
  {
    var states, steps := ReachAdded(k, maxCount, k, window);
    CrowdedSize(maxCount - 1 + k, 0, maxCount, maxCount + k, window);
    assert |Crowded(maxCount - 1 + k, k - k, maxCount, maxCount + k, window).members| == maxCount + k - 1;
  }

  /** Interleaved callers can collide: two that count at the same moment write one and the same member. */
  lemma InterleavedMembersCollide(now: real, window: real)
    ensures exists states: seq<Race>, steps: seq<Step> ::
              IsRun(states, steps, 2, window)
              && |steps| == 4 && steps[2].AddStep? && steps[3].AddStep?
              && |states[4].members| == 1
  {
    var m := Member(now, 0);
    var r0 := Race({}, map[]);
    var r1 := Race({}, map[0 := m]);
    var r2 := Race({}, map[0 := m, 1 := m]);
    var r3 := Race({m}, map[1 := m]);
    var r4 := Race({m}, map[]);
    var states := [r0, r1, r2, r3, r4];
    var steps := [CountStep(0, now), CountStep(1, now), AddStep(0), AddStep(1)];
    assert Kept(r0, now, window) == {} && Kept(r1, now, window) == {};
    assert Next(r0, steps[0], 2, window) == r1;
    assert Next(r1, steps[1], 2, window) == r2;
    assert r2.pending - {0} == r3.pending && Next(r2, steps[2], 2, window) == r3;
    assert r3.pending - {1} == r4.pending && Next(r3, steps[3], 2, window) == r4;
    assert IsRun(states, steps, 2, window);
  }
}
