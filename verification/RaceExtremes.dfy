/** When interleaved callers write the same member, and how far admissions then go beyond the limit. */
module RaceExtremes {
  import opened SlidingWindow
  import opened RaceAdmissions
  import SlidingWindowRace

  // ---------------------------------------------------------------- collisions

  /** The step neither prunes m nor finds the key expired. */
  predicate Keeps(r: Race, step: Step, m: Member, window: real) {
    match step
    case Count(_, now) => r.expiresAt > now && !(0.0 <= m.at <= now - window)
    case Add(_, at) => r.expiresAt > at
  }

  ghost predicate Survives(states: seq<Race>, steps: seq<Step>, m: Member, window: real, from: nat, to: nat)
    requires to <= |steps| < |states|
  {
    forall l | from <= l < to :: Keeps(states[l], steps[l], m, window)
  }

  /** At step j caller d adds m. */
  ghost predicate Writes(states: seq<Race>, steps: seq<Step>, j: nat, d: Caller, m: Member)
    requires j < |steps| < |states|
  {
    steps[j].Add? && steps[j].caller == d && d in states[j].pending && states[j].pending[d] == m
  }

  /** At step h caller d is approved with m: at m's reading of the clock, with m's count kept. */
  ghost predicate Approves(states: seq<Race>, steps: seq<Step>, h: nat, d: Caller, m: Member, maxCount: nat, window: real)
    requires h < |steps| < |states|
  {
    steps[h] == Count(d, m.at) && |Seen(states[h], m.at, window)| == m.count < maxCount
  }

  lemma StepAt(states: seq<Race>, steps: seq<Step>, maxCount: nat, window: real, i: nat)
    requires IsRun(states, steps, maxCount, window) && i < |steps|
    ensures Enabled(states[i], steps[i]) && states[i + 1] == Next(states[i], steps[i], maxCount, window)
  {
  }

  lemma NextMember(r: Race, step: Step, maxCount: nat, window: real, m: Member)
    requires Enabled(r, step)
    ensures m in Next(r, step, maxCount, window).members
       <==> (m in r.members && Keeps(r, step, m, window)) || (step.Add? && r.pending[step.caller] == m)
  {
  }

  /** The set holds what was added and has been neither pruned nor expired since. */
  lemma {:induction false} MemberExactlyWhen(states: seq<Race>, steps: seq<Step>, maxCount: nat, window: real, i: nat, m: Member)
    requires IsRun(states, steps, maxCount, window) && i < |states|
    ensures m in states[i].members
       <==> exists j, d :: 0 <= j < i && Writes(states, steps, j, d, m) && Survives(states, steps, m, window, j + 1, i)
  {
    hide Next, Keeps;
    if i > 0 {
      var l := i - 1;
      MemberExactlyWhen(states, steps, maxCount, window, l, m);
      StepAt(states, steps, maxCount, window, l);
      NextMember(states[l], steps[l], maxCount, window, m);
      if m in states[i].members {
        if steps[l].Add? && states[l].pending[steps[l].caller] == m {
          assert Writes(states, steps, l, steps[l].caller, m) && Survives(states, steps, m, window, l + 1, i);
        } else {
          var j, d :| 0 <= j < l && Writes(states, steps, j, d, m) && Survives(states, steps, m, window, j + 1, l);
          assert Survives(states, steps, m, window, j + 1, i);
        }
      }
      if j, d :| 0 <= j < i && Writes(states, steps, j, d, m) && Survives(states, steps, m, window, j + 1, i) {
        if j < l {
          assert Keeps(states[l], steps[l], m, window) && Survives(states, steps, m, window, j + 1, l);
        }
      }
    }
  }

  /** A caller in between was approved with the member it holds, and has been in between ever since. */
  lemma {:induction false} ApprovedBefore(states: seq<Race>, steps: seq<Step>, maxCount: nat, window: real, i: nat, c: Caller) returns (h: nat)
    requires IsRun(states, steps, maxCount, window) && i < |states| && c in states[i].pending
    ensures h < i && Approves(states, steps, h, c, states[i].pending[c], maxCount, window)
    ensures forall l :: h < l <= i ==> c in states[l].pending
  {
    var l := i - 1;
    StepAt(states, steps, maxCount, window, l);
    if c in states[l].pending {
      assert states[l].pending[c] == states[i].pending[c];
      h := ApprovedBefore(states, steps, maxCount, window, l, c);
    } else {
      h := l;
    }
  }

  /**
   * An addition writes a member that is already there exactly when an earlier approval with the same reading of the clock and
   * the same kept count has been added, and neither pruned nor expired since.
   */
  lemma AddCollidesExactlyWhen(states: seq<Race>, steps: seq<Step>, maxCount: nat, window: real, i: nat)
    requires IsRun(states, steps, maxCount, window) && i < |steps| && steps[i].Add?
    ensures steps[i].caller in states[i].pending
    ensures var m := states[i].pending[steps[i].caller];
      m in Present(states[i], steps[i].at)
      <==> states[i].expiresAt > steps[i].at
           && exists h, j, d :: 0 <= h < j < i && Approves(states, steps, h, d, m, maxCount, window)
                && Writes(states, steps, j, d, m) && Survives(states, steps, m, window, j + 1, i)
  {
    hide Next, Approves, Survives;
    StepAt(states, steps, maxCount, window, i);
    var m := states[i].pending[steps[i].caller];
    MemberExactlyWhen(states, steps, maxCount, window, i, m);
    if m in states[i].members {
      var j, d :| 0 <= j < i && Writes(states, steps, j, d, m) && Survives(states, steps, m, window, j + 1, i);
      var h := ApprovedBefore(states, steps, maxCount, window, j, d);
      assert Approves(states, steps, h, d, m, maxCount, window) && Writes(states, steps, j, d, m) && Survives(states, steps, m, window, j + 1, i);
    }
  }

  // ---------------------------------------------------------------- the two bounds

  /** No two counts read the same time. */
  predicate DistinctReadings(steps: seq<Step>) {
    forall i, j | 0 <= i < j < |steps| :: steps[i].Count? && steps[j].Count? ==> steps[i].now != steps[j].now
  }

  lemma DistinctApprovals(states: seq<Race>, steps: seq<Step>, maxCount: nat, window: real, g: nat, h: nat, c: Caller, d: Caller, m: Member)
    requires DistinctReadings(steps) && g < |steps| < |states| && h < |steps|
    requires Approves(states, steps, g, c, m, maxCount, window) && Approves(states, steps, h, d, m, maxCount, window)
    ensures g == h && c == d
  {
  }

  /** With distinct readings no addition ever finds its member in the set. */
  lemma DistinctReadingsNeverCollide(states: seq<Race>, steps: seq<Step>, maxCount: nat, window: real, i: nat)
    requires IsRun(states, steps, maxCount, window) && DistinctReadings(steps) && i < |steps| && steps[i].Add?
    ensures steps[i].caller in states[i].pending && states[i].pending[steps[i].caller] !in Present(states[i], steps[i].at)
  {
    hide Next, Approves, Survives, Present, DistinctReadings;
    AddCollidesExactlyWhen(states, steps, maxCount, window, i);
    var c, m := steps[i].caller, states[i].pending[steps[i].caller];
    var g := ApprovedBefore(states, steps, maxCount, window, i, c);
    if m in Present(states[i], steps[i].at) {
      var h, j, d :| 0 <= h < j < i && Approves(states, steps, h, d, m, maxCount, window)
        && Writes(states, steps, j, d, m) && Survives(states, steps, m, window, j + 1, i);
      DistinctApprovals(states, steps, maxCount, window, g, h, c, d, m);
      AddLeaves(states, steps, maxCount, window, j, d);
      assert false;
    }
  }

  lemma AddLeaves(states: seq<Race>, steps: seq<Step>, maxCount: nat, window: real, j: nat, d: Caller)
    requires IsRun(states, steps, maxCount, window) && j < |steps| && steps[j].Add? && steps[j].caller == d
    ensures d !in states[j + 1].pending
  {
    StepAt(states, steps, maxCount, window, j);
  }

  lemma AtMostOne<T>(s: set<T>)
    requires forall x, y :: x in s && y in s ==> x == y
    ensures |s| <= 1
  {
    if s != {} {
      var x :| x in s;
      assert s == {x};
    }
  }

  lemma NobodyShares(states: seq<Race>, steps: seq<Step>, maxCount: nat, window: real, i: nat, m: Member)
    requires IsRun(states, steps, maxCount, window) && DistinctReadings(steps) && i < |states|
    ensures |Sharing(states[i], m)| <= 1
  {
    hide Approves, DistinctReadings;
    forall c, d | c in Sharing(states[i], m) && d in Sharing(states[i], m) ensures c == d {
      var g := ApprovedBefore(states, steps, maxCount, window, i, c);
      var h := ApprovedBefore(states, steps, maxCount, window, i, d);
      DistinctApprovals(states, steps, maxCount, window, g, h, c, d, m);
    }
    AtMostOne(Sharing(states[i], m));
  }

  /** If no two counts read the same time and never more than k callers are in between, any window admits at most maxCount + k - 1 calls. */
  lemma DistinctReadingsBound(states: seq<Race>, steps: seq<Step>, maxCount: nat, window: real, k: nat, i: nat, t: real)
    requires window > 0.0 && maxCount >= 1 && IsRun(states, steps, maxCount, window) && i < |states|
    requires DistinctReadings(steps) && forall j :: 0 <= j < |states| ==> |states[j].pending| <= k
    ensures AdmittedIn(states[i], t, window) <= maxCount + k - 1
  {
    hide IsRun, AdmittedIn, Sharing, DistinctReadings;
    forall j, m | 0 <= j < |states| ensures |Sharing(states[j], m)| <= 1 {
      NobodyShares(states, steps, maxCount, window, j, m);
    }
    AdmissionBound(states, steps, maxCount, window, k, 1, i, t);
  }

  /** Whatever the readings, any window admits at most k * maxCount calls. */
  lemma AnyReadingsBound(states: seq<Race>, steps: seq<Step>, maxCount: nat, window: real, k: nat, i: nat, t: real)
    requires window > 0.0 && maxCount >= 1 && IsRun(states, steps, maxCount, window) && i < |states|
    requires forall j :: 0 <= j < |states| ==> |states[j].pending| <= k
    ensures AdmittedIn(states[i], t, window) <= k * maxCount
  {
    hide IsRun, AdmittedIn;
    forall j, m | 0 <= j < |states| ensures |Sharing(states[j], m)| <= k {
      assert Sharing(states[j], m) <= states[j].pending.Keys;
      SlidingWindowRace.SubsetSize(Sharing(states[j], m), states[j].pending.Keys);
    }
    AdmissionBound(states, steps, maxCount, window, k, k, i, t);
    assert k * (maxCount - 1) + k == k * maxCount;
  }

  // ---------------------------------------------------------------- both are attained

  /** A run that ends in `last`, with never more than k callers in between. */
  ghost predicate ReachedBy(states: seq<Race>, steps: seq<Step>, last: Race, maxCount: nat, window: real, k: nat) {
    && IsRun(states, steps, maxCount, window) && states[|states| - 1] == last
    && forall j | 0 <= j < |states| :: |states[j].pending| <= k
  }

  lemma Extend(states: seq<Race>, steps: seq<Step>, r: Race, step: Step, maxCount: nat, window: real, k: nat)
    returns (states': seq<Race>, steps': seq<Step>)
    requires ReachedBy(states, steps, r, maxCount, window, k) && Enabled(r, step)
    requires |Next(r, step, maxCount, window).pending| <= k
    ensures ReachedBy(states', steps', Next(r, step, maxCount, window), maxCount, window, k)
    ensures steps' == steps + [step]
  {
    hide Next, Enabled;
    states', steps' := states + [Next(r, step, maxCount, window)], steps + [step];
    forall i | 0 <= i < |steps'|
      ensures Enabled(states'[i], steps'[i]) && states'[i + 1] == Next(states'[i], steps'[i], maxCount, window)
    {
      if i < |steps| { assert states'[i] == states[i] && steps'[i] == steps[i] && states'[i + 1] == states[i + 1]; }
    }
  }

  /** The callers from..to, all with the same member or each with its own. */
  function Callers(from: nat, to: nat, claim: nat -> Member): map<Caller, Member> {
    map i: nat | from <= i < to :: claim(i)
  }

  lemma {:induction false} CallersSize(from: nat, to: nat, claim: nat -> Member)
    requires from <= to
    ensures |Callers(from, to, claim)| == to - from
  {
    if from == to {
      assert Callers(from, to, claim) == map[];
    } else {
      CallersSize(from, to - 1, claim);
      assert Callers(from, to, claim).Keys == Callers(from, to - 1, claim).Keys + {to - 1};
    }
  }

  /** The members that fill the limit at time 0, up to count c. */
  function Filled(c: nat): set<Member> {
    set i: nat | i < c :: Member(0.0, i)
  }

  lemma {:induction false} FilledSize(c: nat)
    ensures |Filled(c)| == c
  {
    if c == 0 {
      assert Filled(0) == {};
    } else {
      FilledSize(c - 1);
      assert Filled(c) == Filled(c - 1) + {Member(0.0, c - 1)};
    }
  }

  /** All at time 0: c members are in, and callers from..to hold the next one. */
  function Tied(c: nat, from: nat, to: nat, claim: Member, claimed: seq<Member>, window: real): Race {
    Race(Filled(c), if c == 0 then 0.0 else 0.0 + window + 5.0, Callers(from, to, _ => claim), claimed, 0.0)
  }

  predicate AtZero(claimed: seq<Member>) {
    forall i | 0 <= i < |claimed| :: claimed[i].at == 0.0
  }

  lemma TiedCount(c: nat, j: nat, claimed: seq<Member>, maxCount: nat, window: real)
    requires window > 0.0 && c < maxCount
    ensures var m, r := Member(0.0, c), Tied(c, 0, j, Member(0.0, c), claimed, window);
            Enabled(r, Count(j, 0.0)) && Next(r, Count(j, 0.0), maxCount, window) == Tied(c, 0, j + 1, m, claimed + [m], window)
  {
    var m := Member(0.0, c);
    var r := Tied(c, 0, j, m, claimed, window);
    FilledSize(c);
    assert c == 0 ==> Filled(0) == {};
    assert Seen(r, 0.0, window) == Filled(c);
    assert Callers(0, j, _ => m)[j := m] == Callers(0, j + 1, _ => m);
  }

  lemma TiedAdd(c: nat, j: nat, k: nat, claimed: seq<Member>, maxCount: nat, window: real)
    requires window > 0.0 && j < k
    ensures var m := Member(0.0, c); var r := Tied(if j == 0 then c else c + 1, j, k, m, claimed, window);
            Enabled(r, Add(j, 0.0)) && Next(r, Add(j, 0.0), maxCount, window) == Tied(c + 1, j + 1, k, m, claimed, window)
  {
    var m := Member(0.0, c);
    var r := Tied(if j == 0 then c else c + 1, j, k, m, claimed, window);
    assert Filled(0) == {};
    assert Present(r, 0.0) == r.members && r.members + {m} == Filled(c + 1);
    assert Callers(j, k, _ => m) - {j} == Callers(j + 1, k, _ => m);
  }

  /** k callers count together while c members are in. */
  lemma {:induction false} ReachCounting(c: nat, j: nat, maxCount: nat, k: nat, window: real)
    returns (states: seq<Race>, steps: seq<Step>, claimed: seq<Member>)
    requires window > 0.0 && c < maxCount && j <= k && k >= 1
    ensures AtZero(claimed) && |claimed| == k * c + j
    ensures ReachedBy(states, steps, Tied(c, 0, j, Member(0.0, c), claimed, window), maxCount, window, k)
    decreases c, 1, j
  {
    hide Tied, IsRun, Next, Enabled;
    if j == 0 {
      states, steps, claimed := ReachLevel(c, maxCount, k, window);
      NobodyBetween(c, k, claimed, window);
    } else {
      states, steps, claimed := ReachCounting(c, j - 1, maxCount, k, window);
      var m := Member(0.0, c);
      TiedCount(c, j - 1, claimed, maxCount, window);
      TiedSize(c, 0, j, m, claimed + [m], window);
      states, steps := Extend(states, steps, Tied(c, 0, j - 1, m, claimed, window), Count(j - 1, 0.0), maxCount, window, k);
      claimed := claimed + [m];
    }
  }

  lemma TiedSize(c: nat, from: nat, to: nat, m: Member, claimed: seq<Member>, window: real)
    requires from <= to
    ensures |Tied(c, from, to, m, claimed, window).pending| == to - from
  {
    CallersSize(from, to, _ => m);
  }

  lemma NobodyBetween(c: nat, k: nat, claimed: seq<Member>, window: real)
    ensures c > 0 ==> Tied(c, k, k, Member(0.0, c - 1), claimed, window) == Tied(c, 0, 0, Member(0.0, c), claimed, window)
    ensures Tied(0, 0, 0, Member(0.0, 0), [], window) == START
  {
    assert c > 0 ==> Callers(k, k, _ => Member(0.0, c - 1)) == map[];
    assert Callers(0, 0, _ => Member(0.0, c)) == map[] && Callers(0, 0, _ => Member(0.0, 0)) == map[];
    assert Filled(0) == {};
  }

  /** And all k of them add the one member. */
  lemma {:induction false} ReachAdding(c: nat, j: nat, maxCount: nat, k: nat, window: real)
    returns (states: seq<Race>, steps: seq<Step>, claimed: seq<Member>)
    requires window > 0.0 && c < maxCount && 1 <= j <= k
    ensures AtZero(claimed) && |claimed| == k * (c + 1)
    ensures ReachedBy(states, steps, Tied(c + 1, j, k, Member(0.0, c), claimed, window), maxCount, window, k)
    decreases c, 2, j
  {
    hide Tied, IsRun, Next, Enabled;
    var m := Member(0.0, c);
    if j == 1 {
      states, steps, claimed := ReachCounting(c, k, maxCount, k, window);
      assert k * c + k == k * (c + 1);
    } else {
      states, steps, claimed := ReachAdding(c, j - 1, maxCount, k, window);
    }
    TiedAdd(c, j - 1, k, claimed, maxCount, window);
    TiedSize(c + 1, j, k, m, claimed, window);
    states, steps := Extend(states, steps, Tied(if j == 1 then c else c + 1, j - 1, k, m, claimed, window), Add(j - 1, 0.0), maxCount, window, k);
  }

  lemma {:induction false} ReachLevel(c: nat, maxCount: nat, k: nat, window: real) returns (states: seq<Race>, steps: seq<Step>, claimed: seq<Member>)
    requires window > 0.0 && c <= maxCount && k >= 1
    ensures AtZero(claimed) && |claimed| == k * c
    ensures c == 0 ==> claimed == []
    ensures ReachedBy(states, steps, if c == 0 then START else Tied(c, k, k, Member(0.0, c - 1), claimed, window), maxCount, window, k)
    decreases c, 0
  {
    hide Tied;
    if c == 0 {
      states, steps, claimed := [START], [], [];
    } else {
      states, steps, claimed := ReachAdding(c - 1, k, maxCount, k, window);
    }
  }

  lemma {:induction false} AllIn(times: seq<real>, lo: real, hi: real)
    requires forall i :: 0 <= i < |times| ==> lo < times[i] <= hi
    ensures CountIn(times, lo, hi) == |times|
  {
    if times != [] {
      AllIn(times[..|times| - 1], lo, hi);
    }
  }

  /** The bound for tied readings is tight, for every limit and every number of callers in between. */
  lemma AnyReadingsBoundAttained(maxCount: nat, k: nat, window: real)
    requires window > 0.0 && k >= 1
    ensures exists states: seq<Race>, steps: seq<Step>, last: Race ::
      ReachedBy(states, steps, last, maxCount, window, k) && AdmittedIn(last, 0.0, window) == k * maxCount
  {
    var states, steps, claimed := ReachLevel(maxCount, maxCount, k, window);
    AllIn(Times(claimed), 0.0 - window, 0.0);
    var last := if maxCount == 0 then START else Tied(maxCount, k, k, Member(0.0, maxCount - 1), claimed, window);
    assert last.claimed == claimed;
  }

  // ---------------------------------------------------------------- with distinct readings

  /** The state after `added` callers went through alone and `waiting` more have counted. */
  function Crowded(added: nat, waiting: nat, maxCount: nat, n: nat, window: real): Race
    requires n > 0 && maxCount >= 1
  {
    var total := added + waiting;
    Race(set i: nat | i < added :: SlidingWindowRace.Claimed(i, maxCount, n, window),
         if added == 0 then 0.0 else SlidingWindowRace.Moment(added - 1, n, window) + window + 5.0,
         map i: nat | added <= i < total :: SlidingWindowRace.Claimed(i, maxCount, n, window),
         seq(total, i requires 0 <= i < total => SlidingWindowRace.Claimed(i, maxCount, n, window)),
         if total == 0 then 0.0 else SlidingWindowRace.Moment(total - 1, n, window))
  }

  lemma {:induction false} CrowdedSize(added: nat, waiting: nat, maxCount: nat, n: nat, window: real)
    requires window > 0.0 && added <= n && n > 0 && maxCount >= 1
    ensures |Crowded(added, waiting, maxCount, n, window).members| == added
  {
    var all := Crowded(added, waiting, maxCount, n, window).members;
    if added == 0 {
      assert all == {};
    } else {
      CrowdedSize(added - 1, waiting, maxCount, n, window);
      var init := Crowded(added - 1, waiting, maxCount, n, window).members;
      var last := SlidingWindowRace.Claimed(added - 1, maxCount, n, window);
      forall i: nat | i < added - 1 ensures SlidingWindowRace.Moment(i, n, window) != SlidingWindowRace.Moment(added - 1, n, window) {
        SlidingWindowRace.MomentsDiffer(i, added - 1, n, window);
      }
      assert last !in init;
      assert all == init + {last};
    }
  }

  lemma MomentsGrow(i: nat, j: nat, n: nat, window: real)
    requires i < j < n && window > 0.0
    ensures 0.0 <= SlidingWindowRace.Moment(i, n, window) < SlidingWindowRace.Moment(j, n, window) < window
  {
    SlidingWindowRace.MomentsDiffer(i, j, n, window);
    SlidingWindowRace.MomentsDiffer(j, i, n, window);
    var d := window / (n as real);
    assert d * (j as real) - d * (i as real) == d * ((j - i) as real) > 0.0;
  }

  lemma CrowdedSeen(added: nat, waiting: nat, maxCount: nat, n: nat, window: real)
    requires window > 0.0 && maxCount >= 1 && added + waiting < n
    ensures var r := Crowded(added, waiting, maxCount, n, window);
            Seen(r, SlidingWindowRace.Moment(added + waiting, n, window), window) == r.members
  {
    var r, now := Crowded(added, waiting, maxCount, n, window), SlidingWindowRace.Moment(added + waiting, n, window);
    SlidingWindowRace.MomentsDiffer(added + waiting, added + waiting, n, window);
    if added == 0 {
      assert r.members == {};
    } else {
      SlidingWindowRace.MomentsDiffer(added - 1, added - 1, n, window);
      assert r.expiresAt > now;
      forall m | m in r.members ensures !(0.0 <= m.at <= now - window) {
        var j: nat :| j < added && m == SlidingWindowRace.Claimed(j, maxCount, n, window);
        SlidingWindowRace.MomentsDiffer(j, j, n, window);
      }
    }
  }

  /** Caller number added + waiting counts. */
  lemma CrowdedCount(added: nat, waiting: nat, maxCount: nat, n: nat, window: real)
    requires window > 0.0 && maxCount >= 1 && added < maxCount && added + waiting < n
    requires waiting == 0 || added == maxCount - 1
    ensures var r, c := Crowded(added, waiting, maxCount, n, window), added + waiting;
            && r.clock <= SlidingWindowRace.Moment(c, n, window) && (c > 0 ==> r.clock < SlidingWindowRace.Moment(c, n, window))
            && Enabled(r, Count(c, SlidingWindowRace.Moment(c, n, window)))
            && Next(r, Count(c, SlidingWindowRace.Moment(c, n, window)), maxCount, window) == Crowded(added, waiting + 1, maxCount, n, window)
  {
    hide SlidingWindowRace.Moment;
    var r, c := Crowded(added, waiting, maxCount, n, window), added + waiting;
    var after := Crowded(added, waiting + 1, maxCount, n, window);
    CrowdedSeen(added, waiting, maxCount, n, window);
    CrowdedSize(added, waiting, maxCount, n, window);
    FirstMoment(c, n, window);
    if c > 0 { MomentsGrow(c - 1, c, n, window); }
    assert r.pending[c := SlidingWindowRace.Claimed(c, maxCount, n, window)] == after.pending;
    assert r.members == after.members;
    assert r.claimed + [SlidingWindowRace.Claimed(c, maxCount, n, window)] == after.claimed;
  }

  lemma FirstMoment(c: nat, n: nat, window: real)
    requires window > 0.0 && c < n
    ensures 0.0 <= SlidingWindowRace.Moment(c, n, window)
  {
    SlidingWindowRace.MomentsDiffer(c, c, n, window);
  }

  /** The one caller in between adds. */
  lemma CrowdedAdd(added: nat, maxCount: nat, n: nat, window: real)
    requires window > 0.0 && maxCount >= 1 && added < n
    ensures var r := Crowded(added, 1, maxCount, n, window); var step := Add(added, SlidingWindowRace.Moment(added, n, window));
            Enabled(r, step) && Next(r, step, maxCount, window) == Crowded(added + 1, 0, maxCount, n, window)
  {
    var r, now := Crowded(added, 1, maxCount, n, window), SlidingWindowRace.Moment(added, n, window);
    var after := Crowded(added + 1, 0, maxCount, n, window);
    SlidingWindowRace.MomentsDiffer(added, added, n, window);
    if added == 0 {
      assert r.members == {};
    } else {
      SlidingWindowRace.MomentsDiffer(added - 1, added - 1, n, window);
    }
    assert Present(r, now) == r.members;
    assert r.members + {r.pending[added]} == after.members;
    assert r.pending - {added} == after.pending;
    assert r.claimed == after.claimed;
  }

  lemma {:induction false} CrowdedPending(added: nat, waiting: nat, maxCount: nat, n: nat, window: real)
    requires n > 0 && maxCount >= 1
    ensures |Crowded(added, waiting, maxCount, n, window).pending| == waiting
  {
    var p := Crowded(added, waiting, maxCount, n, window).pending;
    if waiting == 0 {
      assert p == map[];
    } else {
      CrowdedPending(added, waiting - 1, maxCount, n, window);
      var q := Crowded(added, waiting - 1, maxCount, n, window).pending;
      assert p.Keys == q.Keys + {added + waiting - 1};
    }
  }

  /** The readings so far differ and are not later than the clock. */
  predicate Increasing(steps: seq<Step>, clock: real) {
    DistinctReadings(steps) && forall i | 0 <= i < |steps| :: steps[i].Count? ==> steps[i].now <= clock
  }

  /** maxCount - 1 callers go through alone, one moment after the other, and then k count together. */
  lemma {:induction false} ReachCrowded(added: nat, waiting: nat, maxCount: nat, k: nat, window: real) returns (states: seq<Race>, steps: seq<Step>)
    requires window > 0.0 && maxCount >= 1 && k >= 1 && added < maxCount && waiting <= k
    requires waiting <= 1 || added == maxCount - 1
    ensures var last := Crowded(added, waiting, maxCount, maxCount + k, window);
            ReachedBy(states, steps, last, maxCount, window, k) && Increasing(steps, last.clock)
    ensures added + waiting == 0 ==> steps == []
    decreases added, waiting
  {
    hide Crowded, IsRun, Next, Enabled, SlidingWindowRace.Moment;
    var n := maxCount + k;
    if waiting > 0 {
      states, steps := ReachCrowded(added, waiting - 1, maxCount, k, window);
      var c := added + waiting - 1;
      CrowdedCount(added, waiting - 1, maxCount, n, window);
      CrowdedPending(added, waiting, maxCount, n, window);
      CrowdedClock(added, waiting, maxCount, n, window);
      var before := Crowded(added, waiting - 1, maxCount, n, window);
      states, steps := Extend(states, steps, before, Count(c, SlidingWindowRace.Moment(c, n, window)), maxCount, window, k);
    } else if added > 0 {
      states, steps := ReachCrowded(added - 1, 1, maxCount, k, window);
      CrowdedAdd(added - 1, maxCount, n, window);
      CrowdedPending(added, 0, maxCount, n, window);
      CrowdedClock(added, 0, maxCount, n, window);
      CrowdedClock(added - 1, 1, maxCount, n, window);
      var add := Add(added - 1, SlidingWindowRace.Moment(added - 1, n, window));
      states, steps := Extend(states, steps, Crowded(added - 1, 1, maxCount, n, window), add, maxCount, window, k);
    } else {
      states, steps := [START], [];
      EmptyCrowd(maxCount, n, window);
    }
  }

  lemma CrowdedClock(added: nat, waiting: nat, maxCount: nat, n: nat, window: real)
    requires n > 0 && maxCount >= 1 && added + waiting > 0
    ensures Crowded(added, waiting, maxCount, n, window).clock == SlidingWindowRace.Moment(added + waiting - 1, n, window)
  {
  }

  lemma EmptyCrowd(maxCount: nat, n: nat, window: real)
    requires n > 0 && maxCount >= 1
    ensures Crowded(0, 0, maxCount, n, window) == START && IsRun([START], [], maxCount, window)
  {
    var r := Crowded(0, 0, maxCount, n, window);
    assert r.members == {} && r.pending == map[] && r.claimed == [];
  }

  /** The bound for distinct readings is tight as well. */
  lemma DistinctReadingsBoundAttained(maxCount: nat, k: nat, window: real)
    requires window > 0.0 && maxCount >= 1 && k >= 1
    ensures exists states: seq<Race>, steps: seq<Step>, last: Race ::
      ReachedBy(states, steps, last, maxCount, window, k) && DistinctReadings(steps) && AdmittedIn(last, last.clock, window) == maxCount + k - 1
  {
    hide IsRun, SlidingWindowRace.Moment;
    var n, total := maxCount + k, maxCount - 1 + k;
    var states, steps := ReachCrowded(maxCount - 1, k, maxCount, k, window);
    var last := Crowded(maxCount - 1, k, maxCount, n, window);
    forall i | 0 <= i < total ensures last.clock - window < Times(last.claimed)[i] <= last.clock {
      FirstMoment(i, n, window);
      if i < total - 1 { MomentsGrow(i, total - 1, n, window); }
      LastMoment(total - 1, n, window);
    }
    AllIn(Times(last.claimed), last.clock - window, last.clock);
    assert AdmittedIn(last, last.clock, window) == total;
  }

  lemma LastMoment(c: nat, n: nat, window: real)
    requires window > 0.0 && c < n
    ensures SlidingWindowRace.Moment(c, n, window) < window
  {
    SlidingWindowRace.MomentsDiffer(c, c, n, window);
  }
}
