/**
 * How many calls the limiter admits when callers interleave: the two pipelines of module SlidingWindowRace,
 * with the clock and the key's expiry, and with every approved call on record.
 */
module RaceAdmissions {
  import opened SlidingWindow
  import SlidingWindowRace

  type Caller = nat

  /** The stored set and its expiry, what each approved caller has yet to add, and all approved calls by the members they claim. */
  datatype Race = Race(members: set<Member>, expiresAt: real, pending: map<Caller, Member>, claimed: seq<Member>, clock: real)

  /** The prune-and-count pipeline and the add pipeline, each at its time. */
  datatype Step = Count(caller: Caller, now: real) | Add(caller: Caller, at: real)

  const START := Race({}, 0.0, map[], [], 0.0)

  predicate Enabled(r: Race, step: Step) {
    match step
    case Count(c, now) => c !in r.pending && r.clock <= now
    case Add(c, at) => c in r.pending && r.clock <= at
  }

  /** What counting at `now` leaves in the set. */
  function Seen(r: Race, now: real, window: real): set<Member> {
    Pruned(Stored(r.members, r.expiresAt), now, window)
  }

  /** The set as an addition at `at` finds it. */
  function Present(r: Race, at: real): set<Member> {
    if r.expiresAt <= at then {} else r.members
  }

  function Next(r: Race, step: Step, maxCount: nat, window: real): Race
    requires Enabled(r, step)
  {
    match step
    case Count(c, now) =>
      var kept := Seen(r, now, window);
      if |kept| >= maxCount then r.(members := kept, clock := now)
      else
        var m := Member(now, |kept|);
        Race(kept, r.expiresAt, r.pending[c := m], r.claimed + [m], now)
    case Add(c, at) => Race(Present(r, at) + {r.pending[c]}, at + window + 5.0, r.pending - {c}, r.claimed, at)
  }

  ghost predicate IsRun(states: seq<Race>, steps: seq<Step>, maxCount: nat, window: real) {
    && |states| == |steps| + 1
    && states[0] == START
    && forall i | 0 <= i < |steps| :: Enabled(states[i], steps[i]) && states[i + 1] == Next(states[i], steps[i], maxCount, window)
  }

  /** The readings of the clock at which calls were approved. */
  function Times(claimed: seq<Member>): (times: seq<real>)
    ensures |times| == |claimed|
  {
    seq(|claimed|, i requires 0 <= i < |claimed| => claimed[i].at)
  }

  /** Calls approved in (t - window, t]. */
  function AdmittedIn(r: Race, t: real, window: real): nat {
    CountIn(Times(r.claimed), t - window, t)
  }

  // ---------------------------------------------------------------- what every run keeps

  predicate Past(m: Member, clock: real) {
    0.0 <= m.at <= clock
  }

  /** Nothing is from the future, members outlive the window, and members of the current moment carry small counts. */
  predicate Sound(r: Race, window: real) {
    var size := |Live(r.members, r.clock - window)|;
    && 0.0 <= r.clock
    && (forall m | m in r.members :: Past(m, r.clock) && m.at + window + 5.0 <= r.expiresAt && (m.at == r.clock ==> m.count < size))
    && (forall c | c in r.pending :: Past(r.pending[c], r.clock) && (r.pending[c].at == r.clock ==> r.pending[c].count <= size))
    && forall i | 0 <= i < |r.claimed| :: Past(r.claimed[i], r.clock)
  }

  /** Expiry removes nothing that pruning would have kept. */
  lemma SeenIsLive(r: Race, now: real, window: real)
    requires Sound(r, window) && r.clock <= now
    ensures Seen(r, now, window) == Live(r.members, now - window)
  {
  }

  lemma PresentKeepsLive(r: Race, at: real, t: real, window: real)
    requires Sound(r, window) && r.clock <= at <= t
    ensures Live(Present(r, at), t - window) == Live(r.members, t - window)
  {
  }

  lemma LiveAdded(members: set<Member>, m: Member, cutoff: real)
    ensures Live(members + {m}, cutoff) == if m.at > cutoff then Live(members, cutoff) + {m} else Live(members, cutoff)
  {
  }

  lemma CountIsSound(r: Race, step: Step, maxCount: nat, window: real)
    requires window > 0.0 && Enabled(r, step) && Sound(r, window) && step.Count?
    ensures Sound(Next(r, step, maxCount, window), window)
  {
    hide Live, Seen;
    var kept := Seen(r, step.now, window);
    CountedIsLive(r, step.now, window);
    var after := Next(r, step, maxCount, window);
    assert Live(after.members, after.clock - window) == kept;
    forall i | 0 <= i < |after.claimed| ensures Past(after.claimed[i], step.now) {
      assert i < |r.claimed| ==> after.claimed[i] == r.claimed[i] && Past(r.claimed[i], r.clock);
    }
  }

  lemma CountedIsLive(r: Race, now: real, window: real)
    requires window > 0.0 && Sound(r, window) && r.clock <= now
    ensures var kept := Seen(r, now, window);
      kept <= r.members && Live(kept, now - window) == kept && (now == r.clock ==> Live(r.members, r.clock - window) == kept)
  {
    SeenIsLive(r, now, window);
  }

  lemma AddIsSound(r: Race, step: Step, maxCount: nat, window: real)
    requires window > 0.0 && Enabled(r, step) && Sound(r, window) && step.Add?
    ensures Sound(Next(r, step, maxCount, window), window)
  {
    var m, present := r.pending[step.caller], Present(r, step.at);
    PresentKeepsLive(r, step.at, step.at, window);
    LiveAdded(present, m, step.at - window);
    var after := Next(r, step, maxCount, window);
    if step.at == r.clock && m !in present && m.at == r.clock {
      assert |Live(after.members, after.clock - window)| == |Live(r.members, r.clock - window)| + 1;
    }
    assert Live(r.members, step.at - window) <= Live(after.members, step.at - window);
    SlidingWindowRace.SubsetSize(Live(r.members, step.at - window), Live(after.members, step.at - window));
  }

  lemma {:induction false} RunIsSound(states: seq<Race>, steps: seq<Step>, maxCount: nat, window: real, i: nat)
    requires window > 0.0 && IsRun(states, steps, maxCount, window) && i < |states|
    ensures Sound(states[i], window)
  {
    hide Next, Sound;
    if i == 0 {
      StartIsSound(window);
    } else {
      var j := i - 1;
      RunIsSound(states, steps, maxCount, window, j);
      assert Enabled(states[j], steps[j]) && states[j + 1] == Next(states[j], steps[j], maxCount, window);
      if steps[j].Count? {
        CountIsSound(states[j], steps[j], maxCount, window);
      } else {
        AddIsSound(states[j], steps[j], maxCount, window);
      }
    }
  }

  lemma StartIsSound(window: real)
    ensures Sound(START, window)
  {
  }

  // ---------------------------------------------------------------- the accounting

  /** Callers whose approval lies in the window at t and whose member is not in the set yet. */
  function Unadded(r: Race, t: real, window: real): set<Caller> {
    set c | c in r.pending && r.pending[c].at > t - window && r.pending[c] !in r.members
  }

  /** Callers about to add the same member. */
  function Sharing(r: Race, m: Member): set<Caller> {
    set c | c in r.pending && r.pending[c] == m
  }

  /** With at most q callers to a member, the calls admitted in a window are at most q for each member in it and one for each unadded caller. */
  ghost predicate Covered(r: Race, q: nat, window: real) {
    forall t | t >= r.clock :: AdmittedIn(r, t, window) <= q * |Live(r.members, t - window)| + |Unadded(r, t, window)|
  }

  lemma CountInGrows(claimed: seq<Member>, m: Member, lo: real, hi: real)
    ensures CountIn(Times(claimed + [m]), lo, hi) == CountIn(Times(claimed), lo, hi) + if lo < m.at <= hi then 1 else 0
  {
    var times := Times(claimed + [m]);
    assert times[..|claimed|] == Times(claimed);
  }

  lemma CountIsCovered(r: Race, step: Step, maxCount: nat, q: nat, window: real)
    requires window > 0.0 && Enabled(r, step) && Sound(r, window) && Covered(r, q, window) && step.Count?
    ensures Covered(Next(r, step, maxCount, window), q, window)
  {
    hide Covered, Sound, AdmittedIn, Live, Unadded, Seen;
    var after := Next(r, step, maxCount, window);
    forall t | t >= step.now ensures AdmittedIn(after, t, window) <= q * |Live(after.members, t - window)| + |Unadded(after, t, window)| {
      CoveredAt(r, q, window, t);
      CountLeaves(r, step, maxCount, window, t);
    }
    CoveredWhen(after, q, window);
  }

  /** A count leaves the window's members as they are; an approval adds one admission and one unadded caller. */
  lemma CountLeaves(r: Race, step: Step, maxCount: nat, window: real, t: real)
    requires window > 0.0 && Enabled(r, step) && Sound(r, window) && step.Count? && t >= step.now
    ensures var after := Next(r, step, maxCount, window);
      Live(after.members, t - window) == Live(r.members, t - window)
    ensures var after := Next(r, step, maxCount, window);
      AdmittedIn(after, t, window) - AdmittedIn(r, t, window) == |Unadded(after, t, window)| - |Unadded(r, t, window)|
  {
    hide Sound, Unadded, Live;
    var kept, c := Seen(r, step.now, window), step.caller;
    var after := Next(r, step, maxCount, window);
    KeptInWindow(r, step.now, window, t);
    NewClaim(r, step.now, window);
    var m := Member(step.now, |kept|);
    CountInGrows(r.claimed, m, t - window, t);
    CountUnadded(r, step, maxCount, window, t);
  }

  lemma KeptInWindow(r: Race, now: real, window: real, t: real)
    requires window > 0.0 && Sound(r, window) && r.clock <= now <= t
    ensures Live(Seen(r, now, window), t - window) == Live(r.members, t - window)
    ensures forall m: Member :: m.at > t - window ==> (m in Seen(r, now, window) <==> m in r.members)
  {
    SeenIsLive(r, now, window);
  }

  lemma CountUnadded(r: Race, step: Step, maxCount: nat, window: real, t: real)
    requires window > 0.0 && Enabled(r, step) && Sound(r, window) && step.Count? && t >= step.now
    ensures var after, kept := Next(r, step, maxCount, window), Seen(r, step.now, window);
      |Unadded(after, t, window)| == |Unadded(r, t, window)| + if |kept| < maxCount && step.now > t - window then 1 else 0
  {
    hide Sound, Seen, Live;
    var kept, c := Seen(r, step.now, window), step.caller;
    var after := Next(r, step, maxCount, window);
    KeptInWindow(r, step.now, window, t);
    NewClaim(r, step.now, window);
    if |kept| < maxCount && step.now > t - window {
      assert Unadded(after, t, window) == Unadded(r, t, window) + {c};
    } else {
      assert Unadded(after, t, window) == Unadded(r, t, window);
    }
  }

  /** The member claimed by a count is not in the set. */
  lemma NewClaim(r: Race, now: real, window: real)
    requires window > 0.0 && Sound(r, window) && r.clock <= now
    ensures var kept := Seen(r, now, window); Member(now, |kept|) !in kept
  {
    SeenIsLive(r, now, window);
  }

  lemma AddIsCovered(r: Race, step: Step, maxCount: nat, q: nat, window: real)
    requires window > 0.0 && Enabled(r, step) && Sound(r, window) && Covered(r, q, window) && step.Add?
    requires |Sharing(r, r.pending[step.caller])| <= q
    ensures Covered(Next(r, step, maxCount, window), q, window)
  {
    hide Covered, Sound, AdmittedIn;
    var after := Next(r, step, maxCount, window);
    forall t | t >= step.at ensures AdmittedIn(after, t, window) <= q * |Live(after.members, t - window)| + |Unadded(after, t, window)| {
      CoveredAt(r, q, window, t);
      AddCoveredAt(r, step, maxCount, q, window, t);
      AddAdmitsNobody(r, step, maxCount, window, t);
    }
    CoveredWhen(after, q, window);
  }

  lemma CoveredAt(r: Race, q: nat, window: real, t: real)
    requires Covered(r, q, window) && t >= r.clock
    ensures AdmittedIn(r, t, window) <= q * |Live(r.members, t - window)| + |Unadded(r, t, window)|
  {
  }

  lemma CoveredWhen(r: Race, q: nat, window: real)
    requires forall t | t >= r.clock :: AdmittedIn(r, t, window) <= q * |Live(r.members, t - window)| + |Unadded(r, t, window)|
    ensures Covered(r, q, window)
  {
  }

  lemma AddAdmitsNobody(r: Race, step: Step, maxCount: nat, window: real, t: real)
    requires Enabled(r, step) && step.Add?
    ensures AdmittedIn(Next(r, step, maxCount, window), t, window) == AdmittedIn(r, t, window)
  {
  }

  /** Adding a new member of the window makes room for the callers that share it. */
  lemma AddCoveredAt(r: Race, step: Step, maxCount: nat, q: nat, window: real, t: real)
    requires window > 0.0 && Enabled(r, step) && Sound(r, window) && step.Add? && t >= step.at
    requires |Sharing(r, r.pending[step.caller])| <= q
    ensures var after := Next(r, step, maxCount, window);
            q * |Live(r.members, t - window)| + |Unadded(r, t, window)| <= q * |Live(after.members, t - window)| + |Unadded(after, t, window)|
  {
    hide Sound, Live, Unadded, Sharing, Present;
    var after, m := Next(r, step, maxCount, window), r.pending[step.caller];
    AddUnadded(r, step, maxCount, window, t);
    AddLive(r, step, maxCount, window, t);
    if m.at > t - window && m !in Present(r, step.at) {
      SplitSize(Unadded(r, t, window), Sharing(r, m));
      OneMoreTime(q, |Live(r.members, t - window)|);
    }
  }

  lemma AddLive(r: Race, step: Step, maxCount: nat, window: real, t: real)
    requires window > 0.0 && Enabled(r, step) && Sound(r, window) && step.Add? && t >= step.at
    ensures var m := r.pending[step.caller];
      |Live(Next(r, step, maxCount, window).members, t - window)|
      == |Live(r.members, t - window)| + if m.at > t - window && m !in Present(r, step.at) then 1 else 0
  {
    var m, present := r.pending[step.caller], Present(r, step.at);
    PresentKeepsLive(r, step.at, t, window);
    LiveAdded(present, m, t - window);
    if m.at > t - window && m in present {
      assert Live(present, t - window) + {m} == Live(present, t - window);
    }
  }

  lemma AddUnadded(r: Race, step: Step, maxCount: nat, window: real, t: real)
    requires window > 0.0 && Enabled(r, step) && Sound(r, window) && step.Add? && t >= step.at
    ensures var after, m := Next(r, step, maxCount, window), r.pending[step.caller];
      Unadded(after, t, window) == if m.at > t - window && m !in Present(r, step.at) then Unadded(r, t, window) - Sharing(r, m) else Unadded(r, t, window)
  {
    hide Sound, Present;
    StillUnadded(r, step, maxCount, window, t);
  }

  lemma StillUnadded(r: Race, step: Step, maxCount: nat, window: real, t: real)
    requires window > 0.0 && Enabled(r, step) && Sound(r, window) && step.Add? && t >= step.at
    ensures forall c :: c in r.pending && r.pending[c].at > t - window ==> (r.pending[c] in Present(r, step.at) <==> r.pending[c] in r.members)
  {
  }

  lemma OneMoreTime(q: nat, n: nat)
    ensures q * (n + 1) == q * n + q
  {
  }

  lemma SplitSize<T>(a: set<T>, b: set<T>)
    ensures |a| <= |a - b| + |b|
  {
    assert a <= (a - b) + b;
    SlidingWindowRace.SubsetSize(a, (a - b) + b);
    assert |(a - b) + b| <= |a - b| + |b|;
  }

  // ---------------------------------------------------------------- the bound

  /** Never more than k callers in between, and never more than q of them with the same member. */
  ghost predicate Crowd(states: seq<Race>, k: nat, q: nat) {
    forall i | 0 <= i < |states| :: |states[i].pending| <= k && forall m :: |Sharing(states[i], m)| <= q
  }

  lemma {:induction false} RunIsCovered(states: seq<Race>, steps: seq<Step>, maxCount: nat, window: real, k: nat, q: nat, i: nat)
    requires window > 0.0 && IsRun(states, steps, maxCount, window) && Crowd(states, k, q) && i < |states|
    ensures Covered(states[i], q, window)
  {
    hide Next, Sound, Covered;
    if i == 0 {
      StartIsCovered(q, window);
    } else {
      var j := i - 1;
      RunIsCovered(states, steps, maxCount, window, k, q, j);
      RunIsSound(states, steps, maxCount, window, j);
      assert Enabled(states[j], steps[j]) && states[j + 1] == Next(states[j], steps[j], maxCount, window);
      if steps[j].Count? {
        CountIsCovered(states[j], steps[j], maxCount, q, window);
      } else {
        AddIsCovered(states[j], steps[j], maxCount, q, window);
      }
    }
  }

  lemma StartIsCovered(q: nat, window: real)
    ensures Covered(START, q, window)
  {
    forall t | t >= 0.0 ensures AdmittedIn(START, t, window) == 0 { assert Times([]) == []; }
  }

  /** An approval leaves at most q * (maxCount - 1) + k calls in the window that ends with it. */
  lemma ApprovalBound(r: Race, step: Step, maxCount: nat, window: real, k: nat, q: nat)
    requires window > 0.0 && Enabled(r, step) && Sound(r, window) && Covered(r, q, window) && step.Count?
    requires |Seen(r, step.now, window)| < maxCount && |Next(r, step, maxCount, window).pending| <= k
    ensures AdmittedIn(r, step.now, window) < q * (maxCount - 1) + k
  {
    hide Sound, Covered;
    var kept := Seen(r, step.now, window);
    SeenIsLive(r, step.now, window);
    CoveredAt(r, q, window, step.now);
    assert Unadded(r, step.now, window) <= r.pending.Keys;
    SlidingWindowRace.SubsetSize(Unadded(r, step.now, window), r.pending.Keys);
    SlidingWindowRace.OneMorePending(r.pending, step.caller, Member(step.now, |kept|));
    assert q * |kept| <= q * (maxCount - 1);
  }

  /** In every window at most q * (maxCount - 1) + k calls are admitted. */
  lemma {:induction false} AdmissionBound(states: seq<Race>, steps: seq<Step>, maxCount: nat, window: real, k: nat, q: nat, i: nat, t: real)
    requires window > 0.0 && maxCount >= 1 && IsRun(states, steps, maxCount, window) && Crowd(states, k, q) && i < |states|
    ensures AdmittedIn(states[i], t, window) <= q * (maxCount - 1) + k
  {
    hide Sound, Covered, Seen, Enabled, Next;
    if i == 0 {
      assert Times([]) == [];
    } else {
      var j := i - 1;
      var r, step := states[j], steps[j];
      AdmissionBound(states, steps, maxCount, window, k, q, j, t);
      assert Enabled(r, step) && states[j + 1] == Next(r, step, maxCount, window);
      Claims(r, step, maxCount, window);
      if step.Count? && |Seen(r, step.now, window)| < maxCount {
        RunIsSound(states, steps, maxCount, window, j);
        RunIsCovered(states, steps, maxCount, window, k, q, j);
        ApprovalBound(r, step, maxCount, window, k, q);
        ApprovedNow(r, step, window);
        CountInGrows(r.claimed, Member(step.now, |Seen(r, step.now, window)|), t - window, t);
        OneMore(Times(r.claimed), step.now, window, q * (maxCount - 1) + k, t);
        assert Times(r.claimed + [Member(step.now, |Seen(r, step.now, window)|)]) == Times(r.claimed) + [step.now];
      }
    }
  }

  lemma Claims(r: Race, step: Step, maxCount: nat, window: real)
    requires Enabled(r, step)
    ensures Next(r, step, maxCount, window).claimed
         == if step.Count? && |Seen(r, step.now, window)| < maxCount then r.claimed + [Member(step.now, |Seen(r, step.now, window)|)] else r.claimed
  {
  }

  lemma ApprovedNow(r: Race, step: Step, window: real)
    requires Sound(r, window) && Enabled(r, step) && step.Count?
    ensures forall i :: 0 <= i < |Times(r.claimed)| ==> Times(r.claimed)[i] <= step.now
  {
    assert forall i :: 0 <= i < |r.claimed| ==> Past(r.claimed[i], r.clock);
  }
}
