/** The concurrent-slot counter of mcp-gateway/ratelimit.py, with requests that interleave between its commands. */
module SlotLease {

  type Request = nat

  /**
   * The stored counter, the requests that hold a slot, and those that were counted over the limit and
   * have not taken their increment back yet. `lost` adds up what key expiry wiped out of the counter.
   */
  datatype Slots = Slots(counter: int, holders: set<Request>, rejected: set<Request>, lost: int)

  /** INCR, the DECR of a rejected request, the DECR of a finished one, and expiry of the key. */
  datatype Step = Increment(r: Request) | TakeBack(r: Request) | Release(r: Request) | Expire

  predicate Enabled(s: Slots, step: Step) {
    match step
    case Increment(r) => r !in s.holders && r !in s.rejected
    case TakeBack(r) => r in s.rejected
    case Release(r) => r in s.holders
    case Expire => true
  }

  function Next(s: Slots, step: Step, limit: int): Slots {
    match step
    case Increment(r) =>
      if s.counter + 1 > limit then s.(counter := s.counter + 1, rejected := s.rejected + {r})
      else s.(counter := s.counter + 1, holders := s.holders + {r})
    case TakeBack(r) => s.(counter := s.counter - 1, rejected := s.rejected - {r})
    case Release(r) => s.(counter := s.counter - 1, holders := s.holders - {r})
    case Expire => s.(counter := 0, lost := s.lost + s.counter)
  }

  const IDLE := Slots(0, {}, {}, 0)

  predicate Quiet(s: Slots) {
    s.holders == {} && s.rejected == {}
  }

  // ---------------------------------------------------------------- the program

  class SlotStore {
    var counter: int
    ghost var holders: set<Request>
    ghost var rejected: set<Request>
    ghost var lost: int

    ghost function State(): Slots
      reads this
    {
      Slots(counter, holders, rejected, lost)
    }

    constructor ()
      ensures State() == IDLE
    {
      counter, holders, rejected, lost := 0, {}, {}, 0;
    }

    method Incr(r: Request, limit: int) returns (count: int)
      requires Enabled(State(), Increment(r))
      modifies this
      ensures State() == Next(old(State()), Increment(r), limit) && count == counter
    {
      counter := counter + 1;
      count := counter;
      if count > limit { rejected := rejected + {r}; } else { holders := holders + {r}; }
    }

    method DecrRejected(r: Request)
      requires Enabled(State(), TakeBack(r))
      modifies this
      ensures forall limit: int :: State() == Next(old(State()), TakeBack(r), limit)
    {
      counter := counter - 1;
      rejected := rejected - {r};
    }

    /** release_concurrent_slot */
    method ReleaseSlot(r: Request)
      requires Enabled(State(), Release(r))
      modifies this
      ensures forall limit: int :: State() == Next(old(State()), Release(r), limit)
    {
      counter := counter - 1;
      holders := holders - {r};
    }

    method ExpireKey()
      modifies this
      ensures forall limit: int :: State() == Next(old(State()), Expire, limit)
    {
      lost := lost + counter;
      counter := 0;
    }

    /** acquire_concurrent_slot with nobody in between: a slot is taken, or nothing changes; a limit of 0 or less counts nothing. */
    method AcquireSlot(r: Request, limit: int) returns (allowed: bool)
      requires limit > 0 ==> Enabled(State(), Increment(r))
      modifies this
      ensures allowed == (limit <= 0 || old(counter) < limit)
      ensures State() == if allowed && limit > 0 then Next(old(State()), Increment(r), limit) else old(State())
    {
      if limit <= 0 {
        return true;
      }
      var count := Incr(r, limit);
      if count > limit {
        ghost var counted := State();
        DecrRejected(r);
        assert State() == Next(counted, TakeBack(r), limit);
        return false;
      }
      return true;
    }
  }

  // ---------------------------------------------------------------- all interleavings

  ghost predicate IsRun(states: seq<Slots>, steps: seq<Step>, limit: int) {
    && |states| == |steps| + 1
    && states[0] == IDLE
    && forall i | 0 <= i < |steps| :: Enabled(states[i], steps[i]) && states[i + 1] == Next(states[i], steps[i], limit)
  }

  /** The counter and what expiry wiped account for every slot that is out, and holders exceed the limit at most by the loss. */
  predicate Accounted(s: Slots, limit: int) {
    && s.counter + s.lost == |s.holders| + |s.rejected|
    && s.holders !! s.rejected
    && |s.holders| <= limit + s.lost
  }

  lemma NextAccounted(s: Slots, step: Step, limit: int)
    requires limit > 0 && Enabled(s, step) && Accounted(s, limit)
    ensures Accounted(Next(s, step, limit), limit)
  {
  }

  lemma {:induction false} RunAccounted(states: seq<Slots>, steps: seq<Step>, limit: int, i: nat)
    requires limit > 0 && IsRun(states, steps, limit) && i < |states|
    ensures Accounted(states[i], limit)
  {
    if i > 0 {
      RunAccounted(states, steps, limit, i - 1);
      var j := i - 1;
      assert Enabled(states[j], steps[j]) && states[j + 1] == Next(states[j], steps[j], limit);
      NextAccounted(states[j], steps[j], limit);
    }
  }

  /** The key never expires while a slot is out. */
  ghost predicate LeaseOutlives(states: seq<Slots>, steps: seq<Step>)
    requires |states| == |steps| + 1
  {
    forall i | 0 <= i < |steps| :: steps[i].Expire? ==> Quiet(states[i])
  }

  lemma {:induction false} NothingLost(states: seq<Slots>, steps: seq<Step>, limit: int, i: nat)
    requires limit > 0 && IsRun(states, steps, limit) && LeaseOutlives(states, steps) && i < |states|
    ensures states[i].lost == 0
  {
    if i > 0 {
      var j := i - 1;
      NothingLost(states, steps, limit, j);
      RunAccounted(states, steps, limit, j);
      assert states[j + 1] == Next(states[j], steps[j], limit);
    }
  }

  /** Over every interleaving the counter equals holders plus rejected, holders stay within the limit, and the counter is back at 0 when all finish. */
  lemma SlotSafety(states: seq<Slots>, steps: seq<Step>, limit: int, i: nat)
    requires limit > 0 && IsRun(states, steps, limit) && LeaseOutlives(states, steps) && i < |states|
    ensures states[i].counter == |states[i].holders| + |states[i].rejected|
    ensures |states[i].holders| <= limit
    ensures Quiet(states[i]) ==> states[i].counter == 0
  {
    RunAccounted(states, steps, limit, i);
    NothingLost(states, steps, limit, i);
  }

  /** A request is turned away exactly when the slots out, counting rejections in flight, have reached the limit. */
  lemma RejectedExactlyWhenFull(states: seq<Slots>, steps: seq<Step>, limit: int, i: nat)
    requires limit > 0 && IsRun(states, steps, limit) && LeaseOutlives(states, steps)
    requires i < |steps| && steps[i].Increment?
    ensures steps[i].r in states[i + 1].rejected <==> |states[i].holders| + |states[i].rejected| >= limit
  {
    SlotSafety(states, steps, limit, i);
    assert Enabled(states[i], steps[i]) && states[i + 1] == Next(states[i], steps[i], limit);
  }

  // ---------------------------------------------------------------- exactly when

  /** What is lost is what was out when the key last expired; nothing if it never did. */
  lemma {:induction false} LossIsWhatWasOut(states: seq<Slots>, steps: seq<Step>, limit: int, i: nat)
    requires limit > 0 && IsRun(states, steps, limit) && i < |states|
    ensures states[i].lost >= 0
    ensures states[i].lost == 0 || exists e :: 0 <= e < i && ExpiredLast(steps, e, i) && states[i].lost == |states[e].holders| + |states[e].rejected|
    ensures forall e :: 0 <= e < i && ExpiredLast(steps, e, i) ==> states[i].lost == |states[e].holders| + |states[e].rejected|
  {
    if i > 0 {
      var j := i - 1;
      LossIsWhatWasOut(states, steps, limit, j);
      RunAccounted(states, steps, limit, j);
      assert Enabled(states[j], steps[j]) && states[j + 1] == Next(states[j], steps[j], limit);
      if steps[j].Expire? {
        assert ExpiredLast(steps, j, i);
      } else {
        forall e | 0 <= e < i && ExpiredLast(steps, e, i) ensures e < j && ExpiredLast(steps, e, j) {
        }
        if e :| 0 <= e < j && ExpiredLast(steps, e, j) && states[j].lost == |states[e].holders| + |states[e].rejected| {
          assert ExpiredLast(steps, e, i);
        }
      }
    }
  }

  /** Step e is the last expiry before state i. */
  predicate ExpiredLast(steps: seq<Step>, e: nat, i: nat) {
    e < i <= |steps| && steps[e].Expire? && forall l | e < l < i :: !steps[l].Expire?
  }

  ghost predicate CounterIsExact(states: seq<Slots>) {
    forall i | 0 <= i < |states| :: states[i].counter == |states[i].holders| + |states[i].rejected|
  }

  /** The counter is exact throughout a run exactly when the key never expires while a slot is out. */
  lemma CounterIsExactExactlyWhen(states: seq<Slots>, steps: seq<Step>, limit: int)
    requires limit > 0 && IsRun(states, steps, limit)
    ensures CounterIsExact(states) <==> LeaseOutlives(states, steps)
  {
    if LeaseOutlives(states, steps) {
      forall i | 0 <= i < |states| ensures states[i].counter == |states[i].holders| + |states[i].rejected| {
        SlotSafety(states, steps, limit, i);
      }
    }
    if CounterIsExact(states) {
      forall i | 0 <= i < |steps| && steps[i].Expire? ensures Quiet(states[i]) {
        assert states[i + 1] == Next(states[i], steps[i], limit) && states[i + 1].counter == 0;
      }
    }
  }

  /** Once all requests have finished the counter is 0 exactly when nothing was out when the key last expired. */
  lemma CounterReturnsExactlyWhen(states: seq<Slots>, steps: seq<Step>, limit: int, i: nat)
    requires limit > 0 && IsRun(states, steps, limit) && i < |states| && Quiet(states[i])
    ensures states[i].counter == 0 <==> forall e :: 0 <= e < i && ExpiredLast(steps, e, i) ==> Quiet(states[e])
  {
    RunAccounted(states, steps, limit, i);
    LossIsWhatWasOut(states, steps, limit, i);
  }

  // ---------------------------------------------------------------- what can still happen

  /** A run from any state in which the key does not expire. */
  ghost predicate Continues(states: seq<Slots>, steps: seq<Step>, start: Slots, limit: int) {
    && |states| == |steps| + 1
    && states[0] == start
    && forall i | 0 <= i < |steps| :: !steps[i].Expire? && Enabled(states[i], steps[i]) && states[i + 1] == Next(states[i], steps[i], limit)
  }

  /** Some continuation without expiry ends with so many holders. */
  ghost predicate CanHold(start: Slots, n: int, limit: int) {
    exists states: seq<Slots>, steps: seq<Step> :: Continues(states, steps, start, limit) && |states[|states| - 1].holders| == n
  }

  lemma {:induction false} ContinuationAccounted(states: seq<Slots>, steps: seq<Step>, start: Slots, limit: int, i: nat)
    requires limit > 0 && Continues(states, steps, start, limit) && Accounted(start, limit) && i < |states|
    ensures Accounted(states[i], limit) && states[i].lost == start.lost
  {
    if i > 0 {
      var j := i - 1;
      ContinuationAccounted(states, steps, start, limit, j);
      assert Enabled(states[j], steps[j]) && states[j + 1] == Next(states[j], steps[j], limit) && !steps[j].Expire?;
      NextAccounted(states[j], steps[j], limit);
    }
  }

  lemma StepFirst(start: Slots, step: Step, n: int, limit: int)
    requires Enabled(start, step) && !step.Expire? && CanHold(Next(start, step, limit), n, limit)
    ensures CanHold(start, n, limit)
  {
    var states: seq<Slots>, steps: seq<Step> :| Continues(states, steps, Next(start, step, limit), limit) && |states[|states| - 1].holders| == n;
    var states', steps' := [start] + states, [step] + steps;
    forall i | 0 <= i < |steps'|
      ensures !steps'[i].Expire? && Enabled(states'[i], steps'[i]) && states'[i + 1] == Next(states'[i], steps'[i], limit)
    {
      if i > 0 { assert steps'[i] == steps[i - 1] && states'[i] == states[i - 1] && states'[i + 1] == states[i]; }
    }
    assert Continues(states', steps', start, limit) && states'[|states'| - 1] == states[|states| - 1];
  }

  /** A request that is not out. */
  lemma {:induction false} FreshRequest(s: set<Request>) returns (r: Request)
    ensures forall x :: x in s ==> x < r
  {
    if s == {} {
      r := 0;
    } else {
      var some :| some in s;
      r := FreshRequest(s - {some});
      r := if r > some then r else some + 1;
      forall x | x in s ensures x < r {
        assert x == some || x in s - {some};
      }
    }
  }

  /** With no rejection in flight, new requests take slots until the counter reaches the limit. */
  lemma {:induction false} FillUp(s: Slots, limit: int)
    requires limit > 0 && Accounted(s, limit) && s.rejected == {}
    ensures CanHold(s, limit + s.lost, limit)
    decreases limit - s.counter
  {
    if |s.holders| == limit + s.lost {
      assert Continues([s], [], s, limit);
    } else {
      var r := FreshRequest(s.holders);
      var step := Increment(r);
      NextAccounted(s, step, limit);
      FillUp(Next(s, step, limit), limit);
      StepFirst(s, step, limit + s.lost, limit);
    }
  }

  lemma {:induction false} DrainAndFill(s: Slots, limit: int)
    requires limit > 0 && Accounted(s, limit)
    ensures CanHold(s, limit + s.lost, limit)
    decreases |s.rejected|
  {
    if s.rejected == {} {
      FillUp(s, limit);
    } else {
      var r :| r in s.rejected;
      var step := TakeBack(r);
      NextAccounted(s, step, limit);
      DrainAndFill(Next(s, step, limit), limit);
      StepFirst(s, step, limit + s.lost, limit);
    }
  }

  /**
   * From a reachable state, without further expiry: exactly limit + lost slots can come to be held at once and never more,
   * so the limit can be exceeded exactly when something was out when the key last expired.
   */
  lemma LimitCanBeExceededExactlyWhen(states: seq<Slots>, steps: seq<Step>, limit: int, i: nat)
    requires limit > 0 && IsRun(states, steps, limit) && i < |states|
    ensures CanHold(states[i], limit + states[i].lost, limit)
    ensures forall n :: CanHold(states[i], n, limit) ==> n <= limit + states[i].lost
    ensures (exists n :: n > limit && CanHold(states[i], n, limit)) <==> exists e :: 0 <= e < i && ExpiredLast(steps, e, i) && !Quiet(states[e])
  {
    hide Continues, Accounted, ExpiredLast, Next, Enabled;
    var s := states[i];
    RunAccounted(states, steps, limit, i);
    DrainAndFill(s, limit);
    forall n | CanHold(s, n, limit) ensures n <= limit + s.lost {
      HoldsAtMost(s, n, limit);
    }
    LossIsWhatWasOut(states, steps, limit, i);
    if s.lost > 0 {
      assert CanHold(s, limit + s.lost, limit);
    }
  }

  lemma HoldsAtMost(s: Slots, n: int, limit: int)
    requires limit > 0 && Accounted(s, limit) && CanHold(s, n, limit)
    ensures n <= limit + s.lost
  {
    var states: seq<Slots>, steps: seq<Step> :| Continues(states, steps, s, limit) && |states[|states| - 1].holders| == n;
    ContinuationAccounted(states, steps, s, limit, |states| - 1);
  }

  /** If the key expires while a slot is out, the limit can be exceeded and the counter is left below 0. */
  lemma ExpiryBreaksTheLimit()
    ensures exists states: seq<Slots>, steps: seq<Step> ::
              IsRun(states, steps, 1) && |steps| == 5
              && |states[3].holders| == 2 && Quiet(states[5]) && states[5].counter == -1
  {
    var s1 := Slots(1, {0}, {}, 0);
    var s2 := Slots(0, {0}, {}, 1);
    var s3 := Slots(1, {0, 1}, {}, 1);
    var s4 := Slots(0, {1}, {}, 1);
    var s5 := Slots(-1, {}, {}, 1);
    var states := [IDLE, s1, s2, s3, s4, s5];
    var steps := [Increment(0), Expire, Increment(1), Release(0), Release(1)];
    assert Next(IDLE, steps[0], 1) == s1;
    assert Next(s1, steps[1], 1) == s2;
    assert Next(s2, steps[2], 1) == s3;
    assert Next(s3, steps[3], 1) == s4;
    assert Next(s4, steps[4], 1) == s5;
    assert IsRun(states, steps, 1);
    assert |s3.holders| == 2;
  }
}
