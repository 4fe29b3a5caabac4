/** The sliding-window limiter of mcp-gateway/ratelimit.py over a stored sorted set. */
module SlidingWindow {
  /** A member of the sorted set, f"{now}:{count}", whose score is its time. */
  datatype Member = Member(at: real, count: nat)

  /** The stored set and the time at which its key expires. */
  datatype Stored = Stored(members: set<Member>, expiresAt: real)

  // ---------------------------------------------------------------- one atomic check, on values

  /** The set as a command at `now` sees it: empty once the key has expired, and without the scores in [0, now - window]. */
  function Pruned(s: Stored, now: real, window: real): set<Member> {
    if s.expiresAt <= now then {}
    else set m | m in s.members && !(0.0 <= m.at <= now - window)
  }

  predicate Allowed(s: Stored, now: real, window: real, maxCount: int) {
    |Pruned(s, now, window)| < maxCount
  }

  function Checked(s: Stored, now: real, window: real, maxCount: int): Stored {
    var kept := Pruned(s, now, window);
    if |kept| >= maxCount then Stored(kept, s.expiresAt)
    else Stored(kept + {Member(now, |kept|)}, now + window + 5.0)
  }

  // ---------------------------------------------------------------- the program

  class Limiter {
    var members: set<Member>
    var expiresAt: real

    function State(): Stored
      reads this
    {
      Stored(members, expiresAt)
    }

    constructor ()
      ensures members == {}
    {
      members, expiresAt := {}, 0.0;
    }

    /** zremrangebyscore followed by zcard. */
    method PruneAndCount(now: real, window: real) returns (count: nat)
      modifies this
      ensures members == Pruned(old(State()), now, window) && count == |members| && expiresAt == old(expiresAt)
    {
      members := if expiresAt <= now then {} else set m | m in members && !(0.0 <= m.at <= now - window);
      count := |members|;
    }

    /** zadd followed by expire. */
    method Add(member: Member, window: real)
      modifies this
      ensures members == old(members) + {member} && expiresAt == member.at + window + 5.0
    {
      members := members + {member};
      expiresAt := member.at + window + 5.0;
    }

    method Check(now: real, maxCount: int, window: real) returns (allowed: bool, remaining: int)
      modifies this
      ensures State() == Checked(old(State()), now, window, maxCount)
      ensures allowed == Allowed(old(State()), now, window, maxCount)
      ensures remaining == if allowed then maxCount - |Pruned(old(State()), now, window)| - 1 else 0
    {
      var count := PruneAndCount(now, window);
      if count >= maxCount {
        return false, 0;
      }
      Add(Member(now, count), window);
      return true, maxCount - count - 1;
    }
  }

  // ---------------------------------------------------------------- the full history

  /** Number of the given times in (lo, hi]. */
  function CountIn(times: seq<real>, lo: real, hi: real): nat {
    if times == [] then 0
    else CountIn(times[..|times| - 1], lo, hi) + if lo < times[|times| - 1] <= hi then 1 else 0
  }

  /** One call: when it was made and the limit it was made with. */
  datatype Call = Call(now: real, maxCount: int)

  predicate Monotone(calls: seq<Call>) {
    && (forall i | 0 <= i < |calls| :: calls[i].now >= 0.0)
    && (forall i, j | 0 <= i <= j < |calls| :: calls[i].now <= calls[j].now)
  }

  /** The stored set after a run of calls on one key, which starts absent. */
  function Run(calls: seq<Call>, window: real): Stored {
    if calls == [] then Stored({}, 0.0)
    else
      var last := calls[|calls| - 1];
      Checked(Run(calls[..|calls| - 1], window), last.now, window, last.maxCount)
  }

  function Outcome(s: Stored, call: Call, window: real): seq<real> {
    if Allowed(s, call.now, window, call.maxCount) then [call.now] else []
  }

  /** The times of the calls that the run admitted. */
  function Admitted(calls: seq<Call>, window: real): seq<real> {
    if calls == [] then []
    else
      var init, last := calls[..|calls| - 1], calls[|calls| - 1];
      Admitted(init, window) + Outcome(Run(init, window), last, window)
  }

  /** The reference limiter, which keeps every admission for ever and counts those in the window. */
  predicate ReferenceAllows(admitted: seq<real>, now: real, window: real, maxCount: int) {
    CountIn(admitted, now - window, now) < maxCount
  }

  // ---------------------------------------------------------------- the stored set refines the history

  function Live(members: set<Member>, cutoff: real): set<Member> {
    set m | m in members && m.at > cutoff
  }

  /** Of the members in the set, those that stay in the window at every later time are as many as the admissions that do. */
  ghost predicate Counts(members: set<Member>, admitted: seq<real>, clock: real, window: real) {
    forall t | t >= clock :: CountsAt(members, admitted, t, window)
  }

  predicate CountsAt(members: set<Member>, admitted: seq<real>, t: real, window: real) {
    |Live(members, t - window)| == CountIn(admitted, t - window, t)
  }

  /** Every member lies in the window at `clock`, outlives its stay there, and those made at `clock` carry small counts. */
  predicate Fresh(s: Stored, clock: real, window: real) {
    forall m | m in s.members ::
      0.0 <= m.at && clock - window < m.at <= clock && m.at + window + 5.0 <= s.expiresAt && (m.at == clock ==> m.count < |s.members|)
  }

  ghost predicate Tracks(s: Stored, admitted: seq<real>, clock: real, window: real) {
    Fresh(s, clock, window) && Counts(s.members, admitted, clock, window)
  }

  /** Expiry removes nothing that pruning would have kept. */
  lemma PrunedIsLive(s: Stored, clock: real, now: real, window: real)
    requires Fresh(s, clock, window) && clock <= now
    ensures Pruned(s, now, window) == Live(s.members, now - window)
  {
  }

  /** At the clock of the last step, or later, the new member is not in the set yet. */
  lemma NewMember(s: Stored, clock: real, now: real, window: real)
    requires Fresh(s, clock, window) && clock <= now
    ensures Member(now, |Pruned(s, now, window)|) !in Pruned(s, now, window)
  {
    PrunedIsLive(s, clock, now, window);
    if now == clock {
      assert Live(s.members, now - window) == s.members;
    }
  }

  lemma KeptCounts(s: Stored, admitted: seq<real>, clock: real, now: real, t: real, window: real)
    requires clock <= now <= t && Tracks(s, admitted, clock, window)
    ensures CountsAt(Pruned(s, now, window), admitted, t, window)
  {
    PrunedIsLive(s, clock, now, window);
    assert CountsAt(s.members, admitted, t, window);
    assert Live(Live(s.members, now - window), t - window) == Live(s.members, t - window);
  }

  lemma AddedCounts(kept: set<Member>, m: Member, admitted: seq<real>, t: real, window: real)
    requires m !in kept && m.at <= t && CountsAt(kept, admitted, t, window)
    ensures CountsAt(kept + {m}, admitted + [m.at], t, window)
  {
    AddedCount(kept, m, t - window);
    assert (admitted + [m.at])[..|admitted|] == admitted;
  }

  lemma AddedCount(kept: set<Member>, m: Member, cutoff: real)
    requires m !in kept
    ensures |Live(kept + {m}, cutoff)| == |Live(kept, cutoff)| + if m.at > cutoff then 1 else 0
  {
    if m.at > cutoff {
      assert Live(kept + {m}, cutoff) == Live(kept, cutoff) + {m};
    } else {
      assert Live(kept + {m}, cutoff) == Live(kept, cutoff);
    }
  }

  lemma StepFresh(s: Stored, clock: real, call: Call, window: real)
    requires window > 0.0 && 0.0 <= call.now && clock <= call.now && Fresh(s, clock, window)
    ensures Fresh(Checked(s, call.now, window, call.maxCount), call.now, window)
  {
    var kept := Pruned(s, call.now, window);
    PrunedIsLive(s, clock, call.now, window);
    NewMember(s, clock, call.now, window);
    if call.now == clock { assert kept == s.members; }
    assert |kept + {Member(call.now, |kept|)}| == |kept| + 1;
  }

  /** One check keeps the set in step with the history. */
  lemma StepTracks(s: Stored, admitted: seq<real>, clock: real, call: Call, window: real)
    requires window > 0.0 && 0.0 <= call.now && clock <= call.now && Tracks(s, admitted, clock, window)
    ensures |Pruned(s, call.now, window)| == CountIn(admitted, call.now - window, call.now)
    ensures Tracks(Checked(s, call.now, window, call.maxCount), admitted + Outcome(s, call, window), call.now, window)
  {
    hide CountsAt, Fresh, Live;
    var now, kept := call.now, Pruned(s, call.now, window);
    StepFresh(s, clock, call, window);
    NewMember(s, clock, now, window);
    CountNow(s, admitted, clock, now, window);
    forall t | t >= now
      ensures CountsAt(Checked(s, now, window, call.maxCount).members, admitted + Outcome(s, call, window), t, window)
    {
      KeptCounts(s, admitted, clock, now, t, window);
      if Allowed(s, now, window, call.maxCount) {
        AddedCounts(kept, Member(now, |kept|), admitted, t, window);
      } else {
        assert admitted + [] == admitted;
      }
    }
  }

  lemma CountNow(s: Stored, admitted: seq<real>, clock: real, now: real, window: real)
    requires clock <= now && Tracks(s, admitted, clock, window)
    ensures |Pruned(s, now, window)| == CountIn(admitted, now - window, now)
  {
    PrunedIsLive(s, clock, now, window);
    assert CountsAt(s.members, admitted, now, window);
  }

  function Clock(calls: seq<Call>): real {
    if calls == [] then 0.0 else calls[|calls| - 1].now
  }

  lemma {:induction false} RunTracks(calls: seq<Call>, window: real)
    requires window > 0.0 && Monotone(calls)
    ensures Tracks(Run(calls, window), Admitted(calls, window), Clock(calls), window)
  {
    if calls == [] {
      forall t | t >= 0.0 ensures CountsAt({}, [], t, window) { assert Live({}, t - window) == {}; }
    } else {
      var init, last := calls[..|calls| - 1], calls[|calls| - 1];
      RunTracks(init, window);
      StepTracks(Run(init, window), Admitted(init, window), Clock(init), last, window);
    }
  }

  lemma MonotonePrefix(calls: seq<Call>, next: Call)
    requires Monotone(calls + [next])
    ensures Monotone(calls) && 0.0 <= next.now && Clock(calls) <= next.now
  {
    var all := calls + [next];
    assert all[|calls|] == next && forall i :: 0 <= i < |calls| ==> all[i] == calls[i];
  }

  /** The pruned and expiring set decides every call as the reference limiter with its full history would. */
  lemma LimiterRefinesReference(calls: seq<Call>, next: Call, window: real)
    requires window > 0.0 && Monotone(calls + [next])
    ensures Allowed(Run(calls, window), next.now, window, next.maxCount)
            == ReferenceAllows(Admitted(calls, window), next.now, window, next.maxCount)
  {
    hide Run, Admitted, Pruned, CountIn, Tracks, Monotone;
    MonotonePrefix(calls, next);
    RunTracks(calls, window);
    CountNow(Run(calls, window), Admitted(calls, window), Clock(calls), next.now, window);
  }

  /** zadd always adds: no member is ever written twice. */
  lemma MembersNeverCollide(calls: seq<Call>, next: Call, window: real)
    requires window > 0.0 && Monotone(calls + [next])
    ensures var kept := Pruned(Run(calls, window), next.now, window); Member(next.now, |kept|) !in kept
  {
    MonotonePrefix(calls, next);
    RunTracks(calls, window);
    NewMember(Run(calls, window), Clock(calls), next.now, window);
  }

  lemma {:induction false} CountMono(times: seq<real>, lo: real, hi: real, lo': real, hi': real)
    requires lo' <= lo && forall i :: 0 <= i < |times| ==> times[i] <= hi'
    ensures CountIn(times, lo, hi) <= CountIn(times, lo', hi')
  {
    if times != [] {
      CountMono(times[..|times| - 1], lo, hi, lo', hi');
    }
  }

  lemma {:induction false} AdmittedBefore(calls: seq<Call>, window: real)
    requires Monotone(calls)
    ensures forall i :: 0 <= i < |Admitted(calls, window)| ==> Admitted(calls, window)[i] <= Clock(calls)
  {
    if calls != [] {
      AdmittedBefore(calls[..|calls| - 1], window);
    }
  }

  /** In every interval (t - window, t] at most `limit` calls are admitted, if no call is made with a larger limit. */
  lemma {:induction false} WindowGuarantee(calls: seq<Call>, window: real, limit: nat, t: real)
    requires window > 0.0 && Monotone(calls) && forall i :: 0 <= i < |calls| ==> calls[i].maxCount <= limit
    ensures CountIn(Admitted(calls, window), t - window, t) <= limit
  {
    hide Run, Admitted, Pruned, Tracks, Allowed;
    if calls == [] {
      AdmittedNothing(window);
    } else {
      var init, last := calls[..|calls| - 1], calls[|calls| - 1];
      WindowGuarantee(init, window, limit, t);
      assert calls == init + [last];
      AdmittedStep(init, last, window);
      if Allowed(Run(init, window), last.now, window, last.maxCount) {
        LimiterRefinesReference(init, last, window);
        AdmittedBefore(init, window);
        MonotonePrefix(init, last);
        OneMore(Admitted(init, window), last.now, window, limit, t);
      }
    }
  }

  lemma AdmittedNothing(window: real)
    ensures Admitted([], window) == []
  {
  }

  lemma AdmittedStep(init: seq<Call>, last: Call, window: real)
    ensures Admitted(init + [last], window)
            == if Allowed(Run(init, window), last.now, window, last.maxCount) then Admitted(init, window) + [last.now] else Admitted(init, window)
  {
    assert (init + [last])[..|init|] == init;
  }

  lemma OneMore(times: seq<real>, now: real, window: real, limit: nat, t: real)
    requires forall i :: 0 <= i < |times| ==> times[i] <= now
    requires CountIn(times, now - window, now) < limit && CountIn(times, t - window, t) <= limit
    ensures CountIn(times + [now], t - window, t) <= limit
  {
    assert (times + [now])[..|times|] == times;
    if t - window < now <= t {
      CountMono(times, t - window, t, now - window, now);
    }
  }

  // ---------------------------------------------------------------- the remaining count

  /** The calls, and then the same call k times. */
  function Repeated(calls: seq<Call>, call: Call, k: nat): seq<Call> {
    if k == 0 then calls else Repeated(calls, call, k - 1) + [call]
  }

  lemma AppendMonotone(calls: seq<Call>, call: Call)
    requires Monotone(calls + [call])
    ensures Monotone(calls + [call] + [call])
  {
    var one, two := calls + [call], calls + [call] + [call];
    assert forall i :: 0 <= i < |one| ==> two[i] == one[i];
    assert two[|one|] == call && one[|calls|] == call;
  }

  lemma CountOneMore(times: seq<real>, now: real, window: real)
    requires window > 0.0
    ensures CountIn(times + [now], now - window, now) == CountIn(times, now - window, now) + 1
  {
    assert (times + [now])[..|times|] == times;
  }

  /** Each repetition at one moment is admitted until the limit is reached. */
  lemma {:induction false} RepeatedCount(calls: seq<Call>, call: Call, k: nat, window: real)
    requires window > 0.0 && Monotone(calls + [call])
    ensures Monotone(Repeated(calls, call, k) + [call])
    ensures var c := CountIn(Admitted(calls, window), call.now - window, call.now);
      CountIn(Admitted(Repeated(calls, call, k), window), call.now - window, call.now)
      == if c >= call.maxCount then c else if c + k <= call.maxCount then c + k else call.maxCount
  {
    hide Monotone, Run, Admitted, CountIn, Allowed;
    if k > 0 {
      var before := Repeated(calls, call, k - 1);
      RepeatedCount(calls, call, k - 1, window);
      AppendMonotone(before, call);
      LimiterRefinesReference(before, call, window);
      AdmittedStep(before, call, window);
      CountOneMore(Admitted(before, window), call.now, window);
    }
  }

  /** The remaining count that an admitted call reports is how many more calls like it are admitted at the same moment, and no more. */
  lemma RemainingIsExact(calls: seq<Call>, call: Call, window: real, k: nat)
    requires window > 0.0 && Monotone(calls + [call]) && Allowed(Run(calls, window), call.now, window, call.maxCount)
    ensures var remaining := call.maxCount - |Pruned(Run(calls, window), call.now, window)| - 1;
      Allowed(Run(Repeated(calls, call, k + 1), window), call.now, window, call.maxCount) <==> k < remaining
  {
    hide Monotone, Run, Admitted, CountIn, Pruned, Tracks;
    RepeatedCount(calls, call, k + 1, window);
    LimiterRefinesReference(Repeated(calls, call, k + 1), call, window);
    LimiterRefinesReference(calls, call, window);
    MonotonePrefix(calls, call);
    RunTracks(calls, window);
    CountNow(Run(calls, window), Admitted(calls, window), Clock(calls), call.now, window);
  }
}
