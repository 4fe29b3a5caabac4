/** Request/response correlation of StdioProcess in mcp-gateway/stdio_proxy.py. */
module StdioCorrelation {
  import opened Common

  /** A JSON line from the subprocess: its id, if it has one, and the rest of it. */
  datatype Line = Line(id: Option<int>, payload: string)

  datatype Reason = ExitedUnexpectedly | Stopped

  datatype Future = Unresolved | Resolved(line: Line) | Failed(reason: Reason) | Cancelled

  /** What send_request returns; every reply but a write error carries the caller's own id. */
  datatype Reply =
    | Response(id: string, payload: string)
    | WriteError
    | TimedOut(id: string)
    | StdioError(id: string, reason: Reason)
    | Abandoned

  datatype Phase = Writing | Waiting | TimingOut | Done(reply: Reply)

  /** One send_request in progress. Its future is the one with the same number. */
  datatype Call = Call(originalId: string, internalId: nat, phase: Phase)

  /**
   * The object's fields, the futures it has created and the calls it has served. `readers` counts the
   * read loops that have not ended: a restart can leave an old one behind.
   */
  datatype Proc = Proc(
    nextId: nat,
    pending: map<nat, nat>,
    futures: seq<Future>,
    calls: seq<Call>,
    hasProcess: bool,
    running: bool,
    readers: nat,
    initialized: bool)

  datatype Step =
    | Start | StartFailed | ProcessDies
    | Begin(originalId: string) | Written(call: nat) | WriteFails(call: nat)
    | Receive(line: Line) | ReaderExits | StopEnds
    | TimeoutCancels(call: nat) | TimeoutReturns(call: nat) | Wakes(call: nat) | Abandons(call: nat)
    | Initialized

  predicate InPhase(s: Proc, c: nat, phase: Phase) {
    c < |s.calls| && |s.futures| == |s.calls| && s.calls[c].phase == phase
  }

  predicate Enabled(s: Proc, step: Step) {
    match step
    case Start => true
    case StartFailed => true
    case ProcessDies => true
    case Begin(_) => s.hasProcess && |s.futures| == |s.calls|
    case Written(c) => InPhase(s, c, Writing)
    case WriteFails(c) => InPhase(s, c, Writing)
    case Receive(_) => s.readers > 0 && forall id | id in s.pending :: s.pending[id] < |s.futures|
    case ReaderExits => s.readers > 0
    case StopEnds => true
    case TimeoutCancels(c) => InPhase(s, c, Waiting) && s.futures[c] == Unresolved
    case TimeoutReturns(c) => InPhase(s, c, TimingOut)
    case Wakes(c) => InPhase(s, c, Waiting) && (s.futures[c].Resolved? || s.futures[c].Failed?)
    case Abandons(c) => InPhase(s, c, Waiting) || InPhase(s, c, Writing)
    case Initialized => true
  }

  /** Every pending future that is not done fails. */
  function FailPending(s: Proc, reason: Reason): seq<Future> {
    seq(|s.futures|, f requires 0 <= f < |s.futures| =>
      if s.futures[f] == Unresolved && f in s.pending.Values then Failed(reason) else s.futures[f])
  }

  function WithPhase(s: Proc, c: nat, phase: Phase): seq<Call>
    requires c < |s.calls|
  {
    s.calls[c := s.calls[c].(phase := phase)]
  }

  function Next(s: Proc, step: Step): Proc
    requires Enabled(s, step)
  {
    match step
    case Start => s.(hasProcess := true, running := true, readers := s.readers + 1, initialized := false)
    case StartFailed => s.(hasProcess := false, running := false)
    case ProcessDies => s.(running := false)
    case Begin(originalId) =>
      s.(nextId := s.nextId + 1,
         pending := s.pending[s.nextId := |s.futures|],
         futures := s.futures + [Unresolved],
         calls := s.calls + [Call(originalId, s.nextId, Writing)])
    case Written(c) => s.(calls := WithPhase(s, c, Waiting))
    case WriteFails(c) => s.(pending := s.pending - {s.calls[c].internalId}, calls := WithPhase(s, c, Done(WriteError)))
    case Receive(line) =>
      if line.id.Some? && line.id.value >= 0 && line.id.value in s.pending then
        var f := s.pending[line.id.value];
        s.(pending := s.pending - {line.id.value},
           futures := if s.futures[f] == Unresolved then s.futures[f := Resolved(line)] else s.futures)
      else s
    case ReaderExits =>
      s.(readers := s.readers - 1, futures := FailPending(s, ExitedUnexpectedly), pending := map[], initialized := false)
    case StopEnds =>
      s.(futures := FailPending(s, Stopped), pending := map[], hasProcess := false, running := false, initialized := false)
    case TimeoutCancels(c) => s.(futures := s.futures[c := Cancelled], calls := WithPhase(s, c, TimingOut))
    case TimeoutReturns(c) =>
      s.(pending := s.pending - {s.calls[c].internalId}, calls := WithPhase(s, c, Done(TimedOut(s.calls[c].originalId))))
    case Wakes(c) =>
      (match s.futures[c]
       case Resolved(line) => s.(calls := WithPhase(s, c, Done(Response(s.calls[c].originalId, line.payload))))
       case Failed(reason) =>
         s.(pending := s.pending - {s.calls[c].internalId},
            calls := WithPhase(s, c, Done(StdioError(s.calls[c].originalId, reason)))))
    case Abandons(c) =>
      s.(futures := if s.futures[c] == Unresolved then s.futures[c := Cancelled] else s.futures,
         calls := WithPhase(s, c, Done(Abandoned)))
    case Initialized => s.(initialized := true)
  }

  /** A new StdioProcess. */
  const FRESH := Proc(1, map[], [], [], false, false, 0, false)

  // ---------------------------------------------------------------- the program

  class StdioProcess {
    var nextId: nat
    var pending: map<nat, nat>
    var futures: seq<Future>
    var calls: seq<Call>
    var hasProcess: bool
    var running: bool
    var readers: nat
    var initialized: bool

    function State(): Proc
      reads this
    {
      Proc(nextId, pending, futures, calls, hasProcess, running, readers, initialized)
    }

    constructor ()
      ensures State() == FRESH
    {
      nextId, pending, futures, calls := 1, map[], [], [];
      hasProcess, running, readers, initialized := false, false, 0, false;
    }

    /**
     * The rest of start() once the subprocess was spawned, or not: another start() may have finished in the meantime,
     * since the check for a running process comes before the spawn is awaited.
     */
    method FinishStart(spawned: bool)
      modifies this
      ensures State() == Next(old(State()), if spawned then Start else StartFailed)
    {
      if spawned {
        hasProcess, running, readers, initialized := true, true, readers + 1, false;
      } else {
        hasProcess, running := false, false;
      }
    }

    /** start() with nobody in between; `spawned` tells whether the subprocess could be created. */
    method StartProcess(spawned: bool) returns (ok: bool)
      modifies this
      ensures old(hasProcess && running) ==> ok && State() == old(State())
      ensures !old(hasProcess && running) ==> ok == spawned && State() == Next(old(State()), if spawned then Start else StartFailed)
    {
      if hasProcess && running {
        return true;
      }
      FinishStart(spawned);
      return spawned;
    }

    /** send_request up to the write: a fresh id, a future, and its entry in the table. */
    method BeginRequest(originalId: string) returns (c: nat)
      requires Enabled(State(), Begin(originalId))
      modifies this
      ensures State() == Next(old(State()), Begin(originalId)) && c == |calls| - 1
    {
      var internalId := nextId;
      nextId := nextId + 1;
      c := |futures|;
      pending := pending[internalId := c];
      futures := futures + [Unresolved];
      calls := calls + [Call(originalId, internalId, Writing)];
    }

    method AfterWrite(c: nat, ok: bool)
      requires InPhase(State(), c, Writing)
      modifies this
      ensures State() == Next(old(State()), if ok then Written(c) else WriteFails(c))
    {
      if ok {
        calls := calls[c := calls[c].(phase := Waiting)];
      } else {
        pending := pending - {calls[c].internalId};
        calls := calls[c := calls[c].(phase := Done(WriteError))];
      }
    }

    /** One turn of the read loop. */
    method OnLine(line: Line)
      requires Enabled(State(), Receive(line))
      modifies this
      ensures State() == Next(old(State()), Receive(line))
    {
      if line.id.Some? && line.id.value >= 0 && line.id.value in pending {
        var f := pending[line.id.value];
        pending := pending - {line.id.value};
        if futures[f] == Unresolved {
          futures := futures[f := Resolved(line)];
        }
      }
    }

    /** The loop over the pending futures that read loop and stop() share. */
    method FailAll(reason: Reason)
      requires forall id :: id in pending ==> pending[id] < |futures|
      modifies this`futures
      ensures futures == FailPending(old(State()), reason)
    {
      var todo := pending.Keys;
      ghost var s := State();
      while todo != {}
        invariant todo <= pending.Keys && |futures| == |s.futures|
        invariant forall f :: 0 <= f < |futures| ==>
          futures[f] == if s.futures[f] == Unresolved && exists id :: id in pending.Keys - todo && pending[id] == f
                        then Failed(reason) else s.futures[f]
        decreases todo
      {
        var id :| id in todo;
        var f := pending[id];
        if futures[f] == Unresolved {
          futures := futures[f := Failed(reason)];
        }
        todo := todo - {id};
      }
    }

    /** The `finally` of the read loop. */
    method OnReaderExit()
      requires readers > 0 && forall id :: id in pending ==> pending[id] < |futures|
      modifies this
      ensures State() == Next(old(State()), ReaderExits)
    {
      FailAll(ExitedUnexpectedly);
      pending := map[];
      initialized := false;
      readers := readers - 1;
    }

    /** The end of stop(), after the reader was cancelled and the process waited for. */
    method FinishStop()
      requires forall id :: id in pending ==> pending[id] < |futures|
      modifies this
      ensures State() == Next(old(State()), StopEnds)
    {
      FailAll(Stopped);
      pending := map[];
      hasProcess, running, initialized := false, false, false;
    }

    /** wait_for gives up on a future that is not done, and then send_request answers. */
    method CancelOnTimeout(c: nat)
      requires Enabled(State(), TimeoutCancels(c))
      modifies this
      ensures State() == Next(old(State()), TimeoutCancels(c))
    {
      futures := futures[c := Cancelled];
      calls := calls[c := calls[c].(phase := TimingOut)];
    }

    method ReturnTimeout(c: nat) returns (reply: Reply)
      requires Enabled(State(), TimeoutReturns(c))
      modifies this
      ensures State() == Next(old(State()), TimeoutReturns(c)) && calls[c].phase == Done(reply)
    {
      reply := TimedOut(calls[c].originalId);
      pending := pending - {calls[c].internalId};
      calls := calls[c := calls[c].(phase := Done(reply))];
    }

    /** send_request continues with a future that is done. */
    method ReturnResult(c: nat) returns (reply: Reply)
      requires Enabled(State(), Wakes(c))
      modifies this
      ensures State() == Next(old(State()), Wakes(c)) && calls[c].phase == Done(reply)
    {
      if futures[c].Resolved? {
        reply := Response(calls[c].originalId, futures[c].line.payload);
      } else {
        reply := StdioError(calls[c].originalId, futures[c].reason);
        pending := pending - {calls[c].internalId};
      }
      calls := calls[c := calls[c].(phase := Done(reply))];
    }
  }

  // ---------------------------------------------------------------- all runs

  ghost predicate IsRun(states: seq<Proc>, steps: seq<Step>) {
    && |states| == |steps| + 1
    && states[0] == FRESH
    && forall i | 0 <= i < |steps| :: Enabled(states[i], steps[i]) && states[i + 1] == Next(states[i], steps[i])
  }

  /** A call that still waits for its future. */
  predicate Expecting(s: Proc, c: nat) {
    c < |s.calls| && |s.futures| == |s.calls| && (s.calls[c].phase == Writing || s.calls[c].phase == Waiting) && s.futures[c] == Unresolved
  }

  /** Ids grow from call to call and stay below the next one. */
  predicate IdsFresh(s: Proc) {
    && |s.futures| == |s.calls|
    && (forall c | 0 <= c < |s.calls| :: s.calls[c].internalId < s.nextId)
    && (forall c, d | 0 <= c < d < |s.calls| :: s.calls[c].internalId < s.calls[d].internalId)
  }

  /** The table sends an id to the future of the call that was given the id, and has every expecting call. */
  predicate TableExact(s: Proc) {
    && |s.futures| == |s.calls|
    && (forall id | id in s.pending :: s.pending[id] < |s.calls| && s.calls[s.pending[id]].internalId == id)
    && (forall c | 0 <= c < |s.calls| :: Expecting(s, c) ==> s.calls[c].internalId in s.pending)
  }

  /** A future holds only a line with its call's id, and a call answers only with what its future holds and its caller's id. */
  predicate RepliesRight(s: Proc) {
    && |s.futures| == |s.calls|
    && (forall c | 0 <= c < |s.calls| :: s.futures[c].Resolved? ==> s.futures[c].line.id == Some(s.calls[c].internalId))
    && (forall c | 0 <= c < |s.calls| :: s.calls[c].phase.Done? ==> ReplyRight(s.calls[c], s.futures[c]))
    && (forall c | 0 <= c < |s.calls| :: s.calls[c].phase == TimingOut ==> s.futures[c] == Cancelled)
  }

  predicate ReplyRight(call: Call, future: Future)
    requires call.phase.Done?
  {
    match call.phase.reply
    case Response(id, payload) => id == call.originalId && future == Resolved(Line(Some(call.internalId), payload))
    case TimedOut(id) => id == call.originalId && future == Cancelled
    case StdioError(id, reason) => id == call.originalId && future == Failed(reason)
    case _ => true
  }

  ghost predicate Consistent(s: Proc) {
    IdsFresh(s) && TableExact(s) && RepliesRight(s)
  }

  /** A call never loses its ids, and an answered call never changes again. */
  lemma NextKeepsCalls(s: Proc, step: Step, c: nat)
    requires Enabled(s, step) && c < |s.calls|
    ensures var t := Next(s, step);
            c < |t.calls| && t.calls[c].originalId == s.calls[c].originalId && t.calls[c].internalId == s.calls[c].internalId
            && (s.calls[c].phase.Done? ==> t.calls[c] == s.calls[c])
  {
  }

  lemma NextShape(s: Proc, step: Step)
    requires Enabled(s, step)
    ensures var t, n := Next(s, step), if step.Begin? then 1 else 0;
            |t.calls| == |s.calls| + n && |t.futures| == |s.futures| + n && t.nextId == s.nextId + n
    ensures step.Begin? ==> Next(s, step).calls[|s.calls|].internalId == s.nextId
  {
  }

  lemma NextIdsFresh(s: Proc, step: Step)
    requires Enabled(s, step) && IdsFresh(s)
    ensures IdsFresh(Next(s, step)) && Next(s, step).nextId >= s.nextId
  {
    hide Next, Enabled;
    var t := Next(s, step);
    NextShape(s, step);
    forall c | 0 <= c < |s.calls| ensures t.calls[c].internalId == s.calls[c].internalId {
      NextKeepsCalls(s, step, c);
    }
  }

  lemma SameId(s: Proc, c: nat, d: nat)
    requires IdsFresh(s) && c < |s.calls| && d < |s.calls| && s.calls[c].internalId == s.calls[d].internalId
    ensures c == d
  {
  }

  /** An expecting call's own number stands in the table under its id. */
  lemma OwnEntry(s: Proc, c: nat)
    requires IdsFresh(s) && TableExact(s) && Expecting(s, c)
    ensures s.calls[c].internalId in s.pending && s.pending[s.calls[c].internalId] == c
  {
    SameId(s, s.pending[s.calls[c].internalId], c);
  }

  /** Failing the pending futures leaves no call expecting. */
  lemma FailPendingFailsAll(s: Proc, reason: Reason)
    requires IdsFresh(s) && TableExact(s)
    ensures forall c :: 0 <= c < |s.calls| && Expecting(s, c) ==> FailPending(s, reason)[c] == Failed(reason)
    ensures forall c :: 0 <= c < |s.calls| && !Expecting(s, c) && (s.calls[c].phase == Writing || s.calls[c].phase == Waiting) ==> FailPending(s, reason)[c] != Unresolved
  {
    forall c | 0 <= c < |s.calls| && Expecting(s, c) ensures FailPending(s, reason)[c] == Failed(reason) {
      OwnEntry(s, c);
    }
  }

  lemma ClearingSteps(s: Proc, step: Step)
    requires Enabled(s, step) && IdsFresh(s) && TableExact(s) && (step.ReaderExits? || step.StopEnds?)
    ensures TableExact(Next(s, step)) && forall c :: 0 <= c < |s.calls| ==> !Expecting(Next(s, step), c)
  {
    FailPendingFailsAll(s, if step.ReaderExits? then ExitedUnexpectedly else Stopped);
  }

  lemma BeginStep(s: Proc, step: Step)
    requires Enabled(s, step) && IdsFresh(s) && TableExact(s) && step.Begin?
    ensures TableExact(Next(s, step))
  {
    var t := Next(s, step);
    forall c | 0 <= c < |t.calls| && Expecting(t, c) ensures t.calls[c].internalId in t.pending {
      if c < |s.calls| { assert Expecting(s, c); }
    }
  }

  lemma ReceiveStep(s: Proc, step: Step)
    requires Enabled(s, step) && IdsFresh(s) && TableExact(s) && step.Receive?
    ensures TableExact(Next(s, step))
  {
    var t := Next(s, step);
    forall c | 0 <= c < |t.calls| && Expecting(t, c) ensures t.calls[c].internalId in t.pending {
      assert Expecting(s, c);
      OwnEntry(s, c);
    }
  }

  /** Steps in which call c leaves, or moves on, and no other call changes. */
  predicate Concerns(step: Step, c: nat) {
    match step
    case Written(d) => c == d
    case WriteFails(d) => c == d
    case TimeoutCancels(d) => c == d
    case TimeoutReturns(d) => c == d
    case Wakes(d) => c == d
    case Abandons(d) => c == d
    case _ => false
  }

  lemma CallStep(s: Proc, step: Step, c: nat)
    requires Enabled(s, step) && IdsFresh(s) && TableExact(s) && Concerns(step, c)
    ensures TableExact(Next(s, step))
  {
    var t := Next(s, step);
    forall d | 0 <= d < |t.calls| && Expecting(t, d) ensures t.calls[d].internalId in t.pending {
      assert Expecting(s, d);
      if d != c && s.calls[d].internalId == s.calls[c].internalId { SameId(s, c, d); }
    }
  }

  lemma NextTableExact(s: Proc, step: Step)
    requires Enabled(s, step) && IdsFresh(s) && TableExact(s)
    ensures TableExact(Next(s, step))
  {
    hide IdsFresh, TableExact, Next, Enabled;
    match step
    case Begin(_) => BeginStep(s, step);
    case Receive(_) => ReceiveStep(s, step);
    case ReaderExits => ClearingSteps(s, step);
    case StopEnds => ClearingSteps(s, step);
    case Written(c) => CallStep(s, step, c);
    case WriteFails(c) => CallStep(s, step, c);
    case TimeoutCancels(c) => CallStep(s, step, c);
    case TimeoutReturns(c) => CallStep(s, step, c);
    case Wakes(c) => CallStep(s, step, c);
    case Abandons(c) => CallStep(s, step, c);
    case _ => ProcessStep(s, step);
  }

  lemma ProcessStep(s: Proc, step: Step)
    requires Enabled(s, step) && (step.Start? || step.StartFailed? || step.ProcessDies? || step.Initialized?)
    ensures TableExact(s) ==> TableExact(Next(s, step))
    ensures RepliesRight(s) ==> RepliesRight(Next(s, step))
  {
    var t := Next(s, step);
    assert forall c :: 0 <= c < |s.calls| ==> Expecting(t, c) == Expecting(s, c);
  }

  /** A future that is done never changes again. */
  lemma NextKeepsFutures(s: Proc, step: Step, f: nat)
    requires Enabled(s, step) && IdsFresh(s) && f < |s.futures|
    ensures var t := Next(s, step); f < |t.futures| && (s.futures[f] != Unresolved ==> t.futures[f] == s.futures[f])
  {
  }

  predicate LineRight(call: Call, future: Future) {
    future.Resolved? ==> future.line.id == Some(call.internalId)
  }

  /** A future changes at most once, and becomes a line's only when the table sends that line's id to it. */
  lemma FutureStep(s: Proc, step: Step, f: nat)
    requires Enabled(s, step) && f < |s.futures|
    ensures var t := Next(s, step); f < |t.futures|
    ensures var now := Next(s, step).futures[f];
      || now == s.futures[f] || now.Failed? || now == Cancelled
      || (step.Receive? && now == Resolved(step.line) && step.line.id.Some? && step.line.id.value >= 0
          && step.line.id.value in s.pending && s.pending[step.line.id.value] == f)
  {
  }

  lemma NextLineRight(s: Proc, step: Step, c: nat)
    requires Enabled(s, step) && Consistent(s) && c < |Next(s, step).calls| == |Next(s, step).futures|
    ensures LineRight(Next(s, step).calls[c], Next(s, step).futures[c])
  {
    hide Next, Enabled, ReplyRight;
    NextShape(s, step);
    if c < |s.calls| {
      FutureStep(s, step, c);
      NextKeepsCalls(s, step, c);
    } else {
      NewFuture(s, step);
    }
  }

  lemma NewFuture(s: Proc, step: Step)
    requires Enabled(s, step) && step.Begin?
    ensures Next(s, step).futures == s.futures + [Unresolved]
  {
  }

  predicate CallRight(call: Call, future: Future) {
    (call.phase.Done? ==> ReplyRight(call, future)) && (call.phase == TimingOut ==> future == Cancelled)
  }

  /** A call that moves on moves to a right state. */
  lemma PhaseStep(s: Proc, step: Step, c: nat)
    requires Enabled(s, step) && c < |s.calls| == |s.futures|
    requires LineRight(s.calls[c], s.futures[c]) && CallRight(s.calls[c], s.futures[c])
    ensures c < |Next(s, step).calls| && c < |Next(s, step).futures|
    ensures Next(s, step).calls[c].phase != s.calls[c].phase ==> CallRight(Next(s, step).calls[c], Next(s, step).futures[c])
  {
    NextShape(s, step);
  }

  lemma NextCallRight(s: Proc, step: Step, c: nat)
    requires Enabled(s, step) && Consistent(s) && c < |Next(s, step).calls| == |Next(s, step).futures|
    ensures CallRight(Next(s, step).calls[c], Next(s, step).futures[c])
  {
    hide Next, Enabled, TableExact;
    NextShape(s, step);
    if c < |s.calls| {
      PhaseStep(s, step, c);
      NextKeepsFutures(s, step, c);
      NextKeepsCalls(s, step, c);
    } else {
      NewCall(s, step);
    }
  }

  lemma NewCall(s: Proc, step: Step)
    requires Enabled(s, step) && step.Begin?
    ensures Next(s, step).calls == s.calls + [Call(step.originalId, s.nextId, Writing)]
  {
  }

  lemma NextConsistent(s: Proc, step: Step)
    requires Enabled(s, step) && Consistent(s)
    ensures Consistent(Next(s, step))
  {
    hide IdsFresh, TableExact, Next, Enabled;
    var t := Next(s, step);
    NextIdsFresh(s, step);
    NextTableExact(s, step);
    SameLengths(t);
    forall c | 0 <= c < |t.calls| ensures LineRight(t.calls[c], t.futures[c]) && CallRight(t.calls[c], t.futures[c]) {
      NextLineRight(s, step, c);
      NextCallRight(s, step, c);
    }
  }

  lemma SameLengths(s: Proc)
    requires IdsFresh(s)
    ensures |s.futures| == |s.calls|
  {
  }

  lemma {:induction false} RunConsistent(states: seq<Proc>, steps: seq<Step>, i: nat)
    requires IsRun(states, steps) && i < |states|
    ensures Consistent(states[i])
  {
    if i > 0 {
      RunConsistent(states, steps, i - 1);
      RunStep(states, steps, i - 1);
      NextConsistent(states[i - 1], steps[i - 1]);
    }
  }

  lemma RunStep(states: seq<Proc>, steps: seq<Step>, i: nat)
    requires IsRun(states, steps) && i < |steps|
    ensures Enabled(states[i], steps[i]) && states[i + 1] == Next(states[i], steps[i])
  {
  }

  /**
   * Nothing gets stuck: a live reader can always take the next line or exit, a start or stop can always end, send_request can
   * begin while there is a process, and a call in each phase can go on as that phase does.
   */
  lemma AlwaysReady(states: seq<Proc>, steps: seq<Step>, i: nat, line: Line, originalId: string)
    requires IsRun(states, steps) && i < |states|
    ensures Enabled(states[i], Receive(line)) == Enabled(states[i], ReaderExits) == (states[i].readers > 0)
    ensures Enabled(states[i], Begin(originalId)) == states[i].hasProcess
    ensures forall step :: step in {Start, StartFailed, StopEnds, ProcessDies, Initialized} ==> Enabled(states[i], step)
    ensures forall c :: 0 <= c < |states[i].calls| ==> GoesOn(states[i], c)
  {
    RunConsistent(states, steps, i);
  }

  /** A call that is not answered can take the steps of its phase, and an answered one none. */
  predicate GoesOn(s: Proc, c: nat)
    requires c < |s.calls|
  {
    && |s.futures| == |s.calls|
    && match s.calls[c].phase
       case Writing => Enabled(s, Written(c)) && Enabled(s, WriteFails(c)) && Enabled(s, Abandons(c)) && !Enabled(s, Wakes(c))
       case Waiting =>
         && Enabled(s, Abandons(c)) && Enabled(s, TimeoutCancels(c)) == (s.futures[c] == Unresolved)
         && Enabled(s, Wakes(c)) == (s.futures[c].Resolved? || s.futures[c].Failed?)
       case TimingOut => Enabled(s, TimeoutReturns(c)) && !Enabled(s, Wakes(c)) && !Enabled(s, Abandons(c))
       case Done(_) => !Enabled(s, Wakes(c)) && !Enabled(s, TimeoutReturns(c)) && !Enabled(s, WriteFails(c)) && !Enabled(s, Abandons(c))
  }

  /** Internal ids are never reused, across restarts as well: two calls, whenever they were made, have different ids. */
  lemma IdsNeverReused(states: seq<Proc>, steps: seq<Step>, i: nat, c: nat, d: nat)
    requires IsRun(states, steps) && i < |states| && c < |states[i].calls| && d < |states[i].calls| && c != d
    ensures states[i].calls[c].internalId != states[i].calls[d].internalId
    ensures states[i].calls[c].internalId < states[i].nextId
  {
    RunConsistent(states, steps, i);
  }

  /** Between two moments of a run a future that is done stays as it is, and so do a call's ids and its answer. */
  lemma {:induction false} CompletedAtMostOnce(states: seq<Proc>, steps: seq<Step>, i: nat, j: nat, c: nat)
    requires IsRun(states, steps) && i <= j < |states| && c < |states[i].calls|
    ensures |states[i].futures| == |states[i].calls| && |states[j].futures| == |states[j].calls| && c < |states[j].calls|
    ensures states[i].futures[c] != Unresolved ==> states[j].futures[c] == states[i].futures[c]
    ensures states[j].calls[c].internalId == states[i].calls[c].internalId
    ensures states[i].calls[c].phase.Done? ==> states[j].calls[c] == states[i].calls[c]
    decreases j - i
  {
    hide Next, Enabled, TableExact, RepliesRight;
    RunConsistent(states, steps, i);
    RunConsistent(states, steps, j);
    if i < j {
      CompletedAtMostOnce(states, steps, i, j - 1, c);
      RunConsistent(states, steps, j - 1);
      RunStep(states, steps, j - 1);
      NextKeepsFutures(states[j - 1], steps[j - 1], c);
      NextKeepsCalls(states[j - 1], steps[j - 1], c);
    }
  }

  /** A response that reaches a caller is the line that carried the call's internal id, under the caller's own id. */
  lemma ResponsesReachTheirCallers(states: seq<Proc>, steps: seq<Step>, i: nat, c: nat)
    requires IsRun(states, steps) && i < |states| && c < |states[i].calls| && states[i].calls[c].phase.Done?
    requires states[i].calls[c].phase.reply.Response?
    ensures states[i].calls[c].phase.reply.id == states[i].calls[c].originalId
    ensures |states[i].futures| == |states[i].calls|
    ensures states[i].futures[c] == Resolved(Line(Some(states[i].calls[c].internalId), states[i].calls[c].phase.reply.payload))
  {
    RunConsistent(states, steps, i);
  }

  /** A line completes exactly the future of the expecting call whose id it carries. */
  lemma LineCompletesItsCall(states: seq<Proc>, steps: seq<Step>, i: nat, c: nat)
    requires IsRun(states, steps) && i < |steps| && steps[i].Receive? && Expecting(states[i], c)
    requires steps[i].line.id == Some(states[i].calls[c].internalId)
    ensures states[i + 1].futures == states[i].futures[c := Resolved(steps[i].line)]
  {
    RunConsistent(states, steps, i);
    RunStep(states, steps, i);
    OwnEntry(states[i], c);
  }

  /** A line with any other id, or none, completes no expecting call. */
  lemma OtherLinesCompleteNothing(states: seq<Proc>, steps: seq<Step>, i: nat, c: nat)
    requires IsRun(states, steps) && i < |steps| && steps[i].Receive? && Expecting(states[i], c)
    requires steps[i].line.id != Some(states[i].calls[c].internalId)
    ensures Expecting(states[i + 1], c)
  {
    RunConsistent(states, steps, i);
    RunStep(states, steps, i);
  }

  /** Every call that still waits is in the table, under its own id. */
  lemma WaitersArePending(states: seq<Proc>, steps: seq<Step>, i: nat, c: nat)
    requires IsRun(states, steps) && i < |states| && Expecting(states[i], c)
    ensures states[i].calls[c].internalId in states[i].pending && states[i].pending[states[i].calls[c].internalId] == c
  {
    RunConsistent(states, steps, i);
    OwnEntry(states[i], c);
  }

  /** The end of a reader and the end of stop() fail every future that is waited for, each with its reason, and leave nobody waiting. */
  lemma NobodyIsLeftWaiting(states: seq<Proc>, steps: seq<Step>, i: nat, c: nat)
    requires IsRun(states, steps) && i < |steps| && (steps[i].ReaderExits? || steps[i].StopEnds?)
    ensures !Expecting(states[i + 1], c)
    ensures Expecting(states[i], c) ==> c < |states[i + 1].futures|
    ensures Expecting(states[i], c) ==> states[i + 1].futures[c] == Failed(if steps[i].ReaderExits? then ExitedUnexpectedly else Stopped)
  {
    RunConsistent(states, steps, i);
    RunStep(states, steps, i);
    ClearingSteps(states[i], steps[i]);
    FailPendingFailsAll(states[i], if steps[i].ReaderExits? then ExitedUnexpectedly else Stopped);
  }

  // ---------------------------------------------------------------- how each call is answered

  /** The step answers call c with this reply. */
  predicate Answers(s: Proc, step: Step, c: nat, reply: Reply) {
    && c < |s.calls| && |s.futures| == |s.calls|
    && match step
       case WriteFails(d) => d == c && reply == WriteError
       case Abandons(d) => d == c && reply == Abandoned
       case TimeoutReturns(d) => d == c && reply == TimedOut(s.calls[c].originalId)
       case Wakes(d) => d == c &&
         (match s.futures[c]
          case Resolved(line) => reply == Response(s.calls[c].originalId, line.payload)
          case Failed(reason) => reply == StdioError(s.calls[c].originalId, reason)
          case _ => false)
       case _ => false
  }

  lemma StepAnswers(s: Proc, step: Step, c: nat, reply: Reply)
    requires Enabled(s, step) && IdsFresh(s) && c < |s.calls|
    ensures c < |Next(s, step).calls|
    ensures Next(s, step).calls[c].phase == Done(reply) <==> s.calls[c].phase == Done(reply) || Answers(s, step, c, reply)
  {
    NextShape(s, step);
  }

  lemma NewCallIsUnanswered(s: Proc, step: Step, c: nat)
    requires Enabled(s, step) && |s.calls| <= c < |Next(s, step).calls|
    ensures !Next(s, step).calls[c].phase.Done?
  {
  }

  /** A call has a reply exactly when a step answered it so. */
  lemma {:induction false} RepliedExactlyWhen(states: seq<Proc>, steps: seq<Step>, i: nat, c: nat, reply: Reply)
    requires IsRun(states, steps) && i < |states| && c < |states[i].calls|
    ensures states[i].calls[c].phase == Done(reply) <==> exists j :: 0 <= j < i && Answers(states[j], steps[j], c, reply)
  {
    hide Next, Enabled, Answers, IdsFresh, TableExact, RepliesRight;
    if i > 0 {
      var l := i - 1;
      RunConsistent(states, steps, l);
      RunStep(states, steps, l);
      if c < |states[l].calls| {
        RepliedExactlyWhen(states, steps, l, c, reply);
        StepAnswers(states[l], steps[l], c, reply);
      } else {
        NewCallIsUnanswered(states[l], steps[l], c);
        forall j | 0 <= j < i ensures !Answers(states[j], steps[j], c, reply) {
          CallsOnlyGrow(states, steps, j, l);
          AnswersOwnCalls(states[j], steps[j], c, reply);
        }
      }
    }
  }

  lemma AnswersOwnCalls(s: Proc, step: Step, c: nat, reply: Reply)
    ensures Answers(s, step, c, reply) ==> c < |s.calls|
  {
  }

  lemma {:induction false} CallsOnlyGrow(states: seq<Proc>, steps: seq<Step>, j: nat, i: nat)
    requires IsRun(states, steps) && j <= i < |states|
    ensures |states[j].calls| <= |states[i].calls|
    ensures forall c :: 0 <= c < |states[j].calls| ==> states[i].calls[c].originalId == states[j].calls[c].originalId
    decreases i
  {
    hide Next, Enabled;
    if j < i {
      var l := i - 1;
      CallsOnlyGrow(states, steps, j, l);
      RunStep(states, steps, l);
      NextShape(states[l], steps[l]);
      forall c | 0 <= c < |states[j].calls| ensures states[i].calls[c].originalId == states[j].calls[c].originalId {
        NextKeepsCalls(states[l], steps[l], c);
      }
    }
  }

  /** A caller gets the write error exactly when its write failed, and is abandoned exactly when it was cancelled. */
  lemma WriteErrorExactlyWhen(states: seq<Proc>, steps: seq<Step>, i: nat, c: nat)
    requires IsRun(states, steps) && i < |states| && c < |states[i].calls|
    ensures states[i].calls[c].phase == Done(WriteError) <==> exists j :: 0 <= j < i && steps[j] == WriteFails(c)
    ensures states[i].calls[c].phase == Done(Abandoned) <==> exists j :: 0 <= j < i && steps[j] == Abandons(c)
  {
    hide Next;
    RepliedExactlyWhen(states, steps, i, c, WriteError);
    RepliedExactlyWhen(states, steps, i, c, Abandoned);
    forall j | 0 <= j < i && (steps[j] == WriteFails(c) || steps[j] == Abandons(c))
      ensures Answers(states[j], steps[j], c, if steps[j].WriteFails? then WriteError else Abandoned)
    {
      RunStep(states, steps, j);
    }
  }

  /** A call that wakes at a future with a line is answered with that line under the id its caller gave. */
  lemma ResolvedCallsAreAnswered(states: seq<Proc>, steps: seq<Step>, i: nat, c: nat)
    requires IsRun(states, steps) && i < |steps| && steps[i] == Wakes(c)
    ensures c < |states[i].calls| == |states[i].futures| && c < |states[i + 1].calls|
    ensures states[i].futures[c].Resolved?
      ==> states[i + 1].calls[c].phase == Done(Response(states[i].calls[c].originalId, states[i].futures[c].line.payload))
    ensures states[i].futures[c].Failed?
      ==> states[i + 1].calls[c].phase == Done(StdioError(states[i].calls[c].originalId, states[i].futures[c].reason))
  {
    RunConsistent(states, steps, i);
    RunStep(states, steps, i);
  }

  /** From request to answer: the caller that began with an id gets, under that id, the line that arrived for it. */
  lemma RequestsAreAnswered(states: seq<Proc>, steps: seq<Step>, b: nat, j: nat, i: nat, originalId: string, line: Line)
    requires IsRun(states, steps) && b < j < i < |steps|
    requires steps[b] == Begin(originalId) && steps[j] == Receive(line) && steps[i] == Wakes(|states[b].calls|)
    requires Expecting(states[j], |states[b].calls|) && line.id == Some(states[j].calls[|states[b].calls|].internalId)
    ensures |states[b].calls| < |states[i + 1].calls|
    ensures states[i + 1].calls[|states[b].calls|].phase == Done(Response(originalId, line.payload))
  {
    hide Next, Enabled, TableExact, RepliesRight;
    var c := |states[b].calls|;
    RunStep(states, steps, b);
    NewCall(states[b], steps[b]);
    assert states[b + 1].calls[c].originalId == originalId;
    CallsOnlyGrow(states, steps, b + 1, i);
    LineCompletesItsCall(states, steps, j, c);
    RunConsistent(states, steps, j);
    CallsOnlyGrow(states, steps, j, j + 1);
    CompletedAtMostOnce(states, steps, j + 1, i, c);
    ResolvedCallsAreAnswered(states, steps, i, c);
  }

  // ---------------------------------------------------------------- the process

  /** A step of the one kind has been taken, and none of the other since. */
  predicate Since(steps: seq<Step>, i: nat, on: Step -> bool, off: Step -> bool)
    requires i <= |steps|
  {
    exists j | 0 <= j < i :: on(steps[j]) && forall l | j < l < i :: !off(steps[l])
  }

  lemma SinceGrows(steps: seq<Step>, i: nat, on: Step -> bool, off: Step -> bool)
    requires i < |steps|
    ensures Since(steps, i + 1, on, off) <==> on(steps[i]) || (Since(steps, i, on, off) && !off(steps[i]))
  {
    if j :| 0 <= j < i && on(steps[j]) && forall l :: j < l < i ==> !off(steps[l]) {
      assert !off(steps[i]) ==> forall l :: j < l < i + 1 ==> !off(steps[l]);
    }
  }

  const STARTS: Step -> bool := (s: Step) => s.Start?
  const HANDSHAKES: Step -> bool := (s: Step) => s.Initialized?
  const LOSES_PROCESS: Step -> bool := (s: Step) => s.StartFailed? || s.StopEnds?
  const STOPS_RUNNING: Step -> bool := (s: Step) => s.StartFailed? || s.StopEnds? || s.ProcessDies?
  const LOSES_SESSION: Step -> bool := (s: Step) => s.Start? || s.ReaderExits? || s.StopEnds?

  /** Whether there is a process, whether it runs and whether it is initialized is what the latest step about it says. */
  lemma {:induction false} LatestStepDecides(states: seq<Proc>, steps: seq<Step>, i: nat)
    requires IsRun(states, steps) && i < |states|
    ensures states[i].hasProcess <==> Since(steps, i, STARTS, LOSES_PROCESS)
    ensures states[i].running <==> Since(steps, i, STARTS, STOPS_RUNNING)
    ensures states[i].initialized <==> Since(steps, i, HANDSHAKES, LOSES_SESSION)
  {
    hide Enabled, Since;
    if i == 0 {
      NothingSince(steps, STARTS, LOSES_PROCESS);
      NothingSince(steps, STARTS, STOPS_RUNNING);
      NothingSince(steps, HANDSHAKES, LOSES_SESSION);
    } else {
      var l := i - 1;
      LatestStepDecides(states, steps, l);
      RunStep(states, steps, l);
      SinceGrows(steps, l, STARTS, LOSES_PROCESS);
      SinceGrows(steps, l, STARTS, STOPS_RUNNING);
      SinceGrows(steps, l, HANDSHAKES, LOSES_SESSION);
    }
  }

  lemma NothingSince(steps: seq<Step>, on: Step -> bool, off: Step -> bool)
    ensures !Since(steps, 0, on, off)
  {
  }

  function Occurrences(steps: seq<Step>, i: nat, p: Step -> bool): nat
    requires i <= |steps|
  {
    if i == 0 then 0 else Occurrences(steps, i - 1, p) + (if p(steps[i - 1]) then 1 else 0)
  }

  /** Every start leaves a reader behind until it exits. */
  lemma {:induction false} ReadersAreCounted(states: seq<Proc>, steps: seq<Step>, i: nat)
    requires IsRun(states, steps) && i < |states|
    ensures states[i].readers == Occurrences(steps, i, STARTS) - Occurrences(steps, i, (s: Step) => s.ReaderExits?)
  {
    if i > 0 {
      ReadersAreCounted(states, steps, i - 1);
      RunStep(states, steps, i - 1);
    }
  }
}
