/** Laws over whole runs of the actor protocol that name their steps: why the control ended, that the
    protocol never gets stuck, and that every schedule comes to rest. */
module ActorLaws {
  import opened Prelude
  import opened Remote
  import opened Actor

  /** A run with its steps. */
  ghost predicate IsTrace(states: seq<System>, steps: seq<Step>) {
    && |states| == |steps| + 1 && states[0] == START
    && forall i :: 0 <= i < |steps| ==> StepFrom(states, steps, i)
  }

  ghost predicate StepFrom(states: seq<System>, steps: seq<Step>, i: nat)
    requires |states| == |steps| + 1 && i < |steps|
  {
    Enabled(states[i], steps[i]) && states[i + 1] == Next(states[i], steps[i])
  }

  lemma TraceIsRun(states: seq<System>, steps: seq<Step>)
    requires IsTrace(states, steps)
    ensures IsRun(states)
  {
    forall i | 0 <= i < |states| - 1 ensures Follows(states[i], states[i + 1]) {
      assert StepFrom(states, steps, i);
    }
  }

  // ---------------------------------------------------------------- why the control ended

  /** The owner's release ended the control at this step. */
  predicate EndedByOwner(states: seq<System>, steps: seq<Step>, j: nat) {
    j < |steps| && j < |states| && states[j].control.terminal.None? && steps[j].Release?
  }

  /** A callback failed with this message, and settling it ended the control. */
  predicate EndedByFailure(states: seq<System>, steps: seq<Step>, j: nat, message: string) {
    && j < |steps| && j < |states| && states[j].control.terminal.None?
    && steps[j].Settle? && states[j].worker.Returned? && states[j].worker.failure == Some(message)
  }

  lemma StepEnds(s: System, step: Step)
    requires Enabled(s, step)
    ensures Next(s, step).control.terminal ==
            if s.control.terminal.Some? then s.control.terminal
            else if step.Release? then Some(Shutdown)
            else if step.Settle? && s.worker.failure.Some? then Some(Failed(s.worker.failure.value))
            else None
  {
  }

  /** What a control ended with says who ended it: it was shut down exactly if the owner's release
      came first, and it failed with a message exactly if a callback's failure with that message did. */
  lemma {:induction false} EndHasCause(states: seq<System>, steps: seq<Step>, k: nat, message: string)
    requires IsTrace(states, steps) && k < |states|
    ensures states[k].control.terminal == Some(Shutdown) <==> exists j :: 0 <= j < k && EndedByOwner(states, steps, j)
    ensures states[k].control.terminal == Some(Failed(message)) <==>
            exists j :: 0 <= j < k && EndedByFailure(states, steps, j, message)
    decreases k
  {
    if k > 0 {
      EndHasCause(states, steps, k - 1, message);
      assert StepFrom(states, steps, k - 1);
      StepEnds(states[k - 1], steps[k - 1]);
      if states[k - 1].control.terminal.None? {
        NoEndYet(states, steps, k - 1);
        assert steps[k - 1].Release? <==> EndedByOwner(states, steps, k - 1);
        assert states[k].control.terminal == Some(Failed(message)) <==> EndedByFailure(states, steps, k - 1, message);
      } else {
        assert forall j :: 0 <= j < k && EndedByOwner(states, steps, j) ==> j < k - 1;
        assert forall j :: 0 <= j < k && EndedByFailure(states, steps, j, message) ==> j < k - 1;
      }
    }
  }

  /** While the control has not ended, no step has ended it. */
  lemma NoEndYet(states: seq<System>, steps: seq<Step>, k: nat)
    requires IsTrace(states, steps) && k < |states| && states[k].control.terminal.None?
    ensures forall j :: 0 <= j < k ==> !EndedByOwner(states, steps, j)
    ensures forall j, m :: 0 <= j < k ==> !EndedByFailure(states, steps, j, m)
  {
    forall j | 0 <= j < k ensures !EndedByOwner(states, steps, j) {
      NoEndAt(states, steps, j, k, "");
    }
    forall j, m | 0 <= j < k ensures !EndedByFailure(states, steps, j, m) {
      NoEndAt(states, steps, j, k, m);
    }
  }

  lemma NoEndAt(states: seq<System>, steps: seq<Step>, j: nat, k: nat, message: string)
    requires IsTrace(states, steps) && j < k < |states| && states[k].control.terminal.None?
    ensures !EndedByOwner(states, steps, j) && !EndedByFailure(states, steps, j, message)
  {
    TraceIsRun(states, steps);
    assert StepFrom(states, steps, j);
    StepEnds(states[j], steps[j]);
    if states[j + 1].control.terminal.Some? {
      TerminalIsSticky(states, j + 1, k);
    }
  }

  /** The worker settles what its callback returned: the failure, or its absence, is that of the
      return of the very message, with nothing settled in between. */
  lemma {:induction false} SettledIsReturned(states: seq<System>, steps: seq<Step>, j: nat) returns (i: nat)
    requires IsTrace(states, steps) && j < |states| && states[j].worker.Returned?
    ensures i < j && steps[i] == Return(states[j].worker.failure)
    ensures states[i].worker == Running(states[j].worker.message)
    ensures forall n :: i < n <= j ==> states[n].worker == states[j].worker
    decreases j
  {
    if j == 0 {
      assert false;
    } else {
      assert StepFrom(states, steps, j - 1);
      if steps[j - 1].Return? {
        i := j - 1;
      } else {
        WorkerWaits(states[j - 1], steps[j - 1]);
        i := SettledIsReturned(states, steps, j - 1);
      }
    }
  }

  lemma WorkerWaits(s: System, step: Step)
    requires Enabled(s, step) && Next(s, step).worker.Returned? && !step.Return?
    ensures s.worker == Next(s, step).worker
  {
  }

  /** The error a call receives has a cause: the owner let go first, or a callback returned with
      exactly that failure. */
  lemma OutcomeHasCause(states: seq<System>, steps: seq<Step>, k: nat, c: Call)
    requires IsTrace(states, steps) && k < |states| && c < |states[k].calls|
    requires states[k].calls[c].responses != [] && states[k].calls[c].responses[0].Error?
    ensures match states[k].calls[c].responses[0].error
            case Shutdown => exists j :: 0 <= j < k && EndedByOwner(states, steps, j)
            case Failed(message) => exists i :: 0 <= i < k && steps[i] == Return(Some(message))
  {
    TraceIsRun(states, steps);
    OneErrorForAll(states, k, k, c, c);
    match states[k].calls[c].responses[0].error {
      case Shutdown => EndHasCause(states, steps, k, "");
      case Failed(message) =>
        EndHasCause(states, steps, k, message);
        var j :| 0 <= j < k && EndedByFailure(states, steps, j, message);
        var i := SettledIsReturned(states, steps, j);
    }
  }

  /** A control is only ever shut down by an owner that no longer holds its handle. */
  lemma ShutdownMeansReleased(states: seq<System>, i: nat)
    requires IsRun(states) && i < |states| && states[i].control.terminal == Some(Shutdown)
    ensures !states[i].owner.Holding?
  {
    RunIsSound(states, i);
  }

  // ---------------------------------------------------------------- what becomes of a call

  /** What one step does to a call that exists already: only its reader leaves, only a reader that
      finds a word is handed it, and only a callback that returns without failure produces one. */
  lemma StepOnCall(s: System, step: Step, c: Call)
    requires Enabled(s, step) && Carried(s) && c < |s.calls|
    ensures var r, q := s.calls[c], Next(s, step).calls[c];
            && (q.reader.Gone? <==> r.reader.Gone? || step == Read(c) || step == DropReader(c))
            && q.handed == r.handed + (if step == Read(c) && r.responses[0].Word? then 1 else 0)
            && (q.produced <==> r.produced || (step == Return(None) && s.worker.message.call == c))
  {
  }

  lemma NewCallStarts(s: System, step: Step)
    requires Enabled(s, step) && |Next(s, step).calls| != |s.calls|
    ensures step.Register? && |Next(s, step).calls| == |s.calls| + 1
    ensures var q := Next(s, step).calls[|s.calls|];
            q.reader.Waiting? && q.handed == 0 && !q.produced && q.responses == [] && !q.stage.Sent?
  {
  }

  predicate ReaderLeft(states: seq<System>, steps: seq<Step>, j: nat, c: Call) {
    j < |steps| && j < |states| && (steps[j] == Read(c) || steps[j] == DropReader(c))
  }

  predicate WordRead(states: seq<System>, steps: seq<Step>, j: nat, c: Call) {
    && j < |steps| && j < |states| && steps[j] == Read(c)
    && c < |states[j].calls| && states[j].calls[c].responses != [] && states[j].calls[c].responses[0].Word?
  }

  predicate CallbackSucceeded(states: seq<System>, steps: seq<Step>, j: nat, c: Call) {
    j < |steps| && j < |states| && steps[j] == Return(None) && states[j].worker.Running? && states[j].worker.message.call == c
  }

  ghost predicate EverLeft(states: seq<System>, steps: seq<Step>, k: nat, c: Call) {
    exists j :: 0 <= j < k && ReaderLeft(states, steps, j, c)
  }

  ghost predicate EverRead(states: seq<System>, steps: seq<Step>, k: nat, c: Call) {
    exists j :: 0 <= j < k && WordRead(states, steps, j, c)
  }

  ghost predicate EverSucceeded(states: seq<System>, steps: seq<Step>, k: nat, c: Call) {
    exists j :: 0 <= j < k && CallbackSucceeded(states, steps, j, c)
  }

  lemma OneStepMore(states: seq<System>, steps: seq<Step>, k: nat, c: Call)
    ensures EverLeft(states, steps, k + 1, c) <==> EverLeft(states, steps, k, c) || ReaderLeft(states, steps, k, c)
    ensures EverRead(states, steps, k + 1, c) <==> EverRead(states, steps, k, c) || WordRead(states, steps, k, c)
    ensures EverSucceeded(states, steps, k + 1, c) <==> EverSucceeded(states, steps, k, c) || CallbackSucceeded(states, steps, k, c)
  {
  }

  lemma StepIsHistory(states: seq<System>, steps: seq<Step>, k: nat, c: Call)
    requires IsTrace(states, steps) && k < |steps| && c < |states[k].calls|
    ensures c < |states[k + 1].calls|
    ensures var r, q := states[k].calls[c], states[k + 1].calls[c];
            && (q.reader.Gone? <==> r.reader.Gone? || ReaderLeft(states, steps, k, c))
            && (q.handed > 0 <==> r.handed > 0 || WordRead(states, steps, k, c))
            && (q.produced <==> r.produced || CallbackSucceeded(states, steps, k, c))
  {
    assert StepFrom(states, steps, k);
    TraceIsRun(states, steps);
    RunIsSound(states, k);
    CallsOnlyGrow(states, steps, k, k + 1);
    StepOnCall(states[k], steps[k], c);
  }

  /** A reader is gone exactly if it read or was dropped, a word was handed over exactly if a reader
      read it, and there is a word exactly if the callback of this call succeeded. */
  lemma {:induction false} CallHistory(states: seq<System>, steps: seq<Step>, k: nat, c: Call)
    requires IsTrace(states, steps) && k < |states| && c < |states[k].calls|
    ensures states[k].calls[c].reader.Gone? <==> EverLeft(states, steps, k, c)
    ensures states[k].calls[c].handed > 0 <==> EverRead(states, steps, k, c)
    ensures states[k].calls[c].produced <==> EverSucceeded(states, steps, k, c)
    decreases k
  {
    if k > 0 {
      if c < |states[k - 1].calls| {
        CallHistory(states, steps, k - 1, c);
        StepIsHistory(states, steps, k - 1, c);
        OneStepMore(states, steps, k - 1, c);
      } else {
        FreshCall(states, steps, k, c);
      }
    }
  }

  lemma FreshCall(states: seq<System>, steps: seq<Step>, k: nat, c: Call)
    requires IsTrace(states, steps) && 0 < k < |states| && |states[k - 1].calls| <= c < |states[k].calls|
    ensures states[k].calls[c].reader.Waiting? && states[k].calls[c].handed == 0 && !states[k].calls[c].produced
    ensures !EverLeft(states, steps, k, c) && !EverRead(states, steps, k, c) && !EverSucceeded(states, steps, k, c)
  {
    assert StepFrom(states, steps, k - 1);
    NewCallStarts(states[k - 1], steps[k - 1]);
    NoHistory(states, steps, k, c);
  }

  /** Nothing happens to a call before it is made. */
  lemma NoHistory(states: seq<System>, steps: seq<Step>, k: nat, c: Call)
    requires IsTrace(states, steps) && 0 < k < |states| && |states[k - 1].calls| <= c && steps[k - 1].Register?
    ensures forall j :: 0 <= j < k ==>
              !ReaderLeft(states, steps, j, c) && !WordRead(states, steps, j, c) && !CallbackSucceeded(states, steps, j, c)
  {
    TraceIsRun(states, steps);
    forall j | 0 <= j < k
      ensures !ReaderLeft(states, steps, j, c) && !WordRead(states, steps, j, c) && !CallbackSucceeded(states, steps, j, c)
    {
      if j < k - 1 {
        CallsOnlyGrow(states, steps, j, k - 1);
        assert StepFrom(states, steps, j);
        RunIsSound(states, j);
      }
    }
  }

  lemma {:induction false} CallsOnlyGrow(states: seq<System>, steps: seq<Step>, j: nat, k: nat)
    requires IsTrace(states, steps) && j <= k < |states|
    ensures |states[j].calls| <= |states[k].calls|
    decreases k
  {
    if j < k {
      CallsOnlyGrow(states, steps, j, k - 1);
      assert StepFrom(states, steps, k - 1);
      if |states[k].calls| != |states[k - 1].calls| {
        NewCallStarts(states[k - 1], steps[k - 1]);
      }
    }
  }

  // ---------------------------------------------------------------- the protocol never gets stuck

  /** Nothing is left to do until somebody makes a call or lets the handle go. */
  predicate AtRest(s: System) {
    && NoCallerActive(s) && NothingCancelling(s)
    && (s.worker.Finished? || (s.worker.Idle? && s.queue == [] && s.owner.Holding?))
  }

  /** Steps the protocol takes by itself: no new call, no release, no decision of a reader. */
  predicate Own(step: Step) {
    !step.Register? && !step.Release? && !step.Read? && !step.DropReader?
  }

  /** Short of rest some thread can always take its next step: there is no deadlock. */
  lemma NeverStuck(states: seq<System>, i: nat) returns (step: Step)
    requires IsRun(states) && i < |states| && !AtRest(states[i])
    ensures Own(step) && Enabled(states[i], step)
  {
    var s := states[i];
    RunIsSound(states, i);
    if c :| 0 <= c < |s.calls| && s.calls[c].stage.Refused? {
      step := DeliverRefusal(c);
    } else if c :| 0 <= c < |s.calls| && s.calls[c].stage.Staged? {
      step := Send(c);
    } else if c :| 0 <= c < |s.calls| && s.calls[c].cancelling.Some? {
      step := Cancel(c);
    } else {
      match s.worker {
        case Idle => step := if s.queue != [] then Receive else if s.owner.Left? then Finish else Close;
        case Received(_) => step := Check;
        case Running(_) => step := Return(None);
        case Returned(_, _) => step := Settle;
        case Claimed(_) => step := Respond;
        case Publishing => step := EndPublish;
        case Finished => assert false;
      }
    }
  }

  /** Each thread's own next step is open to it: the worker's in every stage, whatever the callback
      returned, and a reader's as soon as its answer is there. */
  lemma ThreadsCanGoOn(states: seq<System>, i: nat, failure: Option<string>, c: Call)
    requires IsRun(states) && i < |states|
    ensures var s := states[i];
            && (s.worker.Idle? && s.queue != [] ==> Enabled(s, Receive))
            && (s.worker.Received? ==> Enabled(s, Check))
            && (s.worker.Running? ==> Enabled(s, Return(failure)))
            && (s.worker.Returned? ==> Enabled(s, Settle))
            && (s.worker.Claimed? ==> Enabled(s, Respond))
            && (s.owner.Holding? ==> Enabled(s, Release))
            && (!s.owner.Left? ==> Enabled(s, Register))
            && (c < |s.calls| && s.calls[c].responses != [] && s.calls[c].reader.Waiting? ==> Enabled(s, Read(c)))
            && (c < |s.calls| && s.calls[c].reader.Waiting? ==> Enabled(s, DropReader(c)))
  {
    RunIsSound(states, i);
  }

  // ---------------------------------------------------------------- and every schedule comes to rest

  /** An upper bound on the steps still to come for a call, its message and its reader. */
  function CallWork(s: System, c: Call): nat
    requires c < |s.calls|
  {
    (if s.calls[c].stage.Refused? then 8 else if s.calls[c].stage.Staged? then 7 else 0)
    + (if IsPending(s, c) then 2 else 0)
    + (if s.calls[c].cancelling.Some? then 1 else 0)
    + (if s.calls[c].reader.Waiting? then 1 else 0)
  }

  function CallsWork(s: System, n: nat): nat
    requires n <= |s.calls|
  {
    if n == 0 then 0 else CallsWork(s, n - 1) + CallWork(s, n - 1)
  }

  function WorkerWork(w: Worker): nat {
    match w
    case Finished => 0
    case Idle => 1
    case Publishing => 2
    case Claimed(_) => 2
    case Returned(_, _) => 3
    case Running(_) => 4
    case Received(_) => 5
  }

  function OwnerWork(o: Owner): nat {
    match o
    case Holding => 2
    case Cancelling => 1
    case Leaving => 1
    case Left => 0
  }

  /** An upper bound on the steps until rest, if no new call is made. */
  function Work(s: System): nat {
    CallsWork(s, |s.calls|) + 6 * |s.queue| + WorkerWork(s.worker) + OwnerWork(s.owner)
  }

  lemma {:induction false} CallsDoLess(s: System, t: System, n: nat)
    requires n <= |s.calls| && n <= |t.calls| && forall c :: 0 <= c < n ==> CallWork(t, c) <= CallWork(s, c)
    ensures CallsWork(t, n) <= CallsWork(s, n)
  {
    if n > 0 {
      CallsDoLess(s, t, n - 1);
    }
  }

  lemma {:induction false} OneCallDoesLess(s: System, t: System, n: nat, d: Call, less: nat)
    requires n <= |s.calls| && n <= |t.calls| && d < n && CallWork(t, d) + less <= CallWork(s, d)
    requires forall c :: 0 <= c < n ==> CallWork(t, c) <= CallWork(s, c)
    ensures CallsWork(t, n) + less <= CallsWork(s, n)
  {
    if d == n - 1 {
      CallsDoLess(s, t, n - 1);
    } else {
      OneCallDoesLess(s, t, n - 1, d, less);
    }
  }

  lemma CallDoesNoMore(s: System, step: Step, c: Call)
    requires Enabled(s, step) && !step.Register? && c < |s.calls|
    ensures |Next(s, step).calls| == |s.calls| && CallWork(Next(s, step), c) <= CallWork(s, c)
  {
  }

  /** The call a step belongs to, if it belongs to one. */
  predicate OfCall(step: Step) {
    step.DeliverRefusal? || step.Send? || step.Cancel? || step.Read? || step.DropReader?
  }

  lemma CallDoesLess(s: System, step: Step)
    requires Enabled(s, step) && OfCall(step)
    ensures CallWork(Next(s, step), step.call) + (if step.Send? then 7 else 1) <= CallWork(s, step.call)
  {
  }

  /** Every step but a new call brings the run closer to rest. */
  lemma StepDoesWork(s: System, step: Step)
    requires Enabled(s, step) && !step.Register?
    ensures Work(Next(s, step)) < Work(s)
  {
    var t := Next(s, step);
    forall c | 0 <= c < |s.calls| ensures CallWork(t, c) <= CallWork(s, c) {
      CallDoesNoMore(s, step, c);
    }
    assert |t.calls| == |s.calls|;
    if OfCall(step) {
      CallDoesLess(s, step);
      OneCallDoesLess(s, t, |s.calls|, step.call, if step.Send? then 7 else 1);
    } else {
      CallsDoLess(s, t, |s.calls|);
    }
  }

  /** However the threads are scheduled, a stretch without new calls is no longer than the work at
      hand; being never stuck, the protocol comes to rest. */
  lemma {:induction false} EveryScheduleEnds(states: seq<System>, steps: seq<Step>, i: nat, j: nat)
    requires IsTrace(states, steps) && i <= j < |states|
    requires forall n :: i <= n < j ==> !steps[n].Register?
    ensures j - i + Work(states[j]) <= Work(states[i])
    decreases j
  {
    if i < j {
      EveryScheduleEnds(states, steps, i, j - 1);
      assert StepFrom(states, steps, j - 1);
      StepDoesWork(states[j - 1], steps[j - 1]);
    }
  }
}
