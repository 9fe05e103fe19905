/** The remote actor protocol: callers, one worker, failures and the owner, interleaved at
    every lock section and channel operation. */
module Actor {
  import opened Prelude
  import opened Remote

  datatype Outcome = Word | Error(error: RemoteError)

  /** How far a caller has got: it registers, runs its own callback if refused, and queues its message. */
  datatype Stage = Refused(error: RemoteError) | Staged | Sent

  /** The receiving end of the response channel. */
  datatype Reader = Waiting | Gone

  /** One remote call.  `responses` is everything ever sent to its channel; the word is the
      result of its callback, if it ran and succeeded. */
  datatype Request = Request(
    stage: Stage,
    request: Option<nat>,
    cancelling: Option<RemoteError>,
    responses: seq<Outcome>,
    reader: Reader,
    produced: bool,
    handed: nat,
    released: nat)

  datatype Message = Message(call: Call, request: Option<nat>)

  /** Where the worker stands with the message it received. */
  datatype Worker =
    | Idle
    | Received(message: Message)
    | Running(message: Message)
    | Returned(message: Message, failure: Option<string>)
    | Claimed(message: Message)
    | Publishing
    | Finished

  /** How far the owner has got: it ends the control, runs the callbacks it took, if any, and
      drops its handle. */
  datatype Owner = Holding | Cancelling | Leaving | Left

  datatype Mode = Run | Reclaim

  datatype Use = Use(call: Call, mode: Mode)

  datatype System = System(
    control: Lifecycle,
    calls: seq<Request>,
    queue: seq<Message>,
    worker: Worker,
    owner: Owner,
    sent: seq<Call>,
    uses: seq<Use>,
    stateReleases: nat)

  const START := System(Lifecycle(None, 0, map[]), [], [], Idle, Holding, [], [], 0)

  datatype Step =
    | Register
    | DeliverRefusal(call: Call)
    | Send(call: Call)
    | Receive
    | Check
    | Return(failure: Option<string>)
    | Settle
    | Cancel(call: Call)
    | EndPublish
    | Respond
    | Release
    | Close
    | Finish
    | Read(call: Call)
    | DropReader(call: Call)

  // ---------------------------------------------------------------- steps

  predicate NoCallerActive(s: System) {
    forall c :: 0 <= c < |s.calls| ==> s.calls[c].stage.Sent?
  }

  predicate NothingCancelling(s: System) {
    forall c :: 0 <= c < |s.calls| ==> s.calls[c].cancelling.None?
  }

  /** When a step can happen.  The owner's handle is alive while callers use it, and is
      dropped after the owner ran the callbacks it took when it ended the control. */
  predicate Enabled(s: System, step: Step) {
    match step
    case Register => !s.owner.Left?
    case DeliverRefusal(c) => c < |s.calls| && s.calls[c].stage.Refused?
    case Send(c) => c < |s.calls| && s.calls[c].stage.Staged?
    case Receive => s.worker.Idle? && s.queue != []
    case Check => s.worker.Received?
    case Return(_) => s.worker.Running?
    case Settle => s.worker.Returned? && s.worker.message.call < |s.calls| && s.worker.message.request.Some?
    case Cancel(c) => c < |s.calls| && s.calls[c].cancelling.Some?
    case EndPublish => s.worker.Publishing? && NothingCancelling(s)
    case Respond => s.worker.Claimed? && s.worker.message.call < |s.calls|
    case Release => s.owner.Holding?
    case Close => (s.owner.Leaving? || (s.owner.Cancelling? && NothingCancelling(s))) && NoCallerActive(s)
    case Finish => s.worker.Idle? && s.queue == [] && s.owner.Left?
    case Read(c) => c < |s.calls| && s.calls[c].reader.Waiting? && s.calls[c].responses != []
    case DropReader(c) => c < |s.calls| && s.calls[c].reader.Waiting?
  }

  /** A message sent to a channel; a word sent to a reader that is gone is released. */
  function Answered(r: Request, o: Outcome): Request {
    r.(responses := r.responses + [o], released := r.released + if o.Word? && r.reader.Gone? then 1 else 0)
  }

  function Answer(s: System, c: Call, o: Outcome): System
    requires c < |s.calls|
  {
    s.(calls := s.calls[c := Answered(s.calls[c], o)])
  }

  predicate IsPending(s: System, c: Call)
    requires c < |s.calls|
  {
    s.calls[c].request.Some? && s.calls[c].request.value in s.control.pending
  }

  /** Termination takes every pending callback out of the table; they run later, one by one. */
  function Terminated(s: System, e: RemoteError): System {
    if s.control.terminal.Some? then s
    else s.(control := s.control.Terminated(e),
            calls := seq(|s.calls|, c requires 0 <= c < |s.calls| =>
                         if IsPending(s, c) then s.calls[c].(cancelling := Some(e)) else s.calls[c]))
  }

  const NEW_CALL := Request(Staged, None, None, [], Waiting, false, 0, 0)

  function Next(s: System, step: Step): System
    requires Enabled(s, step)
  {
    match step
    case Register =>
      if s.control.terminal.Some? then
        s.(calls := s.calls + [NEW_CALL.(stage := Refused(s.control.terminal.value))])
      else
        s.(calls := s.calls + [NEW_CALL.(request := Some(s.control.next))],
           control := s.control.Registered(|s.calls|))
    case DeliverRefusal(c) =>
      var t := Answer(s, c, Error(s.calls[c].stage.error));
      t.(calls := t.calls[c := t.calls[c].(stage := Staged)])
    case Send(c) =>
      s.(calls := s.calls[c := s.calls[c].(stage := Sent)],
         queue := s.queue + [Message(c, s.calls[c].request)],
         sent := s.sent + [c])
    case Receive => s.(worker := Received(s.queue[0]), queue := s.queue[1..])
    case Check =>
      var m := s.worker.message;
      if s.control.terminal.Some? || m.request.None? then
        s.(worker := Idle, uses := s.uses + [Use(m.call, Reclaim)])
      else
        s.(worker := Running(m), uses := s.uses + [Use(m.call, Run)])
    case Return(failure) =>
      var m := s.worker.message;
      var t := s.(worker := Returned(m, failure));
      if failure.None? && m.call < |s.calls| then t.(calls := t.calls[m.call := t.calls[m.call].(produced := true)]) else t
    case Settle =>
      var m := s.worker.message;
      if s.worker.failure.Some? then
        var t := Terminated(s, Failed(s.worker.failure.value));
        t.(worker := if s.control.terminal.Some? then Idle else Publishing)
      else if m.request.value in s.control.pending then
        s.(control := s.control.Completed(m.request.value), worker := Claimed(m))
      else
        s.(calls := s.calls[m.call := s.calls[m.call].(released := s.calls[m.call].released + 1)], worker := Idle)
    case Cancel(c) =>
      var t := Answer(s, c, Error(s.calls[c].cancelling.value));
      t.(calls := t.calls[c := t.calls[c].(cancelling := None)])
    case EndPublish => s.(worker := Idle)
    case Respond => Answer(s, s.worker.message.call, Word).(worker := Idle)
    case Release => Terminated(s, Shutdown).(owner := if s.control.terminal.Some? then Leaving else Cancelling)
    case Close => s.(owner := Left)
    case Finish => s.(worker := Finished, stateReleases := s.stateReleases + 1)
    case Read(c) =>
      var r := s.calls[c];
      s.(calls := s.calls[c := r.(reader := Gone, handed := r.handed + if r.responses[0].Word? then 1 else 0)])
    case DropReader(c) =>
      var r := s.calls[c];
      s.(calls := s.calls[c := r.(reader := Gone,
                                  released := r.released + if r.responses != [] && r.responses[0].Word? then 1 else 0)])
  }

  /** A run: states joined by enabled steps. */
  ghost predicate IsRun(states: seq<System>) {
    && states != [] && states[0] == START
    && forall i :: 0 <= i < |states| - 1 ==> Follows(states[i], states[i + 1])
  }

  ghost predicate Follows(s: System, t: System) {
    exists step :: Enabled(s, step) && t == Next(s, step)
  }

  // ---------------------------------------------------------------- the table and its callbacks

  predicate Holds(s: System, c: Call) {
    (s.worker.Received? || s.worker.Running? || s.worker.Returned?) && s.worker.message.call == c
  }

  predicate ClaimedFor(s: System, c: Call) {
    s.worker.Claimed? && s.worker.message.call == c
  }

  /** Pending entries and calls name each other; identities are distinct. */
  predicate Table(s: System) {
    && s.control.Valid()
    && (forall id :: id in s.control.pending ==>
          s.control.pending[id] < |s.calls| && s.calls[s.control.pending[id]].request == Some(id))
    && (forall c :: 0 <= c < |s.calls| && s.calls[c].request.Some? ==> s.calls[c].request.value < s.control.next)
    && (forall c :: 0 <= c < |s.calls| && IsPending(s, c) ==> s.control.pending[s.calls[c].request.value] == c)
  }

  /** Messages carry the identity of their call. */
  predicate Carried(s: System) {
    && (forall i :: 0 <= i < |s.queue| ==> CarriedMessage(s, s.queue[i]))
    && (s.worker.Received? || s.worker.Running? || s.worker.Returned? || s.worker.Claimed? ==> CarriedMessage(s, s.worker.message))
    && (s.worker.Running? || s.worker.Returned? || s.worker.Claimed? ==> s.worker.message.request.Some?)
  }

  predicate CarriedMessage(s: System, m: Message) {
    m.call < |s.calls| && m.request == s.calls[m.call].request
  }

  /** How many parties still owe, or have delivered, an outcome for a call: a refusal not yet
      delivered, the table, a callback on its way, the worker's claim, and the channel. */
  function Debts(s: System, c: Call): nat
    requires c < |s.calls|
  {
    (if s.calls[c].stage.Refused? then 1 else 0)
    + (if IsPending(s, c) then 1 else 0)
    + (if s.calls[c].cancelling.Some? then 1 else 0)
    + (if ClaimedFor(s, c) then 1 else 0)
    + |s.calls[c].responses|
  }

  /** Every call is owed or has exactly one outcome. */
  predicate OneOutcome(s: System) {
    forall c :: 0 <= c < |s.calls| ==> Debts(s, c) == 1
  }

  predicate Telling(r: Request, e: RemoteError) {
    && (r.stage.Refused? ==> r.stage.error == e)
    && (r.cancelling.Some? ==> r.cancelling.value == e)
    && (forall i :: 0 <= i < |r.responses| && r.responses[i].Error? ==> r.responses[i].error == e)
  }

  predicate NoErrors(r: Request) {
    !r.stage.Refused? && r.cancelling.None? && forall i :: 0 <= i < |r.responses| ==> r.responses[i].Word?
  }

  predicate Tells(terminal: Option<RemoteError>, r: Request) {
    match terminal
    case None => NoErrors(r) && r.request.Some?
    case Some(e) => Telling(r, e)
  }

  /** Every refusal and cancellation carries the one terminal error. */
  predicate OneError(s: System) {
    forall c :: 0 <= c < |s.calls| ==> Tells(s.control.terminal, s.calls[c])
  }

  /** The thread that ended the control stays until the callbacks it took have run. */
  predicate Published(s: System) {
    NothingCancelling(s) || s.worker.Publishing? || s.owner.Cancelling?
  }

  /** Whoever runs callbacks, or has given up the handle, follows an end of the control. */
  predicate Ended(s: System) {
    && (s.worker.Publishing? || !s.owner.Holding? ==> s.control.terminal.Some?)
    && (s.owner.Left? ==> NoCallerActive(s))
    && (s.worker.Finished? <==> s.stateReleases == 1) && s.stateReleases <= 1
    && (s.worker.Finished? ==> s.owner.Left? && s.queue == [])
  }

  // ---------------------------------------------------------------- packets and words

  function UsedCalls(uses: seq<Use>): seq<Call> {
    seq(|uses|, i requires 0 <= i < |uses| => uses[i].call)
  }

  function QueuedCalls(queue: seq<Message>): seq<Call> {
    seq(|queue|, i requires 0 <= i < |queue| => queue[i].call)
  }

  function InHand(w: Worker): seq<Call> {
    if w.Received? then [w.message.call] else []
  }

  /** Packets sent are, in order, those given to their callback, the one just received and those
      still queued; no packet is sent twice. */
  predicate Packets(s: System) {
    && s.sent == UsedCalls(s.uses) + InHand(s.worker) + QueuedCalls(s.queue)
    && (forall i, j :: 0 <= i < j < |s.sent| ==> s.sent[i] != s.sent[j])
    && (forall i :: 0 <= i < |s.sent| ==> s.sent[i] < |s.calls| && s.calls[s.sent[i]].stage.Sent?)
  }

  /** Whoever has queued its message is among the senders. */
  predicate AllSent(s: System) {
    forall c :: 0 <= c < |s.calls| && s.calls[c].stage.Sent? ==> c in s.sent
  }

  /** Only the owner shuts the control down. */
  predicate Blamed(s: System) {
    s.control.terminal == Some(Shutdown) ==> !s.owner.Holding?
  }

  predicate Reclaimed(s: System) {
    forall i :: 0 <= i < |s.uses| && s.uses[i].mode.Reclaim? ==> s.control.terminal.Some?
  }

  /** A packet that was used and is no longer with the worker belongs to no pending request. */
  predicate Settled(s: System) {
    forall i :: 0 <= i < |s.uses| ==> SettledCall(s, s.uses[i].call)
  }

  predicate SettledCall(s: System, c: Call) {
    c < |s.calls| && (IsPending(s, c) ==> Holds(s, c))
  }

  predicate InChannel(r: Request) {
    r.reader.Waiting? && r.responses != [] && r.responses[0].Word?
  }

  predicate WithWorker(s: System, c: Call) {
    (s.worker.Returned? && s.worker.failure.None? && s.worker.message.call == c) || ClaimedFor(s, c)
  }

  /** Where the result word of a call is: with the worker, in the channel, handed to one
      await, or released. */
  function Places(s: System, c: Call): nat
    requires c < |s.calls|
  {
    (if WithWorker(s, c) then 1 else 0) + (if InChannel(s.calls[c]) then 1 else 0)
    + s.calls[c].handed + s.calls[c].released
  }

  /** A word produced is in exactly one place. */
  predicate Placed(s: System, c: Call)
    requires c < |s.calls|
  {
    Places(s, c) == if s.calls[c].produced then 1 else 0
  }

  predicate Words(s: System) {
    && (forall c :: 0 <= c < |s.calls| ==> Placed(s, c))
    && (forall c :: 0 <= c < |s.calls| && s.calls[c].produced ==> c in UsedCalls(s.uses))
    && (s.worker.Running? ==> s.worker.message.call < |s.calls| && !s.calls[s.worker.message.call].produced)
    && (s.worker.Running? || s.worker.Returned? || s.worker.Claimed? ==> s.worker.message.call in UsedCalls(s.uses))
  }

  predicate Sound(s: System) {
    && Table(s) && Carried(s) && OneOutcome(s) && OneError(s) && Published(s) && Ended(s)
    && Packets(s) && AllSent(s) && Blamed(s) && Reclaimed(s) && Settled(s) && Words(s)
  }

  lemma UsedMore(s: System, t: System)
    requires s.uses <= t.uses
    ensures forall c :: c in UsedCalls(s.uses) ==> c in UsedCalls(t.uses)
    ensures t.uses != [] ==> t.uses[|t.uses| - 1].call in UsedCalls(t.uses)
  {
    if t.uses != [] {
      assert UsedCalls(t.uses)[|t.uses| - 1] == t.uses[|t.uses| - 1].call;
    }
    forall c | c in UsedCalls(s.uses) ensures c in UsedCalls(t.uses) {
      var i :| 0 <= i < |s.uses| && UsedCalls(s.uses)[i] == c;
      assert UsedCalls(t.uses)[i] == c;
    }
  }

  lemma HandIsNew(s: System)
    requires Packets(s)
    ensures s.worker.Received? ==> s.worker.message.call !in UsedCalls(s.uses)
  {
    if s.worker.Received? {
      assert s.sent[|s.uses|] == s.worker.message.call;
      forall i | 0 <= i < |s.uses| ensures UsedCalls(s.uses)[i] != s.worker.message.call {
        assert s.sent[i] == UsedCalls(s.uses)[i];
      }
    }
  }

  // ---------------------------------------------------------------- every step keeps what holds

  /** Steps that end the control or take an entry out of it. */
  predicate EndStep(step: Step) {
    step.Settle? || step.Release?
  }

  /** Steps that leave the table and the identities of calls alone. */
  lemma FrameTable(s: System, step: Step)
    requires !EndStep(step) && !step.Register? && Enabled(s, step) && Table(s)
    ensures Table(Next(s, step))
  {
    var t := Next(s, step);
    assert t.control == s.control && |t.calls| == |s.calls|;
    assert forall c :: 0 <= c < |s.calls| ==> t.calls[c].request == s.calls[c].request;
  }

  lemma RegisterTable(s: System)
    requires Enabled(s, Register) && Table(s)
    ensures Table(Next(s, Register))
  {
  }

  lemma EndTable(s: System, step: Step)
    requires EndStep(step) && Enabled(s, step) && Table(s)
    ensures Table(Next(s, step))
  {
  }

  lemma StepKeepsTable(s: System, step: Step)
    requires Enabled(s, step) && Table(s) && Carried(s)
    ensures Table(Next(s, step))
  {
    if step.Register? {
      RegisterTable(s);
    } else if EndStep(step) {
      EndTable(s, step);
    } else {
      FrameTable(s, step);
    }
  }

  /** A message keeps the identity of its call. */
  lemma MessageKept(s: System, step: Step, m: Message)
    requires Enabled(s, step) && CarriedMessage(s, m)
    ensures CarriedMessage(Next(s, step), m)
  {
  }

  lemma StepKeepsCarried(s: System, step: Step)
    requires Enabled(s, step) && Carried(s)
    ensures Carried(Next(s, step))
  {
    var t := Next(s, step);
    forall i | 0 <= i < |t.queue| ensures CarriedMessage(t, t.queue[i]) {
      if t.queue[i] in s.queue {
        MessageKept(s, step, t.queue[i]);
      }
    }
    if s.worker.Received? || s.worker.Running? || s.worker.Returned? {
      MessageKept(s, step, s.worker.message);
    }
    if step.Receive? {
      MessageKept(s, step, s.queue[0]);
    }
  }

  lemma EndDebt(s: System, step: Step, c: Call)
    requires EndStep(step) && Enabled(s, step) && Table(s) && Carried(s) && c < |Next(s, step).calls|
    requires c < |s.calls| ==> Debts(s, c) == 1
    ensures Debts(Next(s, step), c) == 1
  {
  }

  lemma FrameDebt(s: System, step: Step, c: Call)
    requires !EndStep(step) && Enabled(s, step) && Table(s) && Carried(s) && c < |Next(s, step).calls|
    requires c < |s.calls| ==> Debts(s, c) == 1
    ensures Debts(Next(s, step), c) == 1
  {
  }

  /** No step changes what is owed to or delivered for one call. */
  lemma DebtKept(s: System, step: Step, c: Call)
    requires Enabled(s, step) && Table(s) && Carried(s) && c < |Next(s, step).calls|
    requires c < |s.calls| ==> Debts(s, c) == 1
    ensures Debts(Next(s, step), c) == 1
  {
    if EndStep(step) {
      EndDebt(s, step, c);
    } else {
      FrameDebt(s, step, c);
    }
  }

  lemma StepKeepsOneOutcome(s: System, step: Step)
    requires Enabled(s, step) && OneOutcome(s) && Table(s) && Carried(s)
    ensures OneOutcome(Next(s, step))
  {
    forall c | 0 <= c < |Next(s, step).calls| ensures Debts(Next(s, step), c) == 1 {
      DebtKept(s, step, c);
    }
  }

  lemma ErrorKept(s: System, step: Step, c: Call)
    requires Enabled(s, step) && Table(s) && c < |Next(s, step).calls|
    requires c < |s.calls| ==> Tells(s.control.terminal, s.calls[c])
    ensures Tells(Next(s, step).control.terminal, Next(s, step).calls[c])
  {
  }

  lemma StepKeepsOneError(s: System, step: Step)
    requires Enabled(s, step) && OneError(s) && Table(s)
    ensures OneError(Next(s, step))
  {
    var t := Next(s, step);
    forall c | 0 <= c < |t.calls| ensures Tells(t.control.terminal, t.calls[c]) {
      ErrorKept(s, step, c);
    }
  }

  lemma StepKeepsPublished(s: System, step: Step)
    requires Enabled(s, step) && Published(s) && Ended(s)
    ensures Published(Next(s, step))
  {
    if NothingCancelling(s) && !EndStep(step) {
      var t := Next(s, step);
      forall c | 0 <= c < |t.calls| ensures t.calls[c].cancelling.None? {
        if c < |s.calls| {
          assert s.calls[c].cancelling.None?;
        }
      }
    }
  }

  lemma StepKeepsEnded(s: System, step: Step)
    requires Enabled(s, step) && Ended(s) && Carried(s)
    ensures Ended(Next(s, step))
  {
  }

  predicate PacketStep(step: Step) {
    step.Send? || step.Receive? || step.Check?
  }

  /** Sending appends to the queue, receiving takes its head in hand, checking uses what is in hand. */
  lemma PacketsLine(s: System, step: Step)
    requires PacketStep(step) && Enabled(s, step)
    ensures var t := Next(s, step);
            UsedCalls(t.uses) + InHand(t.worker) + QueuedCalls(t.queue) ==
            UsedCalls(s.uses) + InHand(s.worker) + QueuedCalls(s.queue) + if step.Send? then [step.call] else []
  {
  }

  lemma MovedPackets(s: System, step: Step)
    requires PacketStep(step) && Enabled(s, step) && Packets(s)
    ensures Packets(Next(s, step))
  {
    PacketsLine(s, step);
  }

  /** Steps that move no packet. */
  lemma FramePackets(s: System, step: Step)
    requires !PacketStep(step) && Enabled(s, step) && Packets(s)
    ensures Packets(Next(s, step))
  {
    var t := Next(s, step);
    assert t.sent == s.sent && t.uses == s.uses && t.queue == s.queue && InHand(t.worker) == InHand(s.worker);
    assert forall c :: 0 <= c < |s.calls| && s.calls[c].stage.Sent? ==> c < |t.calls| && t.calls[c].stage.Sent?;
  }

  lemma StepKeepsPackets(s: System, step: Step)
    requires Enabled(s, step) && Packets(s) && Carried(s)
    ensures Packets(Next(s, step))
  {
    if PacketStep(step) {
      MovedPackets(s, step);
    } else {
      FramePackets(s, step);
    }
  }

  lemma StepKeepsAllSent(s: System, step: Step)
    requires Enabled(s, step) && AllSent(s)
    ensures AllSent(Next(s, step))
  {
    var t := Next(s, step);
    assert forall c :: c in s.sent ==> c in t.sent;
    if step.Send? {
      assert step.call == t.sent[|s.sent|];
    }
  }

  lemma StepKeepsBlamed(s: System, step: Step)
    requires Enabled(s, step) && Blamed(s)
    ensures Blamed(Next(s, step))
  {
  }

  lemma StepKeepsReclaimed(s: System, step: Step)
    requires Enabled(s, step) && Reclaimed(s) && OneError(s) && Carried(s)
    ensures Reclaimed(Next(s, step))
  {
  }

  lemma SettledKept(s: System, step: Step, c: Call)
    requires Enabled(s, step) && Table(s) && Carried(s)
    requires SettledCall(s, c) || (step.Check? && c == s.worker.message.call)
    ensures SettledCall(Next(s, step), c)
  {
  }

  lemma StepKeepsSettled(s: System, step: Step)
    requires Enabled(s, step) && Settled(s) && Table(s) && Carried(s)
    ensures Settled(Next(s, step))
  {
    var t := Next(s, step);
    forall i | 0 <= i < |t.uses| ensures SettledCall(t, t.uses[i].call) {
      if i < |s.uses| {
        assert SettledCall(s, s.uses[i].call) && t.uses[i] == s.uses[i];
      }
      SettledKept(s, step, t.uses[i].call);
    }
  }

  lemma EndPlace(s: System, step: Step, c: Call)
    requires EndStep(step) && Enabled(s, step) && Carried(s) && c < |Next(s, step).calls|
    requires c < |s.calls| ==> Placed(s, c) && Debts(s, c) == 1
    requires s.worker.Running? ==> s.worker.message.call < |s.calls| && !s.calls[s.worker.message.call].produced
    ensures Placed(Next(s, step), c)
  {
  }

  lemma FramePlace(s: System, step: Step, c: Call)
    requires !EndStep(step) && Enabled(s, step) && Carried(s) && c < |Next(s, step).calls|
    requires c < |s.calls| ==> Placed(s, c) && Debts(s, c) == 1
    requires s.worker.Running? ==> s.worker.message.call < |s.calls| && !s.calls[s.worker.message.call].produced
    ensures Placed(Next(s, step), c)
  {
  }

  lemma PlaceKept(s: System, step: Step, c: Call)
    requires Enabled(s, step) && Carried(s) && c < |Next(s, step).calls|
    requires c < |s.calls| ==> Placed(s, c) && Debts(s, c) == 1
    requires s.worker.Running? ==> s.worker.message.call < |s.calls| && !s.calls[s.worker.message.call].produced
    ensures Placed(Next(s, step), c)
  {
    if EndStep(step) {
      EndPlace(s, step, c);
    } else {
      FramePlace(s, step, c);
    }
  }

  lemma ProducedIsUsed(s: System, step: Step, c: Call)
    requires Enabled(s, step) && Words(s) && Carried(s) && c < |Next(s, step).calls| && Next(s, step).calls[c].produced
    ensures c in UsedCalls(Next(s, step).uses)
  {
    UsedMore(s, Next(s, step));
  }

  lemma WorkingIsUsed(s: System, step: Step)
    requires Enabled(s, step) && Words(s) && Packets(s) && Carried(s)
    ensures var t := Next(s, step);
            && (t.worker.Running? ==> t.worker.message.call < |t.calls| && !t.calls[t.worker.message.call].produced)
            && (t.worker.Running? || t.worker.Returned? || t.worker.Claimed? ==> t.worker.message.call in UsedCalls(t.uses))
  {
    UsedMore(s, Next(s, step));
    HandIsNew(s);
  }

  lemma StepKeepsWords(s: System, step: Step)
    requires Enabled(s, step) && Words(s) && OneOutcome(s) && Packets(s) && Carried(s)
    ensures Words(Next(s, step))
  {
    var t := Next(s, step);
    forall c | 0 <= c < |t.calls| ensures Placed(t, c) && (t.calls[c].produced ==> c in UsedCalls(t.uses)) {
      if c < |s.calls| {
        assert Placed(s, c) && Debts(s, c) == 1;
      }
      PlaceKept(s, step, c);
      if t.calls[c].produced {
        ProducedIsUsed(s, step, c);
      }
    }
    WorkingIsUsed(s, step);
  }

  lemma StepKeepsSound(s: System, step: Step)
    requires Sound(s) && Enabled(s, step)
    ensures Sound(Next(s, step))
  {
    StepKeepsTable(s, step);
    StepKeepsCarried(s, step);
    StepKeepsOneOutcome(s, step);
    StepKeepsOneError(s, step);
    StepKeepsPublished(s, step);
    StepKeepsEnded(s, step);
    StepKeepsPackets(s, step);
    StepKeepsAllSent(s, step);
    StepKeepsBlamed(s, step);
    StepKeepsReclaimed(s, step);
    StepKeepsSettled(s, step);
    StepKeepsWords(s, step);
  }

  // ---------------------------------------------------------------- theorems over whole runs

  /** Every state of every interleaving satisfies all of the above. */
  lemma {:induction false} RunIsSound(states: seq<System>, i: nat)
    requires IsRun(states) && i < |states|
    ensures Sound(states[i])
  {
    if i > 0 {
      RunIsSound(states, i - 1);
      assert Follows(states[i - 1], states[i - 1 + 1]);
      var step :| Enabled(states[i - 1], step) && states[i] == Next(states[i - 1], step);
      StepKeepsSound(states[i - 1], step);
    }
  }

  /** A response channel never receives two outcomes. */
  lemma AtMostOneOutcome(states: seq<System>, i: nat, c: Call)
    requires IsRun(states) && i < |states| && c < |states[i].calls|
    ensures |states[i].calls[c].responses| <= 1
  {
    RunIsSound(states, i);
    assert Debts(states[i], c) == 1;
  }

  /** Once its packet has been used and the worker is done with it, or once the control is
      terminated, a call that owes no callback or claim has exactly one outcome. */
  lemma ExactlyOneOutcome(states: seq<System>, i: nat, c: Call)
    requires IsRun(states) && i < |states| && c < |states[i].calls|
    requires var s := states[i];
             && s.calls[c].stage.Sent? && s.calls[c].cancelling.None? && !ClaimedFor(s, c)
             && (s.control.terminal.Some? || (c in UsedCalls(s.uses) && !Holds(s, c)))
    ensures |states[i].calls[c].responses| == 1
  {
    var s := states[i];
    RunIsSound(states, i);
    assert Debts(s, c) == 1;
    if c in UsedCalls(s.uses) {
      var k :| 0 <= k < |s.uses| && UsedCalls(s.uses)[k] == c;
      assert s.uses[k].call == c;
    }
  }

  /** When the worker has finished, every call made has exactly one outcome: no callback is on
      its way any more, and no reader ever finds its channel closed and empty. */
  lemma FinishedAnswersEveryCall(states: seq<System>, i: nat, c: Call)
    requires IsRun(states) && i < |states| && c < |states[i].calls|
    requires states[i].worker.Finished?
    ensures |states[i].calls[c].responses| == 1
  {
    RunIsSound(states, i);
    ExactlyOneOutcome(states, i, c);
  }

  lemma {:induction false} TerminalIsSticky(states: seq<System>, i: nat, j: nat)
    requires IsRun(states) && i <= j < |states| && states[i].control.terminal.Some?
    ensures states[j].control.terminal == states[i].control.terminal
  {
    if i < j {
      TerminalIsSticky(states, i, j - 1);
      assert Follows(states[j - 1], states[j - 1 + 1]);
    }
  }

  /** All cancelled and late calls, at any two moments of a run, receive one and the same error. */
  lemma OneErrorForAll(states: seq<System>, i: nat, j: nat, c: Call, d: Call)
    requires IsRun(states) && i <= j < |states| && c < |states[i].calls| && d < |states[j].calls|
    requires states[i].calls[c].responses != [] && states[i].calls[c].responses[0].Error?
    requires states[j].calls[d].responses != [] && states[j].calls[d].responses[0].Error?
    ensures states[i].calls[c].responses[0] == states[j].calls[d].responses[0]
    ensures states[i].control.terminal == Some(states[i].calls[c].responses[0].error)
  {
    RunIsSound(states, i);
    RunIsSound(states, j);
    assert Tells(states[i].control.terminal, states[i].calls[c]);
    TerminalIsSticky(states, i, j);
    assert Tells(states[j].control.terminal, states[j].calls[d]);
  }

  /** After the end nothing is pending, in the state where it happens and ever after. */
  lemma NothingPendingAfterEnd(states: seq<System>, i: nat, j: nat)
    requires IsRun(states) && i <= j < |states| && states[i].control.terminal.Some?
    ensures states[j].control.pending == map[]
  {
    TerminalIsSticky(states, i, j);
    RunIsSound(states, j);
  }

  /** Packets reach their callback in the order they were sent, each at most once. */
  lemma PacketsInOrder(states: seq<System>, i: nat)
    requires IsRun(states) && i < |states|
    ensures UsedCalls(states[i].uses) <= states[i].sent
    ensures forall a, b :: 0 <= a < b < |states[i].uses| ==> states[i].uses[a].call != states[i].uses[b].call
    ensures states[i].worker.Finished? ==> UsedCalls(states[i].uses) == states[i].sent
    ensures states[i].worker.Finished? ==> forall c :: 0 <= c < |states[i].calls| ==> c in UsedCalls(states[i].uses)
  {
    var s := states[i];
    RunIsSound(states, i);
    assert s.sent == UsedCalls(s.uses) + (InHand(s.worker) + QueuedCalls(s.queue));
    forall a, b | 0 <= a < b < |s.uses| ensures s.uses[a].call != s.uses[b].call {
      assert s.sent[a] == s.uses[a].call && s.sent[b] == s.uses[b].call;
    }
  }

  /** Once the control is terminated, every packet used from then on is only reclaimed; and
      packets are only reclaimed once it is. */
  lemma {:induction false} OnlyReclaimAfterEnd(states: seq<System>, i: nat, j: nat)
    requires IsRun(states) && i <= j < |states| && states[i].control.terminal.Some?
    ensures states[i].uses <= states[j].uses
    ensures forall k :: |states[i].uses| <= k < |states[j].uses| ==> states[j].uses[k].mode.Reclaim?
  {
    if i < j {
      OnlyReclaimAfterEnd(states, i, j - 1);
      TerminalIsSticky(states, i, j - 1);
      assert Follows(states[j - 1], states[j - 1 + 1]);
    }
  }

  lemma ReclaimNeedsEnd(states: seq<System>, i: nat, k: nat)
    requires IsRun(states) && i < |states| && k < |states[i].uses| && states[i].uses[k].mode.Reclaim?
    ensures states[i].control.terminal.Some?
  {
    RunIsSound(states, i);
  }

  /** A result word is never lost or duplicated: as long as the worker is done with the call and
      its reader is gone, it was handed to one await or released, exactly once. */
  lemma WordHandedOrReleasedOnce(states: seq<System>, i: nat, c: Call)
    requires IsRun(states) && i < |states| && c < |states[i].calls|
    ensures var r := states[i].calls[c];
            && r.handed + r.released <= 1
            && (r.handed + r.released == 1 ==> r.produced)
            && (r.produced && r.reader.Gone? && !WithWorker(states[i], c) ==> r.handed + r.released == 1)
  {
    RunIsSound(states, i);
    assert Placed(states[i], c);
  }

  /** The actor's state is released exactly once when the worker finishes and never before, which
      is after the handle is gone, the queue is drained and every packet was given back. */
  lemma StateReleasedLast(states: seq<System>, i: nat)
    requires IsRun(states) && i < |states|
    ensures states[i].stateReleases == if states[i].worker.Finished? then 1 else 0
    ensures states[i].stateReleases == 1 ==>
              states[i].owner.Left? && states[i].queue == [] && UsedCalls(states[i].uses) == states[i].sent
  {
    RunIsSound(states, i);
    PacketsInOrder(states, i);
  }
}
