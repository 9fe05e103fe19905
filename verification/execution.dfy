/** The pending failure of an execution, cleanup scopes and nested embedded executions. */
module Executions {

  import opened Prelude

  const CANCELLED := "execution cancelled"

  /** What generated code does with these slots.  A poll carries the answers of the embedder's
      probe and of the remote control at that moment; scopes are well bracketed. */
  datatype Event =
    | Raise(message: string)
    | Poll(probeSays: bool, controlError: Option<string>)
    | Cleanup(body: seq<Event>)
    | Embed(body: seq<Event>)

  /** The slots of one thread or coroutine. */
  class Execution {
    var failure: Option<string>
    var cleanups: seq<Option<string>>
    var embedded: bool

    constructor ()
      ensures failure == None && cleanups == [] && !embedded
    {
      failure, cleanups, embedded := None, [], false;
    }

    /** The first failure is kept. */
    method Fail(message: string)
      modifies this`failure
      ensures failure == old(failure).Or(Some(message))
      ensures failure == if old(failure).Some? then old(failure) else Some(message)
    {
      if failure.None? {
        failure := Some(message);
      }
    }

    method PollCancellation(probeSays: bool, controlError: Option<string>)
      modifies this`failure
      ensures failure == old(failure).Or(PollRaises(cleanups != [], embedded, probeSays, controlError))
      ensures old(failure).Some? || cleanups != [] ==> failure == old(failure)
      ensures old(failure).None? && cleanups == [] && embedded && probeSays ==> failure == Some(CANCELLED)
      ensures old(failure).None? && cleanups == [] && !(embedded && probeSays) ==> failure == controlError
    {
      var cleaning := cleanups != [];
      if !cleaning && embedded && probeSays {
        Fail(CANCELLED);
      }
      if !cleaning && controlError.Some? {
        Fail(controlError.value);
      }
    }

    method BeginCleanup()
      modifies this`failure, this`cleanups
      ensures failure == None && cleanups == old(cleanups) + [old(failure)]
    {
      cleanups := cleanups + [failure];
      failure := None;
    }

    /** Restores the failure the scope was entered with, if there was one. */
    method EndCleanup()
      modifies this`failure, this`cleanups
      ensures old(cleanups) == [] ==> cleanups == [] && failure == old(failure)
      ensures old(cleanups) != [] ==> cleanups == old(cleanups)[..|old(cleanups)| - 1]
      ensures old(cleanups) != [] ==> failure == old(cleanups)[|old(cleanups)| - 1].Or(old(failure))
    {
      if cleanups != [] {
        var pending := cleanups[|cleanups| - 1];
        cleanups := cleanups[..|cleanups| - 1];
        if pending.Some? {
          failure := pending;
        }
      }
    }

    /** Runs embedded work with empty slots, reports its failure and restores the slots. */
    method EmbeddedExecution(work: seq<Event>) returns (report: Option<string>, reports: seq<Option<string>>)
      modifies this
      ensures failure == old(failure) && cleanups == old(cleanups) && embedded == old(embedded)
      ensures report == FirstRaised(work, old(cleanups) != [], true)
      ensures reports == Reports(work, old(cleanups) != [])
      decreases work, 1
    {
      var savedEmbedded, savedFailure := embedded, failure;
      embedded, failure := true, None;
      reports := Run(work);
      report := failure;
      embedded, failure := savedEmbedded, savedFailure;
    }

    /** Any well-bracketed trace: the failure pending at the end is the initial one if there was
        one, else the first one raised; the scopes are as before. */
    method Run(events: seq<Event>) returns (reports: seq<Option<string>>)
      modifies this
      ensures failure == old(failure).Or(FirstRaised(events, old(cleanups) != [], old(embedded)))
      ensures cleanups == old(cleanups) && embedded == old(embedded)
      ensures reports == Reports(events, old(cleanups) != [])
      decreases events, 0
    {
      reports := [];
      for i := 0 to |events|
        invariant failure == old(failure).Or(FirstRaised(events[..i], old(cleanups) != [], old(embedded)))
        invariant cleanups == old(cleanups) && embedded == old(embedded)
        invariant reports == Reports(events[..i], old(cleanups) != [])
      {
        OneMore(events, i, cleanups != [], embedded);
        match events[i] {
          case Raise(message) => Fail(message);
          case Poll(probeSays, controlError) => PollCancellation(probeSays, controlError);
          case Cleanup(body) =>
            BeginCleanup();
            var inner := Run(body);
            EndCleanup();
            reports := reports + inner;
          case Embed(body) =>
            var report, inner := EmbeddedExecution(body);
            reports := reports + inner + [report];
        }
      }
      assert events[..|events|] == events;
    }
  }

  /** What a poll raises; nothing inside a cleanup scope. */
  function PollRaises(cleaning: bool, embedded: bool, probeSays: bool, controlError: Option<string>): Option<string> {
    if cleaning then None else if embedded && probeSays then Some(CANCELLED) else controlError
  }

  function RaisedBy(event: Event, cleaning: bool, embedded: bool): Option<string>
    decreases event
  {
    match event
    case Raise(message) => Some(message)
    case Poll(probeSays, controlError) => PollRaises(cleaning, embedded, probeSays, controlError)
    case Cleanup(body) => FirstRaised(body, true, embedded)
    case Embed(_) => None
  }

  /** The first failure raised in trace order, cleanup scopes included and nested embedded
      executions left out. */
  function FirstRaised(events: seq<Event>, cleaning: bool, embedded: bool): Option<string>
    decreases events
  {
    if events == [] then None
    else RaisedBy(events[0], cleaning, embedded).Or(FirstRaised(events[1..], cleaning, embedded))
  }

  function ReportsOf(event: Event, cleaning: bool): seq<Option<string>>
    decreases event
  {
    match event
    case Cleanup(body) => Reports(body, true)
    case Embed(body) => Reports(body, cleaning) + [FirstRaised(body, cleaning, true)]
    case _ => []
  }

  /** What embedded executions report, in the order in which they end: each its own first failure. */
  function Reports(events: seq<Event>, cleaning: bool): seq<Option<string>>
    decreases events
  {
    if events == [] then [] else ReportsOf(events[0], cleaning) + Reports(events[1..], cleaning)
  }

  lemma {:induction false} RaisedConcat(a: seq<Event>, b: seq<Event>, cleaning: bool, embedded: bool)
    ensures FirstRaised(a + b, cleaning, embedded) ==
            FirstRaised(a, cleaning, embedded).Or(FirstRaised(b, cleaning, embedded))
  {
    if a == [] {
      assert a + b == b;
    } else {
      assert (a + b)[1..] == a[1..] + b && (a + b)[0] == a[0];
      RaisedConcat(a[1..], b, cleaning, embedded);
    }
  }

  lemma {:induction false} ReportsConcat(a: seq<Event>, b: seq<Event>, cleaning: bool)
    ensures Reports(a + b, cleaning) == Reports(a, cleaning) + Reports(b, cleaning)
  {
    if a == [] {
      assert a + b == b;
    } else {
      assert (a + b)[1..] == a[1..] + b && (a + b)[0] == a[0];
      ReportsConcat(a[1..], b, cleaning);
    }
  }

  lemma OneMore(events: seq<Event>, i: nat, cleaning: bool, embedded: bool)
    requires i < |events|
    ensures FirstRaised(events[..i + 1], cleaning, embedded) ==
            FirstRaised(events[..i], cleaning, embedded).Or(RaisedBy(events[i], cleaning, embedded))
    ensures Reports(events[..i + 1], cleaning) == Reports(events[..i], cleaning) + ReportsOf(events[i], cleaning)
  {
    assert events[..i + 1] == events[..i] + [events[i]];
    RaisedConcat(events[..i], [events[i]], cleaning, embedded);
    ReportsConcat(events[..i], [events[i]], cleaning);
    assert [events[i]][1..] == [];
  }

  // ---------------------------------------------------------------- which traces raise what

  /** Nothing in the trace raises: no event fails by itself at any depth of cleanup, and no poll
      outside cleanup finds a cancellation, be it the embedder's or the control's. */
  predicate Silent(events: seq<Event>, cleaning: bool, embedded: bool)
    decreases events
  {
    forall e :: e in events ==> SilentEvent(e, cleaning, embedded)
  }

  predicate SilentEvent(event: Event, cleaning: bool, embedded: bool)
    decreases event
  {
    match event
    case Raise(_) => false
    case Poll(probeSays, controlError) => cleaning || (!(embedded && probeSays) && controlError.None?)
    case Cleanup(body) => Silent(body, true, embedded)
    case Embed(_) => true
  }

  /** A trace leaves no failure exactly when nothing in it raises. */
  lemma {:induction false} NoFailureIsSilence(events: seq<Event>, cleaning: bool, embedded: bool)
    ensures FirstRaised(events, cleaning, embedded) == None <==> Silent(events, cleaning, embedded)
    decreases events
  {
    if events != [] {
      NoFailureIsSilence(events[1..], cleaning, embedded);
      if events[0].Cleanup? {
        NoFailureIsSilence(events[0].body, true, embedded);
      }
      assert events[0] in events && forall e :: e in events ==> e == events[0] || e in events[1..];
      assert SilentEvent(events[0], cleaning, embedded) <==> RaisedBy(events[0], cleaning, embedded) == None;
    }
  }

  /** The event at i is the first to raise, and its message is this one. */
  predicate RaisesFirst(events: seq<Event>, i: nat, cleaning: bool, embedded: bool, message: string)
    requires i < |events|
  {
    Silent(events[..i], cleaning, embedded) && Raises(events[i], cleaning, embedded, message)
  }

  predicate Raises(event: Event, cleaning: bool, embedded: bool, message: string) {
    match event
    case Raise(m) => m == message
    case Poll(probeSays, controlError) =>
      !cleaning && (if embedded && probeSays then message == CANCELLED else controlError == Some(message))
    case Cleanup(body) => FirstRaised(body, true, embedded) == Some(message)
    case Embed(_) => false
  }

  /** A trace leaves a failure exactly when some event raises it and nothing before it raises;
      inside a cleanup scope the same holds for the scope's own trace. */
  lemma FailureHasAnOrigin(events: seq<Event>, cleaning: bool, embedded: bool, message: string)
    ensures FirstRaised(events, cleaning, embedded) == Some(message) <==>
            exists i :: 0 <= i < |events| && RaisesFirst(events, i, cleaning, embedded, message)
  {
    if i :| 0 <= i < |events| && RaisesFirst(events, i, cleaning, embedded, message) {
      FirstAfterSilence(events, i, cleaning, embedded);
    }
    if FirstRaised(events, cleaning, embedded) == Some(message) {
      var i := FirstLoud(events, cleaning, embedded);
      FirstAfterSilence(events, i, cleaning, embedded);
      assert RaisesFirst(events, i, cleaning, embedded, message);
    }
  }

  lemma {:induction false} FirstLoud(events: seq<Event>, cleaning: bool, embedded: bool) returns (i: nat)
    requires FirstRaised(events, cleaning, embedded).Some?
    ensures i < |events| && Silent(events[..i], cleaning, embedded) && RaisedBy(events[i], cleaning, embedded).Some?
  {
    if RaisedBy(events[0], cleaning, embedded).Some? {
      i := 0;
    } else {
      i := FirstLoud(events[1..], cleaning, embedded);
      i := i + 1;
      assert events[..i] == [events[0]] + events[1..][..i - 1];
      NoFailureIsSilence(events[1..][..i - 1], cleaning, embedded);
      NoFailureIsSilence(events[..i], cleaning, embedded);
    }
  }

  lemma FirstAfterSilence(events: seq<Event>, i: nat, cleaning: bool, embedded: bool)
    requires i < |events| && Silent(events[..i], cleaning, embedded)
    ensures RaisedBy(events[i], cleaning, embedded).Some? ==>
              FirstRaised(events, cleaning, embedded) == RaisedBy(events[i], cleaning, embedded)
  {
    NoFailureIsSilence(events[..i], cleaning, embedded);
    assert events == events[..i] + ([events[i]] + events[i + 1..]);
    RaisedConcat(events[..i], [events[i]] + events[i + 1..], cleaning, embedded);
  }

  /** How many embedded executions a trace holds, nested ones included. */
  function Embedded(events: seq<Event>): nat
    decreases events
  {
    if events == [] then 0
    else
      match events[0]
      case Cleanup(body) => Embedded(body) + Embedded(events[1..])
      case Embed(body) => 1 + Embedded(body) + Embedded(events[1..])
      case _ => Embedded(events[1..])
  }

  /** Every embedded execution reports exactly once. */
  lemma {:induction false} OneReportEach(events: seq<Event>, cleaning: bool)
    ensures |Reports(events, cleaning)| == Embedded(events)
    decreases events
  {
    if events != [] {
      OneReportEach(events[1..], cleaning);
      match events[0] {
        case Cleanup(body) => OneReportEach(body, true);
        case Embed(body) => OneReportEach(body, cleaning);
        case _ =>
      }
    }
  }

  // ---------------------------------------------------------------- cancellation and cleanup

  predicate NeverRaises(events: seq<Event>)
    decreases events
  {
    events == [] || (QuietEvent(events[0]) && NeverRaises(events[1..]))
  }

  predicate QuietEvent(event: Event)
    decreases event
  {
    match event
    case Raise(_) => false
    case Cleanup(body) => NeverRaises(body)
    case _ => true
  }

  /** A trace is silent in every cleanup scope exactly when nothing in it raises by itself:
      cancellation is never discovered there, not even by an embedded execution. */
  lemma {:induction false} CleanupSeesNoCancellation(events: seq<Event>, embedded: bool)
    ensures FirstRaised(events, true, embedded) == None <==> NeverRaises(events)
    decreases events
  {
    if events != [] {
      CleanupSeesNoCancellation(events[1..], embedded);
      if events[0].Cleanup? {
        CleanupSeesNoCancellation(events[0].body, embedded);
      }
    }
  }

  /** A cleanup scope entered with a failure pending cannot replace it, and one entered
      without lets its own first failure through. */
  lemma CleanupKeepsOriginal(before: seq<Event>, body: seq<Event>, after: seq<Event>, embedded: bool)
    ensures FirstRaised(before + [Cleanup(body)] + after, false, embedded) ==
            FirstRaised(before, false, embedded)
            .Or(FirstRaised(body, true, embedded))
            .Or(FirstRaised(after, false, embedded))
  {
    RaisedConcat(before + [Cleanup(body)], after, false, embedded);
    RaisedConcat(before, [Cleanup(body)], false, embedded);
    assert [Cleanup(body)][1..] == [];
  }
}
