/** The queue of a callback token: producers on any thread, one owner that polls and releases. */
module Callbacks {

  import opened Prelude

  const LIMIT: nat := 16 * 1024 * 1024
  const MAX_EVENTS: nat := 4096
  const FULL := "callback queue capacity exceeded"

  type Payload = seq<bv8>

  function Size(events: seq<Payload>): nat {
    if events == [] then 0 else |events[0]| + Size(events[1..])
  }

  lemma {:induction false} SizeConcat(a: seq<Payload>, b: seq<Payload>)
    ensures Size(a + b) == Size(a) + Size(b)
  {
    if a == [] {
      assert a + b == b;
    } else {
      assert (a + b)[1..] == a[1..] + b && (a + b)[0] == a[0];
      SizeConcat(a[1..], b);
    }
  }

  // ---------------------------------------------------------------- one lock section at a time

  /** The locked state and the fate of every event accepted so far. */
  datatype Queue = Queue(
    closed: bool, bytes: int, events: seq<Payload>, error: Option<string>,
    accepted: seq<Payload>, taken: seq<Payload>, discarded: seq<Payload>)

  const EMPTY := Queue(false, 0, [], None, [], [], [])

  /** The sections in which threads hold the lock, in any order and by any thread. */
  datatype Section =
    | Enqueue(payload: Payload)
    | Fail(message: string)
    | Poll
    | TakeError
    | Release

  predicate Fits(q: Queue, payload: Payload) {
    |q.events| < MAX_EVENTS && |payload| <= LIMIT - q.bytes
  }

  /** What one section does to the queue. */
  function Apply(q: Queue, s: Section): Queue {
    match s
    case Enqueue(p) =>
      if q.closed then q
      else if !Fits(q, p) then q.(error := q.error.Or(Some(FULL)))
      else q.(bytes := q.bytes + |p|, events := q.events + [p], accepted := q.accepted + [p])
    case Fail(m) => q.(error := q.error.Or(Some(m)))
    case Poll =>
      if q.closed then q
      else if q.error.Some? then q.(error := None)
      else q.(bytes := 0, events := [], taken := q.taken + q.events)
    case TakeError => if q.closed then q else q.(error := None)
    case Release =>
      if q.closed then q
      else q.(closed := true, bytes := 0, events := [], discarded := q.events)
  }

  function ApplyAll(q: Queue, run: seq<Section>): Queue {
    if run == [] then q else Apply(ApplyAll(q, run[..|run| - 1]), run[|run| - 1])
  }

  /** The byte counter is exact and bounded, a closed queue is empty, and every accepted event
      is, in order, taken by a poll, discarded by the closing release, or still queued. */
  predicate Sound(q: Queue) {
    && q.bytes == Size(q.events) && q.bytes <= LIMIT && |q.events| <= MAX_EVENTS
    && (q.closed ==> q.events == [])
    && (!q.closed ==> q.discarded == [])
    && q.accepted == q.taken + q.discarded + q.events
  }

  lemma SectionKeepsSound(q: Queue, s: Section)
    requires Sound(q)
    ensures Sound(Apply(q, s))
  {
    match s {
      case Enqueue(p) =>
        SizeConcat(q.events, [p]);
        assert [p][1..] == [];
        assert (q.taken + q.discarded + q.events) + [p] == q.taken + q.discarded + (q.events + [p]);
      case _ =>
        assert q.taken + q.discarded + [] == q.taken + q.discarded;
    }
  }

  /** Whatever the interleaving of producers, polls and releases. */
  lemma {:induction false} EveryRunIsSound(run: seq<Section>)
    ensures Sound(ApplyAll(EMPTY, run))
  {
    if run != [] {
      EveryRunIsSound(run[..|run| - 1]);
      SectionKeepsSound(ApplyAll(EMPTY, run[..|run| - 1]), run[|run| - 1]);
    }
  }

  /** Once closed, nothing is accepted, taken or discarded any more. */
  lemma {:induction false} ClosedIsFinal(q: Queue, run: seq<Section>)
    requires Sound(q) && q.closed
    ensures var r := ApplyAll(q, run);
            && r.closed && r.events == [] && r.bytes == 0
            && r.accepted == q.accepted && r.taken == q.taken && r.discarded == q.discarded
  {
    if run != [] {
      ClosedIsFinal(q, run[..|run| - 1]);
    }
  }

  lemma SectionExtends(q: Queue, s: Section)
    ensures q.taken <= Apply(q, s).taken && q.accepted <= Apply(q, s).accepted
  {
  }

  /** What polls have taken only grows, and always is a prefix of what was accepted until the
      release: each event is taken by at most one poll, in acceptance order. */
  lemma {:induction false} TakenInOrder(run: seq<Section>, n: nat)
    requires n <= |run|
    ensures ApplyAll(EMPTY, run[..n]).taken <= ApplyAll(EMPTY, run).taken <= ApplyAll(EMPTY, run).accepted
    ensures ApplyAll(EMPTY, run[..n]).accepted <= ApplyAll(EMPTY, run).accepted
    decreases |run|
  {
    EveryRunIsSound(run);
    var last := ApplyAll(EMPTY, run);
    assert last.accepted == last.taken + (last.discarded + last.events);
    if n == |run| {
      assert run[..n] == run;
    } else {
      var shorter := run[..|run| - 1];
      assert shorter[..n] == run[..n];
      TakenInOrder(shorter, n);
      SectionExtends(ApplyAll(EMPTY, shorter), run[|run| - 1]);
    }
  }

  // ---------------------------------------------------------------- the signal

  /** The state behind the lock of one queued callback. */
  class Signal {
    const signature: nat
    var closed: bool
    var bytes: int
    var events: seq<Payload>
    var error: Option<string>
    ghost var accepted: seq<Payload>
    ghost var taken: seq<Payload>
    ghost var discarded: seq<Payload>

    ghost function View(): Queue
      reads this
    {
      Queue(closed, bytes, events, error, accepted, taken, discarded)
    }

    constructor (signature: nat)
      ensures View() == EMPTY && this.signature == signature
    {
      this.signature := signature;
      closed, bytes, events, error := false, 0, [], None;
      accepted, taken, discarded := [], [], [];
    }

    method Fail(message: string)
      modifies this
      ensures View() == Apply(old(View()), Section.Fail(message))
      ensures error == if old(error).Some? then old(error) else Some(message)
      ensures unchanged(`closed, `bytes, `events, `accepted, `taken, `discarded)
    {
      if error.None? {
        error := Some(message);
      }
    }

    /** The queued path of `invoke`, under the lock. */
    method Enqueue(payload: Payload) returns (status: int)
      requires Sound(View())
      modifies this
      ensures View() == Apply(old(View()), Section.Enqueue(payload)) && Sound(View())
      ensures status == 0 <==> !old(closed) && |old(events)| < 4096 && Size(old(events)) + |payload| <= 16 * 1024 * 1024
      ensures status == 0 ==> events == old(events) + [payload] && accepted == old(accepted) + [payload] && error == old(error)
      ensures status != 0 ==> status == 1 && events == old(events) && accepted == old(accepted)
      ensures status != 0 ==> error == if old(closed) || old(error).Some? then old(error) else Some(FULL)
      ensures unchanged(`closed, `taken, `discarded)
    {
      SectionKeepsSound(View(), Section.Enqueue(payload));
      if closed {
        return 1;
      }
      if |events| >= MAX_EVENTS || |payload| > LIMIT - bytes {
        if error.None? {
          error := Some(FULL);
        }
        return 1;
      }
      bytes := bytes + |payload|;
      events := events + [payload];
      accepted := accepted + [payload];
      return 0;
    }

    /** `invoke` up to the queue: a mismatch or a bad packet is recorded, a liveness probe
        answers zero exactly while the queue is open. */
    method Invoke(signature: nat, length: nat, capacity: nat, payload: Payload) returns (status: int)
      requires Sound(View()) && (length <= LIMIT ==> |payload| == length)
      modifies this
      ensures Sound(View())
      ensures signature != this.signature ==> status == 1 && View() == Apply(old(View()), Section.Fail(MISMATCH))
      ensures signature == this.signature && length == PROBE ==> View() == old(View()) && (status == 0 <==> !closed)
      ensures signature == this.signature && old(closed) ==> status == 1 && View() == old(View())
      ensures signature == this.signature && !old(closed) && length <= LIMIT && capacity <= LIMIT ==>
                View() == Apply(old(View()), Section.Enqueue(payload))
      ensures signature == this.signature && !old(closed) && length == PROBE - 1 ==>
                status == 1 && View() == Apply(old(View()), Section.Fail(RANGE))
      ensures signature == this.signature && !old(closed) && length < PROBE - 1 && (length > LIMIT || capacity > LIMIT) ==>
                status == 1 && View() == Apply(old(View()), Section.Fail(PACKET))
      ensures status == 0 && length != PROBE ==> accepted == old(accepted) + [payload]
    {
      if signature != this.signature {
        SectionKeepsSound(View(), Section.Fail(MISMATCH));
        Fail(MISMATCH);
        return 1;
      }
      if closed {
        return 1;
      }
      if length == PROBE {
        return 0;
      }
      var problem := if length == PROBE - 1 then RANGE else PACKET;
      if length > LIMIT || capacity > LIMIT {
        SectionKeepsSound(View(), Section.Fail(problem));
        Fail(problem);
        return 1;
      }
      status := Enqueue(payload);
    }

    /** Takes the pending error, or else a snapshot of the queue. */
    method Poll() returns (failure: Option<string>, snapshot: seq<Payload>)
      requires Sound(View()) && !closed
      modifies this
      ensures View() == Apply(old(View()), Section.Poll) && Sound(View())
      ensures failure == old(error)
      ensures taken == old(taken) + snapshot && error == None
      ensures failure.None? ==> snapshot == old(events) && events == []
      ensures failure.Some? ==> snapshot == [] && events == old(events)
      ensures unchanged(`closed, `accepted, `discarded)
    {
      SectionKeepsSound(View(), Section.Poll);
      if error.Some? {
        failure, snapshot, error := error, [], None;
        return;
      }
      failure, snapshot := None, events;
      bytes, events := 0, [];
      taken := taken + snapshot;
    }

    method TakeError() returns (failure: Option<string>)
      requires Sound(View()) && !closed
      modifies this
      ensures View() == Apply(old(View()), Section.TakeError) && Sound(View())
      ensures failure == old(error) && error == None
      ensures unchanged(`closed, `bytes, `events, `accepted, `taken, `discarded)
    {
      SectionKeepsSound(View(), Section.TakeError);
      failure, error := error, None;
    }

    /** Refused while the handler is running; else closes and discards what was still queued. */
    method Release(active: bool) returns (released: bool)
      requires Sound(View()) && !closed
      modifies this
      ensures released <==> !active
      ensures View() == (if released then Apply(old(View()), Section.Release) else old(View())) && Sound(View())
      ensures released ==> closed && events == [] && discarded == old(events) && unchanged(`accepted, `taken, `error)
      ensures !released ==> !closed && events == old(events)
    {
      if active {
        return false;
      }
      released := true;
      SectionKeepsSound(View(), Section.Release);
      discarded := events;
      closed, events, bytes := true, [], 0;
    }
  }

  const MISMATCH := "callback signature mismatch"
  const RANGE := "callback result is outside its declared C type"
  const PACKET := "invalid callback packet"
  const PROBE: nat := 0xffff_ffff_ffff_ffff
}
