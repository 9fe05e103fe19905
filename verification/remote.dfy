/** Backend-independent request control: the table of pending requests and its sticky end. */
module Remote {

  import opened Prelude

  datatype RemoteError = Shutdown | Failed(message: string)

  type Call = nat

  /** What the lifecycle lock protects; a pending entry stands for the cancellation callback of a call. */
  datatype Lifecycle = Lifecycle(terminal: Option<RemoteError>, next: nat, pending: map<nat, Call>) {

    function Registered(call: Call): Lifecycle {
      if terminal.Some? then this else Lifecycle(terminal, next + 1, pending[next := call])
    }

    function Completed(id: nat): Lifecycle {
      this.(pending := pending - {id})
    }

    function Terminated(error: RemoteError): Lifecycle {
      if terminal.Some? then this else Lifecycle(Some(error), next, map[])
    }

    /** Identities are never reused, and nothing is pending after the end. */
    predicate Valid() {
      && (forall id :: id in pending ==> id < next)
      && (terminal.Some? ==> pending == map[])
    }
  }

  class Control {
    var terminal: Option<RemoteError>
    var next: nat
    var pending: map<nat, Call>

    ghost function View(): Lifecycle
      reads this
    {
      Lifecycle(terminal, next, pending)
    }

    constructor ()
      ensures View() == Lifecycle(None, 0, map[])
    {
      terminal, next, pending := None, 0, map[];
    }

    /** Without an identity the caller must run its callback with the returned error, unlocked. */
    method Register(call: Call) returns (id: Option<nat>, refusal: Option<RemoteError>)
      requires View().Valid()
      modifies this
      ensures View() == old(View()).Registered(call) && View().Valid()
      ensures refusal == old(terminal) && terminal == old(terminal)
      ensures pending == if old(terminal).Some? then old(pending) else old(pending)[old(next) := call]
      ensures next == if old(terminal).Some? then old(next) else old(next) + 1
      ensures id == if old(terminal).Some? then None else Some(old(next))
      ensures id.Some? ==> id.value !in old(pending) && id.value in pending && pending[id.value] == call
    {
      if terminal.Some? {
        return None, terminal;
      }
      id, refusal := Some(next), None;
      pending := pending[next := call];
      next := next + 1;
    }

    /** Reserves the sole successful completion of a request. */
    method Complete(id: nat) returns (won: bool)
      requires View().Valid()
      modifies this
      ensures View() == old(View()).Completed(id) && View().Valid()
      ensures won <==> id in old(pending)
      ensures pending == old(pending) - {id} && terminal == old(terminal) && next == old(next)
    {
      won := id in pending;
      pending := pending - {id};
    }

    method HasPending() returns (some: bool)
      ensures some <==> exists id :: id in pending
    {
      some := pending != map[];
      if some {
        assert pending.Keys != {};
        var id :| id in pending.Keys;
      }
    }

    method Error() returns (error: Option<RemoteError>)
      ensures error == terminal
    {
      error := terminal;
    }

    /** Only the first end counts; it takes the whole table, whose callbacks run unlocked. */
    method Terminate(error: RemoteError) returns (taken: map<nat, Call>)
      requires View().Valid()
      modifies this
      ensures View() == old(View()).Terminated(error) && View().Valid()
      ensures taken == if old(terminal).Some? then map[] else old(pending)
      ensures terminal == if old(terminal).Some? then old(terminal) else Some(error)
      ensures pending == map[] && next == old(next)
    {
      if terminal.Some? {
        return map[];
      }
      terminal := Some(error);
      taken := pending;
      pending := map[];
    }
  }
}
