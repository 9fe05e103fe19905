/** The host's registries and call stack, updated in place; every operation is one step of the
    ownership model. */
module ForeignHost {
  import opened Prelude
  import opened Foreign

  datatype Refusal = NoCall | SchemaMismatch | Closed | InUse | WrongKind | Retained | Unchecked | Unsupported | Transferred

  datatype Answer = Ok | Err(refusal: Refusal)

  class Host {
    var cells: seq<Resource>
    var registry: set<Id>
    var frames: seq<Frame>
    var closing: seq<Id>
    var log: seq<Ending>
    const forgetting: set<nat>

    function View(): World
      reads this
    {
      World(cells, registry, frames, closing, log, forgetting)
    }

    /** Every registered token names an adopted resource; part of what `Sound` says. */
    predicate Registered()
      reads this
    {
      forall id :: id in registry ==> id < |cells|
    }

    constructor (forgetting: set<nat>)
      ensures View() == Start(forgetting)
    {
      this.forgetting := forgetting;
      cells, registry, frames, closing, log := [], {}, [], [], [];
    }

    /** `ResourceLease::acquire`. */
    method Acquire(id: Id) returns (ok: bool)
      modifies this`cells
      ensures ok <==> Leasable(old(View()), id)
      ensures View() == if ok then SetLeased(old(View()), id, true) else old(View())
    {
      ok := id < |cells| && !cells[id].leased && cells[id].live;
      if ok {
        cells := cells[id := cells[id].(leased := true)];
      }
    }

    /** `ResourceFrameGuard::new` with the lookup before it. */
    method BeginCall(library: nat, receiver: Option<Id>) returns (answer: Answer)
      modifies this
      ensures View() == Next(old(View()), Step.BeginCall(library, receiver))
      ensures receiver.None? ==>
                answer.Ok? && frames == old(frames) + [Frame(library, None, [], {}, {})] && cells == old(cells)
      ensures receiver.Some? ==>
                (answer.Ok? <==> receiver.value in registry && receiver.value !in closing && receiver.value < |cells|
                                 && !old(cells)[receiver.value].leased && old(cells)[receiver.value].live)
      ensures receiver.Some? && answer.Ok? ==>
                && frames == old(frames) + [Frame(old(cells)[receiver.value].library, receiver, [receiver.value], {}, {})]
                && cells == old(cells)[receiver.value := old(cells)[receiver.value].(leased := true)]
      ensures answer.Err? ==> frames == old(frames) && cells == old(cells)
      ensures unchanged(`registry, `closing, `log)
    {
      if receiver.None? {
        frames := frames + [Frame(library, None, [], {}, {})];
        return Ok;
      }
      var id := receiver.value;
      if id !in registry {
        return Err(Closed);
      }
      if id in closing {
        return Err(InUse);
      }
      var leased := Acquire(id);
      if !leased {
        return Err(InUse);
      }
      frames := frames + [Frame(cells[id].library, receiver, [id], {}, {})];
      return Ok;
    }

    /** The lookup of `resolve_resource`: the resource must belong to the innermost call's bridge,
        and is leased on its first mention in the call. */
    method Lookup(schemaMatches: bool, id: Id, kind: nat) returns (answer: Answer)
      requires Registered()
      modifies this
      ensures answer.Ok? <==>
              Resolvable(old(View()), schemaMatches, id, kind) && (id in Top(old(View())).leases || Leasable(old(View()), id))
      ensures View() == if answer.Ok? then Leased(old(View()), id) else old(View())
      ensures answer.Ok? <==>
              && frames != [] && schemaMatches && id in registry && id !in closing
              && old(cells)[id].kind == kind && old(cells)[id].library == old(frames)[|frames| - 1].library && old(cells)[id].live
              && (id in old(frames)[|frames| - 1].leases || !old(cells)[id].leased)
      ensures answer.Ok? && id in old(frames)[|frames| - 1].leases ==> frames == old(frames) && cells == old(cells)
      ensures answer.Ok? && id !in old(frames)[|frames| - 1].leases ==>
                var f := old(frames)[|frames| - 1];
                && frames == old(frames)[|frames| - 1 := f.(leases := f.leases + [id])]
                && cells == old(cells)[id := old(cells)[id].(leased := true)]
      ensures unchanged(`registry, `closing, `log)
    {
      if frames == [] {
        return Err(NoCall);
      }
      if !schemaMatches {
        return Err(SchemaMismatch);
      }
      if id !in registry {
        return Err(Closed);
      }
      if id in closing {
        return Err(InUse);
      }
      if cells[id].kind != kind || cells[id].library != frames[|frames| - 1].library || !cells[id].live {
        return Err(WrongKind);
      }
      var top := |frames| - 1;
      if id !in frames[top].leases {
        var leased := Acquire(id);
        if !leased {
          return Err(InUse);
        }
        frames := frames[top := frames[top].(leases := frames[top].leases + [id])];
      }
      return Ok;
    }

    /** `resolve_resource`: looks a resource up for the innermost call, and retains it, reserves
        its transfer or commits it. */
    method Resolve(schemaMatches: bool, id: Id, kind: nat, action: Action) returns (answer: Answer)
      requires Registered()
      modifies this
      ensures View() == Next(old(View()), Step.Resolve(schemaMatches, id, kind, action))
      ensures answer.Ok? <==>
              && Resolvable(old(View()), schemaMatches, id, kind)
              && (id in Top(old(View())).leases || Leasable(old(View()), id))
              && Granted(Leased(old(View()), id), id, action)
      ensures answer.Ok? && action.Commit? ==> log == old(log) + [Forget(id)] && !cells[id].live
      ensures answer.Ok? && action.Reserve? ==> Unretained(View(), id) && log == old(log)
      ensures answer.Ok? && action.Retain? ==> frames != [] && id in frames[|frames| - 1].parents && log == old(log)
    {
      answer := Lookup(schemaMatches, id, kind);
      if answer.Ok? {
        answer := Act(id, action);
      }
    }

    /** What the request asks for, once the resource is leased. */
    method Act(id: Id, action: Action) returns (answer: Answer)
      requires frames != [] && id < |cells| && id in frames[|frames| - 1].leases && id in registry
      modifies this
      ensures View() == Acted(old(View()), id, action)
      ensures answer.Ok? <==> Granted(old(View()), id, action)
      ensures var f := old(frames)[|frames| - 1];
              answer.Ok? <==>
              match action
              case Look => true
              case Retain => id !in f.transfers
              case Reserve => Strong(old(View()), id) <= 2 && id !in f.parents && id !in f.transfers && f.library in forgetting
              case Commit => id in f.transfers && f.library in forgetting
      ensures |frames| == |old(frames)| && frames == old(frames)[|frames| - 1 := frames[|frames| - 1]]
      ensures var f, g := old(frames)[|frames| - 1], frames[|frames| - 1];
              && g.library == f.library && g.receiver == f.receiver && g.leases == f.leases
              && (answer.Ok? && action.Look? ==> g == f && cells == old(cells) && log == old(log))
              && (answer.Ok? && action.Retain? ==> id !in f.transfers && g.parents == f.parents + {id} && g.transfers == f.transfers)
              && (answer.Ok? && action.Reserve? ==>
                    && id !in f.parents && id !in f.transfers && f.library in forgetting
                    && g.parents == f.parents + {id} && g.transfers == f.transfers + {id} && Unretained(View(), id))
              && (answer.Ok? && action.Commit? ==>
                    && id in f.transfers && f.library in forgetting
                    && g.parents == f.parents && g.transfers == f.transfers - {id}
                    && cells == old(cells)[id := old(cells)[id].(live := false)] && log == old(log) + [Forget(id)])
      ensures answer.Err? || !action.Commit? ==> cells == old(cells) && log == old(log)
      ensures unchanged(`registry, `closing)
    {
      var top := |frames| - 1;
      var f := frames[top];
      match action {
        case Look =>
        case Retain =>
          if id in f.transfers {
            return Err(Retained);
          }
          frames := frames[top := f.(parents := f.parents + {id})];
        case Reserve =>
          if Strong(View(), id) > 2 || id in f.parents || id in f.transfers {
            return Err(Retained);
          }
          ReservedIsUnretained(View(), id);
          frames := frames[top := f.(transfers := f.transfers + {id})];
          if f.library !in forgetting {
            return Err(Unsupported);
          }
          frames := frames[top := frames[top].(parents := f.parents + {id})];
        case Commit =>
          if id !in f.transfers {
            return Err(Unchecked);
          }
          frames := frames[top := f.(transfers := f.transfers - {id})];
          if f.library !in forgetting {
            return Err(Unsupported);
          }
          log := log + [Forget(id)];
          cells := cells[id := cells[id].(live := false)];
      }
      return Ok;
    }

    /** Adoption of a created result, and the end of the call.  A result of a call that fails
        afterwards is adopted but not registered. */
    method EndCall(created: Option<nat>, accepted: bool) returns (token: Option<Id>)
      requires frames != []
      modifies this
      ensures View() == Next(old(View()), Step.EndCall(created, accepted))
      ensures token == if created.Some? && accepted then Some(|old(cells)|) else None
      ensures frames == old(frames)[..|old(frames)| - 1] && log == old(log) && closing == old(closing)
      ensures |cells| == |old(cells)| + if created.Some? then 1 else 0
      ensures forall i :: 0 <= i < |old(cells)| ==>
                cells[i] == if i in old(frames)[|old(frames)| - 1].leases then old(cells)[i].(leased := false) else old(cells)[i]
      ensures created.Some? ==>
                var f := old(frames)[|old(frames)| - 1];
                cells[|old(cells)|] == Resource(f.library, created.value, true, false, f.parents, false)
      ensures registry == if created.Some? && accepted then old(registry) + {|old(cells)|} else old(registry)
    {
      var f := frames[|frames| - 1];
      token := None;
      var adopted: seq<Resource> := [];
      if created.Some? {
        adopted := [Resource(f.library, created.value, true, false, f.parents, false)];
        if accepted {
          token := Some(|cells|);
          registry := registry + {|cells|};
        }
      }
      frames := frames[..|frames| - 1];
      cells := Unlease(cells, f.leases) + adopted;
    }

    method BeginClose(id: Id) returns (answer: Answer)
      modifies this`closing
      ensures View() == Next(old(View()), Step.BeginClose(id))
      ensures answer.Ok? <==> Closable(old(View()), id)
      ensures answer.Ok? ==> id in registry && id < |cells| && cells[id].live && !cells[id].leased && Strong(old(View()), id) <= 1
      ensures closing == if answer.Ok? then old(closing) + [id] else old(closing)
    {
      if id !in registry {
        return Err(Closed);
      }
      if Strong(View(), id) > 1 {
        return Err(Retained);
      }
      if id >= |cells| || id in closing || cells[id].leased {
        return Err(InUse);
      }
      if !cells[id].live {
        return Err(Transferred);
      }
      closing := closing + [id];
      return Ok;
    }

    /** The native close returned; a failed close may keep ownership. */
    method EndClose(id: Id, consumed: bool)
      requires id in closing && id < |cells|
      modifies this
      ensures View() == Next(old(View()), Step.EndClose(id, consumed))
      ensures consumed ==>
                && cells == old(cells)[id := old(cells)[id].(live := false)] && registry == old(registry) - {id}
                && log == old(log) + [Ending.Close(id)]
      ensures !consumed ==> cells == old(cells) && registry == old(registry) && log == old(log)
      ensures closing == Without(old(closing), id) && frames == old(frames)
    {
      closing := Without(closing, id);
      if consumed {
        cells := cells[id := cells[id].(live := false)];
        registry := registry - {id};
        log := log + [Ending.Close(id)];
      }
    }

    /** No token at all, which the source writes as zero, is accepted without effect. */
    method Release(token: Option<Id>) returns (answer: Answer)
      modifies this`registry
      ensures token.None? ==> answer.Ok? && View() == old(View())
      ensures token.Some? ==> View() == Next(old(View()), Step.Release(token.value))
      ensures token.Some? ==>
                (answer.Ok? <==> token.value in old(registry) && token.value !in closing
                                 && !(token.value < |cells| && cells[token.value].leased))
      ensures token.Some? ==> registry == if answer.Ok? then old(registry) - {token.value} else old(registry)
    {
      if token.None? {
        return Ok;
      }
      var id := token.value;
      if id !in registry {
        return Err(Closed);
      }
      if id in closing || (id < |cells| && cells[id].leased) {
        return Err(InUse);
      }
      registry := registry - {id};
      return Ok;
    }

    /** `Resource::drop`: the native value is destroyed unless its pointer was given away. */
    method DropResource(id: Id)
      requires Enabled(View(), Step.Drop(id))
      modifies this
      ensures View() == Next(old(View()), Step.Drop(id))
      ensures log == if old(cells)[id].live then old(log) + [Destroy(id)] else old(log)
      ensures cells == old(cells)[id := old(cells)[id].(dropped := true, live := false)]
      ensures unchanged(`registry, `frames, `closing)
    {
      if cells[id].live {
        log := log + [Destroy(id)];
      }
      cells := cells[id := cells[id].(dropped := true, live := false)];
    }
  }
}
