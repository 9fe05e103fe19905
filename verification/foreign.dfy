/** Ownership of foreign resources: reference counts, leases of stacked calls, retained parents,
    two-phase transfer, close and release.  Native code is an arbitrary sequence of steps. */
module Foreign {

  import opened Prelude

  /** A resource is named by its token; tokens are never reused. */
  type Id = nat

  /** `live` says that the native pointer is not null; `dropped` that no reference is left. */
  datatype Resource = Resource(library: nat, kind: nat, live: bool, leased: bool, parents: set<Id>, dropped: bool)

  /** One call into a bridge: the receiver it holds, the resources it leased, those its result
      must retain and those it checked for transfer. */
  datatype Frame = Frame(library: nat, receiver: Option<Id>, leases: seq<Id>, parents: set<Id>, transfers: set<Id>)

  datatype Ending = Destroy(id: Id) | Forget(id: Id) | Close(id: Id)

  datatype World = World(
    cells: seq<Resource>,
    registry: set<Id>,
    frames: seq<Frame>,
    closing: seq<Id>,
    log: seq<Ending>,
    forgetting: set<nat>)

  datatype Action = Look | Retain | Commit | Reserve

  datatype Step =
    | BeginCall(library: nat, receiver: Option<Id>)
    | Resolve(schemaMatches: bool, id: Id, kind: nat, action: Action)
    | EndCall(created: Option<nat>, accepted: bool)
    | BeginClose(id: Id)
    | EndClose(id: Id, consumed: bool)
    | Release(id: Id)
    | Drop(id: Id)

  // ---------------------------------------------------------------- reference counts

  function Occurs(s: seq<Id>, id: Id): nat {
    if s == [] then 0 else (if s[0] == id then 1 else 0) + Occurs(s[1..], id)
  }

  function FrameHolds(f: Frame, id: Id): nat {
    (if f.receiver == Some(id) then 1 else 0) + Occurs(f.leases, id) + (if id in f.parents then 1 else 0)
  }

  function FramesHold(frames: seq<Frame>, id: Id): nat {
    if frames == [] then 0 else FrameHolds(frames[|frames| - 1], id) + FramesHold(frames[..|frames| - 1], id)
  }

  function CellsHold(cells: seq<Resource>, id: Id): nat {
    if cells == [] then 0
    else (if !cells[|cells| - 1].dropped && id in cells[|cells| - 1].parents then 1 else 0) + CellsHold(cells[..|cells| - 1], id)
  }

  /** References to a resource, not counting the local one of the operation that asks. */
  function Strong(w: World, id: Id): nat {
    (if id in w.registry then 1 else 0) + FramesHold(w.frames, id) + CellsHold(w.cells, id) + Occurs(w.closing, id)
  }

  // ---------------------------------------------------------------- steps

  /** A cell borrowed by a running native close cannot be borrowed again. */
  predicate Borrowed(w: World, id: Id) {
    id in w.closing
  }

  predicate Leasable(w: World, id: Id) {
    id < |w.cells| && !w.cells[id].leased && w.cells[id].live
  }

  function SetLeased(w: World, id: Id, leased: bool): World
    requires id < |w.cells|
  {
    w.(cells := w.cells[id := w.cells[id].(leased := leased)])
  }

  /** The innermost call is the last frame. */
  function Top(w: World): Frame
    requires w.frames != []
  {
    w.frames[|w.frames| - 1]
  }

  function WithTop(w: World, f: Frame): World
    requires w.frames != []
  {
    w.(frames := w.frames[|w.frames| - 1 := f])
  }

  /** Which steps the host can take at all; a refused request is a step without effect. */
  predicate Enabled(w: World, step: Step) {
    match step
    case EndCall(_, _) => w.frames != []
    case EndClose(id, _) => id in w.closing
    case Drop(id) => id < |w.cells| && !w.cells[id].dropped && Strong(w, id) == 0
    case _ => true
  }

  function Begin(w: World, library: nat, receiver: Option<Id>): World {
    match receiver
    case None => w.(frames := w.frames + [Frame(library, None, [], {}, {})])
    case Some(id) =>
      if id !in w.registry || Borrowed(w, id) || !Leasable(w, id) then w
      else SetLeased(w, id, true).(frames := w.frames + [Frame(w.cells[id].library, receiver, [id], {}, {})])
  }

  /** The resource belongs to the innermost call's bridge and can be borrowed. */
  predicate Resolvable(w: World, schemaMatches: bool, id: Id, kind: nat) {
    && w.frames != [] && schemaMatches && id in w.registry && !Borrowed(w, id) && id < |w.cells|
    && w.cells[id].kind == kind && w.cells[id].library == Top(w).library && w.cells[id].live
  }

  /** A resource is leased on its first mention in a call. */
  function Leased(w: World, id: Id): World
    requires w.frames != [] && id < |w.cells|
  {
    if id in Top(w).leases then w
    else WithTop(SetLeased(w, id, true), Top(w).(leases := Top(w).leases + [id]))
  }

  function Acted(w: World, id: Id, action: Action): World
    requires w.frames != [] && id < |w.cells|
  {
    var f := Top(w);
    match action
    case Look => w
    case Retain => if id in f.transfers then w else WithTop(w, f.(parents := f.parents + {id}))
    case Reserve =>
      if Strong(w, id) > 2 || id in f.parents || id in f.transfers then w
      else if f.library !in w.forgetting then WithTop(w, f.(transfers := f.transfers + {id}))
      else WithTop(w, f.(transfers := f.transfers + {id}, parents := f.parents + {id}))
    case Commit =>
      if id !in f.transfers then w
      else
        var t := WithTop(w, f.(transfers := f.transfers - {id}));
        if f.library !in w.forgetting then t
        else t.(cells := t.cells[id := t.cells[id].(live := false)], log := t.log + [Forget(id)])
  }

  /** Which requests on a leased resource succeed. */
  predicate Granted(w: World, id: Id, action: Action)
    requires w.frames != [] && id < |w.cells|
  {
    var f := Top(w);
    match action
    case Look => true
    case Retain => id !in f.transfers
    case Reserve => Strong(w, id) <= 2 && id !in f.parents && id !in f.transfers && f.library in w.forgetting
    case Commit => id in f.transfers && f.library in w.forgetting
  }

  function Unlease(cells: seq<Resource>, leases: seq<Id>): (r: seq<Resource>)
    ensures |r| == |cells|
  {
    seq(|cells|, i requires 0 <= i < |cells| => if i in leases then cells[i].(leased := false) else cells[i])
  }

  /** A created result is adopted with the parents retained by the call; if the call fails
      afterwards it is not registered.  Then the frame and its leases go. */
  function End(w: World, created: Option<nat>, accepted: bool): World
    requires w.frames != []
  {
    var f := Top(w);
    var cells := Unlease(w.cells, f.leases);
    var popped := w.(frames := w.frames[..|w.frames| - 1], cells := cells);
    if created.None? then popped
    else popped.(cells := cells + [Resource(f.library, created.value, true, false, f.parents, false)],
                 registry := if accepted then w.registry + {|w.cells|} else w.registry)
  }

  predicate Closable(w: World, id: Id) {
    id in w.registry && Strong(w, id) <= 1 && id < |w.cells| && !Borrowed(w, id) && !w.cells[id].leased && w.cells[id].live
  }

  function Without(s: seq<Id>, id: Id): seq<Id> {
    if s == [] then [] else if s[0] == id then s[1..] else [s[0]] + Without(s[1..], id)
  }

  function Next(w: World, step: Step): World
    requires Enabled(w, step)
  {
    match step
    case BeginCall(library, receiver) => Begin(w, library, receiver)
    case Resolve(schemaMatches, id, kind, action) =>
      if !Resolvable(w, schemaMatches, id, kind) || (id !in Top(w).leases && !Leasable(w, id)) then w
      else Acted(Leased(w, id), id, action)
    case EndCall(created, accepted) => End(w, created, accepted)
    case BeginClose(id) => if Closable(w, id) then w.(closing := w.closing + [id]) else w
    case EndClose(id, consumed) =>
      var t := w.(closing := Without(w.closing, id));
      if consumed && id < |w.cells| then
        t.(cells := t.cells[id := t.cells[id].(live := false)], registry := t.registry - {id}, log := t.log + [Close(id)])
      else t
    case Release(id) =>
      if id !in w.registry || Borrowed(w, id) || (id < |w.cells| && w.cells[id].leased) then w
      else w.(registry := w.registry - {id})
    case Drop(id) =>
      var cells := w.cells[id := w.cells[id].(dropped := true, live := false)];
      w.(cells := cells, log := if w.cells[id].live then w.log + [Destroy(id)] else w.log)
  }

  // ---------------------------------------------------------------- what always holds

  function EndingsOf(log: seq<Ending>, id: Id): nat {
    if log == [] then 0 else (if log[|log| - 1].id == id then 1 else 0) + EndingsOf(log[..|log| - 1], id)
  }

  /** A pointer is live exactly until its single ending. */
  ghost predicate Endings(w: World) {
    && (forall id: Id :: id < |w.cells| ==> EndingsOf(w.log, id) == if w.cells[id].live then 0 else 1)
    && (forall id: Id :: id >= |w.cells| ==> EndingsOf(w.log, id) == 0)
  }

  /** Retained parents are older than the child and, while the child is not dropped, not dropped either. */
  ghost predicate Ancestry(w: World) {
    && (forall c, p :: 0 <= c < |w.cells| && p in w.cells[c].parents ==> p < c)
    && (forall c, p :: 0 <= c < |w.cells| && !w.cells[c].dropped && p in w.cells[c].parents ==> !w.cells[p].dropped)
    && (forall c :: 0 <= c < |w.cells| && w.cells[c].dropped ==> !w.cells[c].live)
  }

  ghost predicate Known(w: World) {
    && (forall id :: id in w.registry ==> id < |w.cells| && !w.cells[id].dropped)
    && (forall id :: id in w.closing ==> id in w.registry)
  }

  predicate FrameSound(w: World, f: Frame) {
    && (forall id :: id in f.leases ==> id in w.registry && id < |w.cells| && w.cells[id].leased && id !in w.closing)
    && (f.receiver.Some? ==> f.receiver.value in f.leases)
    && (forall id :: id in f.parents ==> id in f.leases)
    && (forall id :: id in f.transfers ==> id in f.leases && Unretained(w, id))
    && (forall i, j :: 0 <= i < j < |f.leases| ==> f.leases[i] != f.leases[j])
  }

  /** No resource that still exists retains this one. */
  predicate Unretained(w: World, id: Id) {
    forall c :: 0 <= c < |w.cells| && !w.cells[c].dropped ==> id !in w.cells[c].parents
  }

  predicate Leases(w: World) {
    && (forall i :: 0 <= i < |w.frames| ==> FrameSound(w, w.frames[i]))
    && (forall i, j, id :: 0 <= i < j < |w.frames| && id in w.frames[i].leases ==> id !in w.frames[j].leases)
  }

  predicate Closings(w: World) {
    && (forall id :: id in w.closing ==> id < |w.cells| && w.cells[id].live && !w.cells[id].leased && Unretained(w, id))
    && (forall i, j :: 0 <= i < j < |w.closing| ==> w.closing[i] != w.closing[j])
  }

  ghost predicate Sound(w: World) {
    Endings(w) && Ancestry(w) && Known(w) && Leases(w) && Closings(w)
  }

  // ---------------------------------------------------------------- counts show holders

  lemma {:induction false} OccursIff(s: seq<Id>, id: Id)
    ensures Occurs(s, id) > 0 <==> id in s
  {
    if s != [] {
      OccursIff(s[1..], id);
    }
  }

  lemma {:induction false} FrameCounts(frames: seq<Frame>, i: nat, id: Id)
    requires i < |frames|
    ensures FramesHold(frames, id) >= FrameHolds(frames[i], id)
  {
    if i < |frames| - 1 {
      FrameCounts(frames[..|frames| - 1], i, id);
    }
  }

  lemma {:induction false} CellCounts(cells: seq<Resource>, i: nat, id: Id)
    requires i < |cells| && !cells[i].dropped && id in cells[i].parents
    ensures CellsHold(cells, id) >= 1
  {
    if i < |cells| - 1 {
      CellCounts(cells[..|cells| - 1], i, id);
    }
  }

  /** A resource no existing resource is counted to retain is retained by none. */
  lemma NoCellHolds(w: World, id: Id)
    requires CellsHold(w.cells, id) == 0
    ensures Unretained(w, id)
  {
    forall c | 0 <= c < |w.cells| && !w.cells[c].dropped ensures id !in w.cells[c].parents {
      if id in w.cells[c].parents {
        CellCounts(w.cells, c, id);
      }
    }
  }

  lemma {:induction false} OccursOnce(s: seq<Id>, id: Id)
    requires forall i, j :: 0 <= i < j < |s| ==> s[i] != s[j]
    ensures Occurs(s, id) == if id in s then 1 else 0
  {
    if s != [] {
      assert forall i :: 0 <= i < |s| - 1 ==> s[1..][i] == s[i + 1];
      OccursOnce(s[1..], id);
    }
  }

  lemma {:induction false} NoFrameHolds(frames: seq<Frame>, id: Id)
    requires forall i :: 0 <= i < |frames| ==> FrameHolds(frames[i], id) == 0
    ensures FramesHold(frames, id) == 0
  {
    if frames != [] {
      NoFrameHolds(frames[..|frames| - 1], id);
    }
  }

  /** A call holds its receiver, what it leased and what its result must retain. */
  predicate Names(f: Frame, id: Id) {
    f.receiver == Some(id) || id in f.leases || id in f.parents
  }

  lemma HoldsIffNames(f: Frame, id: Id)
    ensures FrameHolds(f, id) > 0 <==> Names(f, id)
  {
    OccursIff(f.leases, id);
  }

  lemma {:induction false} NoneRetains(cells: seq<Resource>, id: Id)
    requires forall c :: 0 <= c < |cells| && !cells[c].dropped ==> id !in cells[c].parents
    ensures CellsHold(cells, id) == 0
  {
    if cells != [] {
      NoneRetains(cells[..|cells| - 1], id);
    }
  }

  /** The count is zero exactly when nobody is left: no token, no call, no running close and no
      existing resource that retains it. */
  lemma UnheldIsZero(w: World, id: Id)
    ensures Strong(w, id) == 0 <==>
            && id !in w.registry && id !in w.closing && Unretained(w, id)
            && forall i :: 0 <= i < |w.frames| ==> !Names(w.frames[i], id)
  {
    OccursIff(w.closing, id);
    if Strong(w, id) == 0 {
      NoCellHolds(w, id);
      forall i | 0 <= i < |w.frames| ensures !Names(w.frames[i], id) {
        FrameCounts(w.frames, i, id);
        HoldsIffNames(w.frames[i], id);
      }
    }
    if Unretained(w, id) && forall i :: 0 <= i < |w.frames| ==> !Names(w.frames[i], id) {
      NoneRetains(w.cells, id);
      forall i | 0 <= i < |w.frames| ensures FrameHolds(w.frames[i], id) == 0 {
        HoldsIffNames(w.frames[i], id);
      }
      NoFrameHolds(w.frames, id);
    }
  }

  /** The count a transfer is checked by admits it exactly when the resource is no receiver of a
      call, is to be retained by no result and is retained by no existing resource. */
  lemma TransferNeedsSoleOwner(w: World, id: Id)
    requires Sound(w) && w.frames != [] && id in Top(w).leases
    ensures Strong(w, id) <= 2 <==>
            && Unretained(w, id)
            && forall i :: 0 <= i < |w.frames| ==> w.frames[i].receiver != Some(id) && id !in w.frames[i].parents
  {
    var n := |w.frames| - 1;
    assert FrameSound(w, w.frames[n]);
    OccursOnce(Top(w).leases, id);
    OccursIff(w.closing, id);
    forall i | 0 <= i < n ensures !Names(w.frames[i], id) {
      assert FrameSound(w, w.frames[i]);
    }
    forall i | 0 <= i < n ensures FrameHolds(w.frames[..n][i], id) == 0 {
      HoldsIffNames(w.frames[i], id);
    }
    NoFrameHolds(w.frames[..n], id);
    assert Strong(w, id) == 1 + FrameHolds(Top(w), id) + CellsHold(w.cells, id);
    if Strong(w, id) <= 2 {
      NoCellHolds(w, id);
    }
    if Unretained(w, id) {
      NoneRetains(w.cells, id);
    }
  }

  /** The count a close is checked by admits it exactly when no existing resource retains it. */
  lemma CloseNeedsUnretained(w: World, id: Id)
    requires Sound(w)
    ensures Closable(w, id) <==>
            && id in w.registry && id !in w.closing && !w.cells[id].leased && w.cells[id].live && Unretained(w, id)
  {
    if id in w.registry && id !in w.closing && !w.cells[id].leased {
      OccursIff(w.closing, id);
      forall i | 0 <= i < |w.frames| ensures FrameHolds(w.frames[i], id) == 0 {
        assert FrameSound(w, w.frames[i]);
        HoldsIffNames(w.frames[i], id);
      }
      NoFrameHolds(w.frames, id);
      if Strong(w, id) <= 1 {
        NoCellHolds(w, id);
      }
      if Unretained(w, id) {
        NoneRetains(w.cells, id);
      }
    }
  }

  // ---------------------------------------------------------------- every step keeps what holds

  lemma LogMore(log: seq<Ending>, e: Ending)
    ensures forall id: Id :: EndingsOf(log + [e], id) == EndingsOf(log, id) + if e.id == id then 1 else 0
  {
    assert (log + [e])[..|log + [e]| - 1] == log;
  }

  predicate Unleased(w: World, id: Id) {
    forall i :: 0 <= i < |w.frames| ==> id !in w.frames[i].leases
  }

  /** Marking a free resource as leased, before a frame records it. */
  lemma MarkedKeeps(w: World, id: Id)
    requires Sound(w) && Leasable(w, id) && id !in w.closing
    ensures Sound(SetLeased(w, id, true)) && Unleased(w, id)
  {
    var t := SetLeased(w, id, true);
    forall i | 0 <= i < |w.frames| ensures FrameSound(t, t.frames[i]) && id !in w.frames[i].leases {
      assert FrameSound(w, w.frames[i]);
    }
  }

  lemma PushKeeps(w: World, f: Frame)
    requires Sound(w) && FrameSound(w, f) && forall id :: id in f.leases ==> Unleased(w, id)
    ensures Sound(w.(frames := w.frames + [f]))
  {
    var t := w.(frames := w.frames + [f]);
    forall i | 0 <= i < |t.frames| ensures FrameSound(t, t.frames[i]) {
      if i < |w.frames| {
        assert FrameSound(w, w.frames[i]);
      }
    }
    forall i, j, id | 0 <= i < j < |t.frames| && id in t.frames[i].leases ensures id !in t.frames[j].leases {
      if j == |w.frames| {
        assert id in f.leases ==> Unleased(w, id);
      }
    }
  }

  lemma BeginKeeps(w: World, library: nat, receiver: Option<Id>)
    requires Sound(w)
    ensures Sound(Begin(w, library, receiver))
  {
    match receiver {
      case None => PushKeeps(w, Frame(library, None, [], {}, {}));
      case Some(id) =>
        if id in w.registry && !Borrowed(w, id) && Leasable(w, id) {
          MarkedKeeps(w, id);
          PushKeeps(SetLeased(w, id, true), Frame(w.cells[id].library, receiver, [id], {}, {}));
        }
    }
  }

  /** The innermost call records a lease nobody else has. */
  lemma RecordKeeps(w: World, id: Id)
    requires Sound(w) && w.frames != [] && Unleased(w, id)
    requires id in w.registry && id < |w.cells| && w.cells[id].leased && id !in w.closing
    ensures Sound(WithTop(w, Top(w).(leases := Top(w).leases + [id])))
  {
    var t := WithTop(w, Top(w).(leases := Top(w).leases + [id]));
    forall i | 0 <= i < |t.frames| ensures FrameSound(t, t.frames[i]) {
      assert FrameSound(w, w.frames[i]);
    }
    assert forall i, j, x :: 0 <= i < j < |t.frames| && x in t.frames[i].leases ==> x !in t.frames[j].leases;
  }

  lemma LeasedKeeps(w: World, id: Id)
    requires Sound(w) && w.frames != [] && id in w.registry && id !in w.closing
    requires id in Top(w).leases || Leasable(w, id)
    ensures Sound(Leased(w, id)) && id in Top(Leased(w, id)).leases
    ensures Leased(w, id).registry == w.registry && Leased(w, id).closing == w.closing
    ensures Leased(w, id).cells[id].live == w.cells[id].live
    ensures |Leased(w, id).frames| == |w.frames|
  {
    if id !in Top(w).leases {
      MarkedKeeps(w, id);
      RecordKeeps(SetLeased(w, id, true), id);
    }
  }

  /** Changing what the innermost call retains or reserves. */
  lemma TopKeeps(w: World, f: Frame)
    requires Sound(w) && w.frames != [] && f.leases == Top(w).leases && FrameSound(w, f)
    ensures Sound(WithTop(w, f))
  {
    var t := WithTop(w, f);
    forall i | 0 <= i < |t.frames| ensures FrameSound(t, t.frames[i]) {
      assert FrameSound(w, w.frames[i]);
    }
  }

  lemma RetainKeeps(w: World, id: Id)
    requires Sound(w) && w.frames != [] && id in Top(w).leases
    ensures id < |w.cells| && Sound(Acted(w, id, Retain))
  {
    var f := Top(w);
    assert FrameSound(w, f);
    if id !in f.transfers {
      TopKeeps(w, f.(parents := f.parents + {id}));
    }
  }

  /** A reservation succeeds only for a resource that nothing but the registry and this call
      holds, so nothing that still exists retains it. */
  lemma ReservedIsUnretained(w: World, id: Id)
    requires w.frames != [] && id in Top(w).leases && id in w.registry && Strong(w, id) <= 2
    ensures Unretained(w, id)
  {
    OccursIff(Top(w).leases, id);
    FrameCounts(w.frames, |w.frames| - 1, id);
    NoCellHolds(w, id);
  }

  lemma ReserveKeeps(w: World, id: Id)
    requires Sound(w) && w.frames != [] && id in Top(w).leases
    ensures id < |w.cells| && Sound(Acted(w, id, Reserve))
  {
    var f := Top(w);
    assert FrameSound(w, f);
    if Strong(w, id) <= 2 && id !in f.parents && id !in f.transfers {
      ReservedIsUnretained(w, id);
      TopKeeps(w, f.(transfers := f.transfers + {id}));
      TopKeeps(w, f.(transfers := f.transfers + {id}, parents := f.parents + {id}));
    }
  }

  function Killed(w: World, id: Id, e: Ending): World
    requires id < |w.cells|
  {
    w.(cells := w.cells[id := w.cells[id].(live := false)], log := w.log + [e])
  }

  lemma KilledKeeps(w: World, id: Id, e: Ending)
    requires Sound(w) && id < |w.cells| && w.cells[id].live && e.id == id && id !in w.closing
    ensures Sound(Killed(w, id, e))
  {
    var t := Killed(w, id, e);
    LogMore(w.log, e);
    forall i | 0 <= i < |t.frames| ensures FrameSound(t, t.frames[i]) {
      assert FrameSound(w, w.frames[i]);
    }
  }

  lemma CommitKeeps(w: World, id: Id)
    requires Sound(w) && w.frames != [] && id in Top(w).leases
    requires id < |w.cells| && w.cells[id].live
    ensures Sound(Acted(w, id, Commit))
  {
    var f := Top(w);
    assert FrameSound(w, f);
    if id in f.transfers {
      TopKeeps(w, f.(transfers := f.transfers - {id}));
      if f.library in w.forgetting {
        KilledKeeps(WithTop(w, f.(transfers := f.transfers - {id})), id, Forget(id));
      }
    }
  }

  lemma ResolveKeeps(w: World, schemaMatches: bool, id: Id, kind: nat, action: Action)
    requires Sound(w)
    ensures Sound(Next(w, Resolve(schemaMatches, id, kind, action)))
  {
    if Resolvable(w, schemaMatches, id, kind) && (id in Top(w).leases || Leasable(w, id)) {
      LeasedKeeps(w, id);
      var t := Leased(w, id);
      match action {
        case Look =>
        case Retain => RetainKeeps(t, id);
        case Reserve => ReserveKeeps(t, id);
        case Commit => CommitKeeps(t, id);
      }
    }
  }

  // ---------------------------------------------------------------- the end of a call

  function Popped(w: World): World
    requires w.frames != []
  {
    w.(frames := w.frames[..|w.frames| - 1], cells := Unlease(w.cells, Top(w).leases))
  }

  lemma PoppedFrame(w: World, i: nat)
    requires w.frames != [] && Leases(w) && i < |w.frames| - 1
    ensures FrameSound(Popped(w), w.frames[i])
  {
    var t := Popped(w);
    assert FrameSound(w, w.frames[i]);
    forall id | id in w.frames[i].leases ensures id < |t.cells| && t.cells[id].leased {
      assert id !in Top(w).leases;
    }
    forall id | id in w.frames[i].transfers ensures Unretained(t, id) {
      assert Unretained(w, id);
    }
  }

  lemma PoppedKeeps(w: World)
    requires Sound(w) && w.frames != []
    ensures Sound(Popped(w))
  {
    var t := Popped(w);
    assert forall i :: 0 <= i < |t.frames| ==> t.frames[i] == w.frames[i];
    forall i | 0 <= i < |t.frames| ensures FrameSound(t, t.frames[i]) {
      PoppedFrame(w, i);
    }
    forall id | id in t.closing ensures Unretained(t, id) {
      assert Unretained(w, id);
    }
  }

  function Adopted(w: World, r: Resource, accepted: bool): World {
    w.(cells := w.cells + [r], registry := if accepted then w.registry + {|w.cells|} else w.registry)
  }

  lemma AdoptedKeeps(w: World, r: Resource, accepted: bool)
    requires Sound(w) && r.live && !r.leased && !r.dropped
    requires forall p :: p in r.parents ==> p < |w.cells| && !w.cells[p].dropped && p !in w.closing
    requires forall p, i :: p in r.parents && 0 <= i < |w.frames| ==> p !in w.frames[i].transfers
    ensures Sound(Adopted(w, r, accepted))
  {
    var t := Adopted(w, r, accepted);
    assert t.cells[|w.cells|] == r;
    forall i | 0 <= i < |t.frames| ensures FrameSound(t, t.frames[i]) {
      assert FrameSound(w, w.frames[i]);
    }
  }

  lemma EndKeeps(w: World, created: Option<nat>, accepted: bool)
    requires Sound(w) && w.frames != []
    ensures Sound(End(w, created, accepted))
  {
    var f := Top(w);
    assert FrameSound(w, f);
    PoppedKeeps(w);
    if created.Some? {
      var t := Popped(w);
      forall p, i | p in f.parents && 0 <= i < |t.frames| ensures p !in t.frames[i].transfers {
        assert FrameSound(w, w.frames[i]);
      }
      AdoptedKeeps(t, Resource(f.library, created.value, true, false, f.parents, false), accepted);
    }
  }

  // ---------------------------------------------------------------- close, release and drop

  lemma WithoutRemoves(s: seq<Id>, id: Id)
    requires forall i, j :: 0 <= i < j < |s| ==> s[i] != s[j]
    ensures forall x :: x in Without(s, id) <==> x in s && x != id
    ensures forall i, j :: 0 <= i < j < |Without(s, id)| ==> Without(s, id)[i] != Without(s, id)[j]
  {
    if s != [] {
      assert forall i :: 0 <= i < |s[1..]| ==> s[1..][i] == s[i + 1];
      WithoutRemoves(s[1..], id);
      assert s[0] !in Without(s[1..], id);
    }
  }

  /** A close starts only for a resource that nothing but the registry holds. */
  lemma BeginCloseKeeps(w: World, id: Id)
    requires Sound(w)
    ensures Sound(Next(w, BeginClose(id)))
  {
    if Closable(w, id) {
      NoCellHolds(w, id);
      var t := Next(w, BeginClose(id));
      forall i | 0 <= i < |t.frames| ensures FrameSound(t, t.frames[i]) {
        assert FrameSound(w, w.frames[i]);
      }
    }
  }

  lemma EndCloseKeeps(w: World, id: Id, consumed: bool)
    requires Sound(w) && id in w.closing
    ensures Sound(Next(w, EndClose(id, consumed)))
  {
    var t := w.(closing := Without(w.closing, id));
    WithoutRemoves(w.closing, id);
    forall i | 0 <= i < |t.frames| ensures FrameSound(t, t.frames[i]) {
      assert FrameSound(w, w.frames[i]);
    }
    assert Sound(t);
    if consumed {
      KilledKeeps(t, id, Ending.Close(id));
      UnregisteredKeeps(Killed(t, id, Ending.Close(id)), id);
    }
  }

  lemma UnregisteredKeeps(w: World, id: Id)
    requires Sound(w) && id !in w.closing && id < |w.cells| && !w.cells[id].leased
    ensures Sound(w.(registry := w.registry - {id}))
  {
    var t := w.(registry := w.registry - {id});
    forall i | 0 <= i < |t.frames| ensures FrameSound(t, t.frames[i]) {
      assert FrameSound(w, w.frames[i]);
    }
  }

  /** A drop happens only when no reference is left, so no existing resource retains the dropped one. */
  lemma DropKeeps(w: World, id: Id)
    requires Sound(w) && Enabled(w, Drop(id))
    ensures Sound(Next(w, Drop(id)))
  {
    DropAncestry(w, id);
    DropLeases(w, id);
  }

  lemma DropAncestry(w: World, id: Id)
    requires Sound(w) && Enabled(w, Drop(id))
    ensures Endings(Next(w, Drop(id))) && Ancestry(Next(w, Drop(id)))
  {
    NoCellHolds(w, id);
    LogMore(w.log, Destroy(id));
  }

  lemma DropLeases(w: World, id: Id)
    requires Sound(w) && Enabled(w, Drop(id))
    ensures Known(Next(w, Drop(id))) && Leases(Next(w, Drop(id))) && Closings(Next(w, Drop(id)))
  {
    var t := Next(w, Drop(id));
    OccursIff(w.closing, id);
    forall i | 0 <= i < |t.frames| ensures FrameSound(t, t.frames[i]) {
      assert FrameSound(w, w.frames[i]);
    }
    forall x | x in t.closing ensures Unretained(t, x) {
      assert Unretained(w, x);
    }
  }

  lemma StepKeepsSound(w: World, step: Step)
    requires Sound(w) && Enabled(w, step)
    ensures Sound(Next(w, step))
  {
    match step {
      case BeginCall(library, receiver) => BeginKeeps(w, library, receiver);
      case Resolve(schemaMatches, id, kind, action) => ResolveKeeps(w, schemaMatches, id, kind, action);
      case EndCall(created, accepted) => EndKeeps(w, created, accepted);
      case BeginClose(id) => BeginCloseKeeps(w, id);
      case EndClose(id, consumed) => EndCloseKeeps(w, id, consumed);
      case Release(id) =>
        if id in w.registry && !Borrowed(w, id) && !w.cells[id].leased {
          UnregisteredKeeps(w, id);
        }
      case Drop(id) => DropKeeps(w, id);
    }
  }

  // ---------------------------------------------------------------- theorems over whole runs

  function Start(forgetting: set<nat>): World {
    World([], {}, [], [], [], forgetting)
  }

  ghost predicate Follows(w: World, t: World) {
    exists step :: Enabled(w, step) && t == Next(w, step)
  }

  ghost predicate IsRun(run: seq<World>) {
    && run != [] && run[0] == Start(run[0].forgetting)
    && forall i :: 0 <= i < |run| - 1 ==> Follows(run[i], run[i + 1])
  }

  lemma {:induction false} RunIsSound(run: seq<World>, i: nat)
    requires IsRun(run) && i < |run|
    ensures Sound(run[i])
  {
    if i > 0 {
      RunIsSound(run, i - 1);
      assert Follows(run[i - 1], run[i - 1 + 1]);
      var step :| Enabled(run[i - 1], step) && run[i] == Next(run[i - 1], step);
      StepKeepsSound(run[i - 1], step);
    }
  }

  /** Each adopted resource ends by at most one of destroy, forget or consuming close, and
      exactly one once it was dropped. */
  lemma EndsAtMostOnce(run: seq<World>, i: nat, id: Id)
    requires IsRun(run) && i < |run|
    ensures EndingsOf(run[i].log, id) <= 1
    ensures id < |run[i].cells| && run[i].cells[id].dropped ==> EndingsOf(run[i].log, id) == 1
  {
    RunIsSound(run, i);
  }

  /** Across all stacked calls a resource is leased at most once. */
  lemma LeasedAtMostOnce(run: seq<World>, i: nat, a: nat, k: nat, b: nat, l: nat)
    requires IsRun(run) && i < |run|
    requires a < |run[i].frames| && k < |run[i].frames[a].leases| && b < |run[i].frames| && l < |run[i].frames[b].leases|
    requires run[i].frames[a].leases[k] == run[i].frames[b].leases[l]
    ensures a == b && k == l
  {
    RunIsSound(run, i);
    assert FrameSound(run[i], run[i].frames[a]);
    assert run[i].frames[a].leases[k] in run[i].frames[a].leases;
    assert run[i].frames[b].leases[l] in run[i].frames[b].leases;
  }

  /** Whatever a step ends is retained by no existing resource. */
  lemma OnlyUnretainedEnd(w: World, step: Step)
    requires Sound(w) && Enabled(w, step) && Next(w, step).log != w.log
    ensures exists e: Ending :: Next(w, step).log == w.log + [e] && Unretained(w, e.id)
  {
    match step {
      case Resolve(_, id, _, _) =>
        assert FrameSound(w, Top(w));
        assert Unretained(w, id);
        assert Next(w, step).log == w.log + [Forget(id)];
      case EndClose(id, _) =>
        assert Next(w, step).log == w.log + [Ending.Close(id)];
      case Drop(id) =>
        NoCellHolds(w, id);
        assert Next(w, step).log == w.log + [Destroy(id)];
      case _ =>
    }
  }

  /** While a resource that retains a parent exists, no step destroys, closes or transfers the parent. */
  lemma ParentsOutliveChildren(w: World, step: Step, child: Id, parent: Id)
    requires Sound(w) && Enabled(w, step)
    requires child < |w.cells| && !w.cells[child].dropped && parent in w.cells[child].parents
    ensures EndingsOf(Next(w, step).log, parent) == EndingsOf(w.log, parent)
  {
    if Next(w, step).log != w.log {
      OnlyUnretainedEnd(w, step);
      var e: Ending :| Next(w, step).log == w.log + [e] && Unretained(w, e.id);
      LogMore(w.log, e);
    }
  }

  /** Nor is a retained parent dropped, so what backs the child stays in place. */
  lemma RetainedIsNotDropped(run: seq<World>, i: nat, child: Id, parent: Id)
    requires IsRun(run) && i < |run|
    requires child < |run[i].cells| && !run[i].cells[child].dropped && parent in run[i].cells[child].parents
    ensures parent < child && !run[i].cells[parent].dropped
  {
    RunIsSound(run, i);
  }

  /** Ownership only changes by a commit of a reserved transfer, a consuming close or a drop; in
      particular a call that ends with a reserved, uncommitted transfer changes none. */
  lemma OnlyThreeEndings(w: World, step: Step, id: Id)
    requires Sound(w) && Enabled(w, step) && id < |w.cells|
    requires Next(w, step).cells[id].live != w.cells[id].live
    ensures w.cells[id].live && !Next(w, step).cells[id].live
    ensures || (step.Resolve? && step.action.Commit? && step.id == id && w.frames != [] && id in Top(w).transfers)
            || step == EndClose(id, true)
            || step == Drop(id)
  {
    match step {
      case Resolve(schemaMatches, d, kind, action) =>
        if Resolvable(w, schemaMatches, d, kind) && (d in Top(w).leases || Leasable(w, d)) {
          assert FrameSound(w, Top(w));
          assert Leased(w, d).cells[id].live == w.cells[id].live;
        }
      case _ =>
    }
  }

  // ---------------------------------------------------------------- what a result retains

  /** A run with its steps. */
  ghost predicate IsTrace(run: seq<World>, steps: seq<Step>) {
    && |run| == |steps| + 1 && run[0] == Start(run[0].forgetting)
    && forall i :: 0 <= i < |steps| ==> StepFrom(run, steps, i)
  }

  ghost predicate StepFrom(run: seq<World>, steps: seq<Step>, i: nat)
    requires |run| == |steps| + 1 && i < |steps|
  {
    Enabled(run[i], steps[i]) && run[i + 1] == Next(run[i], steps[i])
  }

  lemma TraceIsRun(run: seq<World>, steps: seq<Step>)
    requires IsTrace(run, steps)
    ensures IsRun(run)
  {
    forall i | 0 <= i < |run| - 1 ensures Follows(run[i], run[i + 1]) {
      assert StepFrom(run, steps, i);
    }
  }

  /** The innermost call asks, with success, that its result retains a resource, or checks the
      transfer of one: the emptied owner then stays behind as what its own backing hangs on. */
  predicate Secures(w: World, step: Step, id: Id) {
    && step.Resolve? && step.id == id && (step.action.Retain? || step.action.Reserve?)
    && Resolvable(w, step.schemaMatches, id, step.kind) && (id in Top(w).leases || Leasable(w, id))
    && Granted(Leased(w, id), id, step.action)
  }

  lemma SecuredIsParent(w: World, step: Step, id: Id)
    requires Secures(w, step, id)
    ensures |Next(w, step).frames| == |w.frames| && id in Top(Next(w, step)).parents
  {
  }

  /** As long as a call lasts it forgets none of the parents of its result. */
  lemma ParentStays(w: World, step: Step, depth: nat, id: Id)
    requires Enabled(w, step) && 0 < depth <= |w.frames| && depth <= |Next(w, step).frames|
    requires id in w.frames[depth - 1].parents
    ensures id in Next(w, step).frames[depth - 1].parents
  {
  }

  lemma {:induction false} CallKeepsParent(run: seq<World>, steps: seq<Step>, i: nat, j: nat, id: Id)
    requires IsTrace(run, steps) && i < j < |run| && Secures(run[i], steps[i], id)
    requires forall n :: i < n <= j ==> |run[n].frames| >= |run[i].frames|
    ensures id in run[j].frames[|run[i].frames| - 1].parents
    decreases j
  {
    if j == i + 1 {
      assert StepFrom(run, steps, i);
      SecuredIsParent(run[i], steps[i], id);
    } else {
      CallKeepsParent(run, steps, i, j - 1, id);
      assert StepFrom(run, steps, j - 1);
      ParentStays(run[j - 1], steps[j - 1], |run[i].frames|, id);
    }
  }

  /** What a resource retains never changes, and what was dropped stays dropped. */
  lemma CellStays(w: World, step: Step, c: Id)
    requires Enabled(w, step) && c < |w.cells|
    ensures c < |Next(w, step).cells| && Next(w, step).cells[c].parents == w.cells[c].parents
    ensures w.cells[c].dropped ==> Next(w, step).cells[c].dropped
  {
  }

  /** The result of the call that ends at step j, as the next state has it. */
  lemma ResultAdopted(w: World, step: Step)
    requires Enabled(w, step) && step.EndCall? && step.created.Some?
    ensures |Next(w, step).cells| == |w.cells| + 1
    ensures Next(w, step).cells[|w.cells|] == Resource(Top(w).library, step.created.value, true, false, Top(w).parents, false)
    ensures |w.cells| in Next(w, step).registry <==> step.accepted || |w.cells| in w.registry
  {
  }

  /** The result retains the resource and, as long as it exists, keeps it from being dropped and
      from any further ending. */
  ghost predicate Backs(w: World, id: Id, result: Id, endings: nat) {
    && result < |w.cells| && id in w.cells[result].parents && id < result
    && (!w.cells[result].dropped ==> !w.cells[id].dropped && EndingsOf(w.log, id) == endings)
  }

  lemma BacksOn(w: World, step: Step, id: Id, result: Id, endings: nat)
    requires Sound(w) && Enabled(w, step) && Backs(w, id, result, endings)
    ensures Backs(Next(w, step), id, result, endings)
  {
    StepKeepsSound(w, step);
    CellStays(w, step, result);
    if !Next(w, step).cells[result].dropped {
      ParentsOutliveChildren(w, step, result, id);
    }
  }

  lemma BackedFromTheStart(w: World, step: Step, id: Id)
    requires Sound(w) && Enabled(w, step) && step.EndCall? && step.created.Some? && id in Top(w).parents
    ensures Backs(Next(w, step), id, |w.cells|, EndingsOf(Next(w, step).log, id))
  {
    StepKeepsSound(w, step);
    ResultAdopted(w, step);
    assert FrameSound(w, Top(w));
  }

  lemma TraceStep(run: seq<World>, steps: seq<Step>, i: nat)
    requires IsTrace(run, steps) && i < |steps|
    ensures Sound(run[i]) && Enabled(run[i], steps[i]) && run[i + 1] == Next(run[i], steps[i])
  {
    TraceIsRun(run, steps);
    RunIsSound(run, i);
    assert StepFrom(run, steps, i);
  }

  lemma {:induction false} BacksLater(run: seq<World>, steps: seq<Step>, j: nat, k: nat, id: Id, result: Id, endings: nat)
    requires IsTrace(run, steps) && j <= k < |run| && Backs(run[j], id, result, endings)
    ensures Backs(run[k], id, result, endings)
    decreases k
  {
    if j < k {
      BacksLater(run, steps, j, k - 1, id, result, endings);
      TraceStep(run, steps, k - 1);
      BacksOn(run[k - 1], steps[k - 1], id, result, endings);
    }
  }

  /** The call that secured the resource at step i is the one that ends with a result at step j. */
  ghost predicate SecuredUntil(run: seq<World>, steps: seq<Step>, i: nat, j: nat, id: Id)
    requires IsTrace(run, steps) && i < j < |steps|
  {
    && Secures(run[i], steps[i], id)
    && (forall n :: i < n <= j ==> |run[n].frames| >= |run[i].frames|)
    && |run[j].frames| == |run[i].frames| && steps[j].EndCall? && steps[j].created.Some?
  }

  lemma ResultStartsBacked(run: seq<World>, steps: seq<Step>, i: nat, j: nat, id: Id)
    requires IsTrace(run, steps) && i < j < |steps| && SecuredUntil(run, steps, i, j, id)
    ensures Backs(run[j + 1], id, |run[j].cells|, EndingsOf(run[j + 1].log, id))
  {
    CallKeepsParent(run, steps, i, j, id);
    TraceStep(run, steps, j);
    BackedFromTheStart(run[j], steps[j], id);
  }

  /** If a call secured a resource and later ended with a result, then as long as the result exists
      the resource is retained by it, is not dropped, and is not destroyed, closed or transferred
      any more. */
  lemma ResultKeepsItsParents(run: seq<World>, steps: seq<Step>, i: nat, j: nat, k: nat, id: Id)
    requires IsTrace(run, steps) && i < j < |steps| && j < k < |run| && SecuredUntil(run, steps, i, j, id)
    ensures Backs(run[k], id, |run[j].cells|, EndingsOf(run[j + 1].log, id))
  {
    ResultStartsBacked(run, steps, i, j, id);
    BacksLater(run, steps, j + 1, k, id, |run[j].cells|, EndingsOf(run[j + 1].log, id));
  }

  // ---------------------------------------------------------------- nothing is leaked

  /** Nothing outside the resources themselves refers to a resource. */
  predicate Quiet(w: World) {
    w.registry == {} && w.frames == [] && w.closing == []
  }

  /** When everything was released, the youngest resource left can be dropped: reference counts
      cannot keep a cycle alive, because parents are older than their children. */
  lemma YoungestCanBeDropped(w: World, id: Id)
    requires Sound(w) && Quiet(w) && id < |w.cells| && !w.cells[id].dropped
    requires forall c :: id < c < |w.cells| ==> w.cells[c].dropped
    ensures Enabled(w, Drop(id))
  {
    assert forall c :: 0 <= c < |w.cells| && id in w.cells[c].parents ==> id < c;
    NoneRetains(w.cells, id);
  }

  /** When everything was released and no drop is left to happen, every resource ever adopted
      has ended exactly once. */
  lemma NothingLeaks(run: seq<World>, i: nat, id: Id)
    requires IsRun(run) && i < |run| && Quiet(run[i]) && id < |run[i].cells|
    requires forall d: Id :: d < |run[i].cells| ==> !Enabled(run[i], Drop(d))
    ensures run[i].cells[id].dropped && EndingsOf(run[i].log, id) == 1
  {
    var w := run[i];
    RunIsSound(run, i);
    AllDropped(w, |w.cells|);
  }

  lemma {:induction false} AllDropped(w: World, n: nat)
    requires Sound(w) && Quiet(w) && n <= |w.cells|
    requires forall d: Id :: d < |w.cells| ==> !Enabled(w, Drop(d))
    requires forall c :: n <= c < |w.cells| ==> w.cells[c].dropped
    ensures forall c :: 0 <= c < |w.cells| ==> w.cells[c].dropped
  {
    if n > 0 {
      if !w.cells[n - 1].dropped {
        YoungestCanBeDropped(w, n - 1);
      }
      AllDropped(w, n - 1);
    }
  }
}
