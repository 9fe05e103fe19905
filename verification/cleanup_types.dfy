/** Which types could observe a postponed cleanup: a depth-first search over a type graph
    that may be cyclic through record and variant fields. */
module CleanupTypes {
  import opened Prelude
  import opened Types

  /** The parts of the checked program the search reads. */
  datatype Program = Program(
    types: Arena,
    recordDeinit: set<nat>,
    variantDeinit: set<nat>,
    recordFields: map<nat, seq<TypeId>>,
    variantFields: map<nat, seq<TypeId>>,
    coreList: Option<nat>,
    coreFuture: Option<nat>)

  /** Every type the program mentions exists. */
  ghost predicate Closed(p: Program) {
    && (forall i :: 0 <= i < |p.types| ==> Below(Components(p.types[i]), |p.types|))
    && (forall r :: r in p.recordFields ==> Below(p.recordFields[r], |p.types|))
    && (forall v :: v in p.variantFields ==> Below(p.variantFields[v], |p.types|))
  }

  function FieldsOf(fields: map<nat, seq<TypeId>>, id: nat): seq<TypeId> {
    if id in fields then fields[id] else []
  }

  /** A type that by itself calls for cleanup. */
  predicate Bears(p: Program, ty: TypeId)
    requires ty < |p.types|
  {
    match p.types[ty]
    case GenericType(_) => true
    case FunctionType(_, _, _, _, _) => true
    case RemoteType(_) => true
    case FutureType(_) => true
    case RecordType(r, _) => Some(r) == p.coreFuture || (Some(r) != p.coreList && r in p.recordDeinit)
    case VariantType(v, _) => v in p.variantDeinit
    case _ => false
  }

  /** The types whose cleanup this type inherits.  References are not followed, and a list
      is looked at through its arguments only. */
  function Edges(p: Program, ty: TypeId): seq<TypeId>
    requires ty < |p.types|
  {
    match p.types[ty]
    case RecordType(r, a) => if Some(r) == p.coreList then a else a + FieldsOf(p.recordFields, r)
    case VariantType(v, a) => a + FieldsOf(p.variantFields, v)
    case RawListType(e) => [e]
    case SequenceType(e) => [e]
    case IntersectionType(m) => m
    case _ => []
  }

  lemma EdgesExist(p: Program, ty: TypeId)
    requires Closed(p) && ty < |p.types|
    ensures Below(Edges(p, ty), |p.types|)
  {
    assert Below(Components(p.types[ty]), |p.types|);
  }

  /** A walk along edges from its first type to its last. */
  ghost predicate Walk(p: Program, path: seq<TypeId>) {
    && path != [] && Below(path, |p.types|)
    && forall i :: 0 <= i < |path| - 1 ==> path[i + 1] in Edges(p, path[i])
  }

  ghost predicate Reaches(p: Program, from: TypeId, to: TypeId) {
    exists path :: Walk(p, path) && path[0] == from && path[|path| - 1] == to
  }

  ghost predicate ReachesCleanup(p: Program, ty: TypeId) {
    exists to: TypeId :: to < |p.types| && Reaches(p, ty, to) && Bears(p, to)
  }

  lemma BearerReaches(p: Program, ty: TypeId)
    requires ty < |p.types| && Bears(p, ty)
    ensures ReachesCleanup(p, ty)
  {
    assert Walk(p, [ty]) && [ty][0] == ty;
    assert Reaches(p, ty, ty);
  }

  lemma EdgeReaches(p: Program, ty: TypeId, next: TypeId)
    requires ty < |p.types| && next in Edges(p, ty) && ReachesCleanup(p, next)
    ensures ReachesCleanup(p, ty)
  {
    var to: TypeId :| to < |p.types| && Reaches(p, next, to) && Bears(p, to);
    var path :| Walk(p, path) && path[0] == next && path[|path| - 1] == to;
    var longer := [ty] + path;
    forall i | 0 <= i < |longer| - 1 ensures longer[i + 1] in Edges(p, longer[i]) {
      if i > 0 {
        assert path[i - 1 + 1] in Edges(p, path[i - 1]);
      }
    }
    assert Walk(p, longer);
    assert Reaches(p, ty, to);
  }

  // ---------------------------------------------------------------- the search

  function Ids(n: nat): (r: set<nat>)
    ensures forall i: nat :: i in r <==> i < n
  {
    if n == 0 then {} else Ids(n - 1) + {n - 1}
  }

  /** Everything first visited between two moments bears nothing and leads only to visited types. */
  ghost predicate Explored(p: Program, before: set<TypeId>, after: set<TypeId>) {
    && before <= after <= Ids(|p.types|)
    && forall t :: t in after && t !in before ==> !Bears(p, t) && forall e :: e in Edges(p, t) ==> e in after
  }

  lemma ExploredTwice(p: Program, a: set<TypeId>, b: set<TypeId>, c: set<TypeId>)
    requires Explored(p, a, b) && Explored(p, b, c)
    ensures Explored(p, a, c)
  {
  }

  /** `seen` is shared with siblings, and a revisit answers false. */
  method Visit(p: Program, ty: TypeId, seen: set<TypeId>) returns (found: bool, seen': set<TypeId>)
    requires Closed(p) && ty < |p.types| && seen <= Ids(|p.types|)
    ensures found ==> ReachesCleanup(p, ty)
    ensures !found ==> ty in seen' && Explored(p, seen, seen')
    decreases Ids(|p.types|) - seen, 0
  {
    if ty in seen {
      return false, seen;
    }
    seen' := seen + {ty};
    EdgesExist(p, ty);
    match p.types[ty] {
      case GenericType(_) => found := true;
      case FunctionType(_, _, _, _, _) => found := true;
      case RemoteType(_) => found := true;
      case FutureType(_) => found := true;
      case RecordType(record, arguments) =>
        if Some(record) == p.coreFuture {
          found := true;
        } else if Some(record) == p.coreList {
          found, seen' := VisitAny(p, ty, arguments, seen');
        } else {
          found := record in p.recordDeinit;
          if !found {
            found, seen' := VisitAny(p, ty, arguments, seen');
          }
          if !found && record in p.recordFields {
            ghost var middle := seen';
            found, seen' := VisitAny(p, ty, p.recordFields[record], seen');
            if !found { ExploredTwice(p, seen + {ty}, middle, seen'); }
          }
        }
      case VariantType(variant, arguments) =>
        found := variant in p.variantDeinit;
        if !found {
          found, seen' := VisitAny(p, ty, arguments, seen');
        }
        if !found && variant in p.variantFields {
          ghost var middle := seen';
          found, seen' := VisitAny(p, ty, p.variantFields[variant], seen');
          if !found { ExploredTwice(p, seen + {ty}, middle, seen'); }
        }
      case RawListType(element) => found, seen' := VisitAny(p, ty, [element], seen');
      case SequenceType(element) => found, seen' := VisitAny(p, ty, [element], seen');
      case IntersectionType(members) => found, seen' := VisitAny(p, ty, members, seen');
      case _ => found := false;
    }
    if found && Bears(p, ty) {
      BearerReaches(p, ty);
    }
  }

  /** Stops at the first type found to need cleanup. */
  method VisitAny(p: Program, ghost from: TypeId, tys: seq<TypeId>, seen: set<TypeId>) returns (found: bool, seen': set<TypeId>)
    requires Closed(p) && from < |p.types| && Below(tys, |p.types|) && seen <= Ids(|p.types|)
    requires forall t :: t in tys ==> t in Edges(p, from)
    ensures found ==> ReachesCleanup(p, from)
    ensures !found ==> Explored(p, seen, seen') && forall t :: t in tys ==> t in seen'
    decreases Ids(|p.types|) - seen, 1
  {
    seen' := seen;
    for i := 0 to |tys|
      invariant Explored(p, seen, seen')
      invariant forall j :: 0 <= j < i ==> tys[j] in seen'
    {
      ghost var before := seen';
      found, seen' := Visit(p, tys[i], seen');
      if found {
        EdgeReaches(p, from, tys[i]);
        return;
      }
      ExploredTwice(p, seen, before, seen');
    }
    found := false;
  }

  /** True exactly when a type that calls for cleanup is reachable. */
  method HasCleanup(p: Program, ty: TypeId) returns (found: bool)
    requires Closed(p) && ty < |p.types|
    ensures found <==> ReachesCleanup(p, ty)
  {
    var seen;
    found, seen := Visit(p, ty, {});
    if !found && ReachesCleanup(p, ty) {
      var to: TypeId :| to < |p.types| && Reaches(p, ty, to) && Bears(p, to);
      var path :| Walk(p, path) && path[0] == ty && path[|path| - 1] == to;
      WalkStaysIn(p, path, seen, |path| - 1);
    }
  }

  lemma {:induction false} WalkStaysIn(p: Program, path: seq<TypeId>, seen: set<TypeId>, i: nat)
    requires Walk(p, path) && Explored(p, {}, seen) && path[0] in seen && i < |path|
    ensures path[i] in seen
  {
    if i > 0 {
      WalkStaysIn(p, path, seen, i - 1);
      assert path[i - 1 + 1] in Edges(p, path[i - 1]);
    }
  }

  // ---------------------------------------------------------------- the meaning, without a search

  predicate AnyIn(tys: seq<TypeId>, s: set<TypeId>) {
    exists t :: t in tys && t in s
  }

  /** What it takes for a type to need cleanup, if these types do: generics, callables, remotes and
      futures always do, references and scalars never, and a declared type through its
      own deinitializer, its arguments or its fields; a list only through its arguments. */
  predicate Needs(p: Program, ty: TypeId, s: set<TypeId>)
    requires ty < |p.types|
  {
    var t := p.types[ty];
    if t.GenericType? || t.FunctionType? || t.RemoteType? || t.FutureType? then true
    else if t.RecordType? then
      if Some(t.record) == p.coreFuture then true
      else if Some(t.record) == p.coreList then AnyIn(t.arguments, s)
      else t.record in p.recordDeinit || AnyIn(t.arguments, s)
           || (t.record in p.recordFields && AnyIn(p.recordFields[t.record], s))
    else if t.VariantType? then
      t.variant in p.variantDeinit || AnyIn(t.arguments, s)
      || (t.variant in p.variantFields && AnyIn(p.variantFields[t.variant], s))
    else if t.RawListType? || t.SequenceType? then t.element in s
    else t.IntersectionType? && AnyIn(t.members, s)
  }

  lemma NeedsByEdge(p: Program, ty: TypeId, s: set<TypeId>)
    requires ty < |p.types|
    ensures Needs(p, ty, s) <==> Bears(p, ty) || AnyIn(Edges(p, ty), s)
  {
    match p.types[ty] {
      case RecordType(r, a) =>
        assert forall t :: t in a + FieldsOf(p.recordFields, r) <==> t in a || t in FieldsOf(p.recordFields, r);
      case VariantType(v, a) =>
        assert forall t :: t in a + FieldsOf(p.variantFields, v) <==> t in a || t in FieldsOf(p.variantFields, v);
      case RawListType(e) => assert e in [e];
      case SequenceType(e) => assert e in [e];
      case _ =>
    }
  }

  /** The types that need cleanup. */
  ghost function Needing(p: Program): set<TypeId> {
    set t | t in Ids(|p.types|) && ReachesCleanup(p, t)
  }

  lemma WalkRest(p: Program, path: seq<TypeId>)
    requires Walk(p, path) && |path| > 1
    ensures Walk(p, path[1..]) && path[1] in Edges(p, path[0])
  {
    assert path[0 + 1] in Edges(p, path[0]);
    forall i | 0 <= i < |path| - 2 ensures path[1..][i + 1] in Edges(p, path[1..][i]) {
      assert path[i + 1 + 1] in Edges(p, path[i + 1]);
    }
  }

  lemma FirstEdge(p: Program, ty: TypeId) returns (next: TypeId)
    requires ty < |p.types| && ReachesCleanup(p, ty) && !Bears(p, ty)
    ensures next < |p.types| && next in Edges(p, ty) && ReachesCleanup(p, next)
  {
    var to: TypeId :| to < |p.types| && Reaches(p, ty, to) && Bears(p, to);
    var path :| Walk(p, path) && path[0] == ty && path[|path| - 1] == to;
    next := path[1];
    WalkRest(p, path);
    assert path[1..][0] == next && path[1..][|path[1..]| - 1] == to;
    assert Reaches(p, next, to);
  }

  /** They are those that need it if exactly they do ... */
  lemma NeedingIsFixed(p: Program, ty: TypeId)
    requires Closed(p) && ty < |p.types|
    ensures ty in Needing(p) <==> Needs(p, ty, Needing(p))
  {
    NeedsByEdge(p, ty, Needing(p));
    EdgesExist(p, ty);
    if ReachesCleanup(p, ty) && !Bears(p, ty) {
      var next := FirstEdge(p, ty);
      assert next in Needing(p);
    }
    if Bears(p, ty) {
      BearerReaches(p, ty);
    } else if t :| t in Edges(p, ty) && t in Needing(p) {
      EdgeReaches(p, ty, t);
    }
  }

  /** ... and no smaller set of types is like that: on a cycle nothing needs cleanup by itself. */
  lemma {:induction false} NeedingIsLeast(p: Program, s: set<TypeId>, path: seq<TypeId>)
    requires Walk(p, path) && Bears(p, path[|path| - 1])
    requires forall t: TypeId :: t < |p.types| && Needs(p, t, s) ==> t in s
    ensures path[0] in s
    decreases |path|
  {
    NeedsByEdge(p, path[0], s);
    if |path| > 1 {
      WalkRest(p, path);
      NeedingIsLeast(p, s, path[1..]);
    }
  }

  /** The search computes the least set of types closed under these rules. */
  lemma CleanupIsLeastNeed(p: Program, ty: TypeId, s: set<TypeId>)
    requires Closed(p) && ty < |p.types| && ReachesCleanup(p, ty)
    requires forall t: TypeId :: t < |p.types| && Needs(p, t, s) ==> t in s
    ensures ty in s
  {
    var to: TypeId :| to < |p.types| && Reaches(p, ty, to) && Bears(p, to);
    var path :| Walk(p, path) && path[0] == ty && path[|path| - 1] == to;
    NeedingIsLeast(p, s, path);
  }
}
