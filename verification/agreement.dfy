/** When two checked types are one for dispatch, said on the types themselves: no key, no numbering
    and no canonical form.  Keys are then proved to be equal exactly on such types. */
module Agreement {
  import opened Trees
  import opened Shapes
  import opened Numbering
  import opened Canonicalization
  import opened Types

  type Renaming = map<string, string>

  ghost predicate OneToOne(r: Renaming) {
    forall m, n :: m in r && n in r && r[m] == r[n] ==> m == n
  }

  lemma ComponentsBelow(arena: Arena, t: TypeId)
    requires Layered(arena) && t < |arena|
    ensures Below(Components(arena[t]), t)
    ensures arena[t].FunctionType? ==> arena[t].result < t && forall i :: 0 <= i < |arena[t].parameters| ==> arena[t].parameters[i].ty < t
    ensures arena[t].ReferenceType? || arena[t].RemoteType? || arena[t].FutureType? ==> arena[t].value < t
    ensures arena[t].RawListType? || arena[t].SequenceType? ==> arena[t].element < t
  {
    var c := Components(arena[t]);
    assert Below(c, t);
    match arena[t] {
      case FunctionType(p, r, _, _, _) =>
        assert c[|p|] == r;
        assert forall i :: 0 <= i < |p| ==> c[i] == p[i].ty;
      case ReferenceType(_, v) => assert c[0] == v;
      case RemoteType(v) => assert c[0] == v;
      case FutureType(v) => assert c[0] == v;
      case RawListType(e) => assert c[0] == e;
      case SequenceType(e) => assert c[0] == e;
      case _ =>
    }
  }

  /** The same type once reference groups and a callable's effects, suspension and erased flag are
      dropped, generics are renamed, and the members of intersections are paired in some order. */
  ghost predicate Agree(arena: Arena, t: TypeId, u: TypeId, r: Renaming)
    requires Layered(arena) && t < |arena| && u < |arena|
    decreases t
  {
    ComponentsBelow(arena, t);
    ComponentsBelow(arena, u);
    match arena[t]
    case NeverType => arena[u].NeverType?
    case GenericType(name) => arena[u].GenericType? && name in r && r[name] == arena[u].name
    case UnitType => arena[u].UnitType?
    case BoolType => arena[u].BoolType?
    case IntType => arena[u].IntType?
    case RawIntType => arena[u].RawIntType?
    case FloatType => arena[u].FloatType?
    case CodePointType => arena[u].CodePointType?
    case ByteType => arena[u].ByteType?
    case RawBytesType => arena[u].RawBytesType?
    case RawByteBufferType => arena[u].RawByteBufferType?
    case ReferenceType(_, v) => arena[u].ReferenceType? && Agree(arena, v, arena[u].value, r)
    case RawListType(e) => arena[u].RawListType? && Agree(arena, e, arena[u].element, r)
    case SequenceType(e) => arena[u].SequenceType? && Agree(arena, e, arena[u].element, r)
    case RemoteType(v) => arena[u].RemoteType? && Agree(arena, v, arena[u].value, r)
    case FutureType(v) => arena[u].FutureType? && Agree(arena, v, arena[u].value, r)
    case FunctionType(p, result, _, _, _) =>
      && arena[u].FunctionType? && |p| == |arena[u].parameters|
      && (forall i :: 0 <= i < |p| ==>
            p[i].mode == arena[u].parameters[i].mode && Agree(arena, p[i].ty, arena[u].parameters[i].ty, r))
      && Agree(arena, result, arena[u].result, r)
    case RecordType(id, a) => arena[u].RecordType? && id == arena[u].record && AgreeInOrder(arena, a, t, arena[u].arguments, r)
    case VariantType(id, a) => arena[u].VariantType? && id == arena[u].variant && AgreeInOrder(arena, a, t, arena[u].arguments, r)
    case IntersectionType(m) => arena[u].IntersectionType? && AgreeInSomeOrder(arena, m, t, arena[u].members, r)
    case ModuleType(path) => arena[u].ModuleType? && path == arena[u].path
  }

  ghost predicate AgreeInOrder(arena: Arena, ts: seq<TypeId>, bound: nat, us: seq<TypeId>, r: Renaming)
    requires Layered(arena) && bound <= |arena| && Below(ts, bound) && Below(us, |arena|)
    decreases bound, |ts|
  {
    |ts| == |us| && forall i :: 0 <= i < |ts| ==> Agree(arena, ts[i], us[i], r)
  }

  /** Each member has a partner of its own. */
  ghost predicate AgreeInSomeOrder(arena: Arena, ts: seq<TypeId>, bound: nat, us: seq<TypeId>, r: Renaming)
    requires Layered(arena) && bound <= |arena| && Below(ts, bound) && Below(us, |arena|)
    decreases bound, |ts|
  {
    if ts == [] then us == []
    else exists j :: 0 <= j < |us| && Agree(arena, ts[0], us[j], r) && AgreeInSomeOrder(arena, ts[1..], bound, Remove(us, j), r)
  }

  // ---------------------------------------------------------------- agreement is sameness of erasures

  /** The two codes number names as the renaming pairs them. */
  ghost predicate Coded(r: Renaming, ns: set<string>, ms: set<string>, c: Types.Generics, d: Types.Generics) {
    && ns <= c.Keys && ms <= d.Keys
    && forall n, m :: n in ns && m in ms ==> ((n in r && r[n] == m) <==> c[n] == d[m])
  }

  /** Other constructors than intersections agree by their parts, in order. */
  ghost predicate ByParts(arena: Arena, t: TypeId, u: TypeId, r: Renaming)
    requires Layered(arena) && t < |arena| && u < |arena| && !arena[t].GenericType? && !arena[u].GenericType?
    requires Below(Components(arena[t]), t) && Below(Components(arena[u]), |arena|)
  {
    HeadOf(arena[t]) == HeadOf(arena[u]) && AgreeInOrder(arena, Components(arena[t]), t, Components(arena[u]), r)
  }

  lemma AgreeByParts(arena: Arena, t: TypeId, u: TypeId, r: Renaming)
    requires Layered(arena) && t < |arena| && u < |arena|
    requires !arena[t].GenericType? && !arena[u].GenericType? && !arena[t].IntersectionType?
    ensures Below(Components(arena[t]), t) && Below(Components(arena[u]), |arena|)
    ensures Agree(arena, t, u, r) <==> ByParts(arena, t, u, r)
  {
    ComponentsBelow(arena, t);
    ComponentsBelow(arena, u);
    var x := arena[t];
    if x.FunctionType? {
      CallablesAgree(arena, t, u, r);
    } else if Wraps(x) {
      WrappersAgree(arena, t, u, r);
    } else {
      DeclaredAgree(arena, t, u, r);
    }
  }

  predicate Wraps(x: Type) {
    x.ReferenceType? || x.RawListType? || x.SequenceType? || x.RemoteType? || x.FutureType?
  }

  function Wrapped(x: Type): TypeId
    requires Wraps(x)
  {
    if x.RawListType? || x.SequenceType? then x.element else x.value
  }

  predicate SameWrapper(x: Type, y: Type) {
    || (x.ReferenceType? && y.ReferenceType?) || (x.RawListType? && y.RawListType?) || (x.SequenceType? && y.SequenceType?)
    || (x.RemoteType? && y.RemoteType?) || (x.FutureType? && y.FutureType?)
  }

  lemma WrapperParts(x: Type, y: Type)
    requires Wraps(x) && !y.GenericType?
    ensures HeadOf(x) == HeadOf(y) <==> SameWrapper(x, y)
    ensures Components(x) == [Wrapped(x)]
    ensures SameWrapper(x, y) ==> Wraps(y) && Components(y) == [Wrapped(y)]
  {
  }

  lemma WrappersAgree(arena: Arena, t: TypeId, u: TypeId, r: Renaming)
    requires Layered(arena) && t < |arena| && u < |arena| && !arena[u].GenericType? && Wraps(arena[t])
    requires Below(Components(arena[t]), t) && Below(Components(arena[u]), |arena|)
    ensures Agree(arena, t, u, r) <==> ByParts(arena, t, u, r)
  {
    WrapperParts(arena[t], arena[u]);
    if SameWrapper(arena[t], arena[u]) {
      var c, d := Components(arena[t]), Components(arena[u]);
      assert c[0] == Wrapped(arena[t]) && d[0] == Wrapped(arena[u]);
      OnePart(arena, Wrapped(arena[t]), t, Wrapped(arena[u]), r);
    }
  }

  lemma DeclaredAgree(arena: Arena, t: TypeId, u: TypeId, r: Renaming)
    requires Layered(arena) && t < |arena| && u < |arena| && !arena[t].GenericType? && !arena[u].GenericType?
    requires !arena[t].IntersectionType? && !arena[t].FunctionType?
    requires !Wraps(arena[t])
    requires Below(Components(arena[t]), t) && Below(Components(arena[u]), |arena|)
    ensures Agree(arena, t, u, r) <==> ByParts(arena, t, u, r)
  {
  }

  lemma OnePart(arena: Arena, v: TypeId, bound: nat, w: TypeId, r: Renaming)
    requires Layered(arena) && bound <= |arena| && v < bound && w < |arena|
    ensures AgreeInOrder(arena, [v], bound, [w], r) <==> Agree(arena, v, w, r)
  {
    assert [v][0] == v && [w][0] == w;
  }

  lemma ErasedParts(arena: Arena, t: TypeId, c: Types.Generics)
    requires Layered(arena) && t < |arena| && !arena[t].GenericType?
    ensures NamesIn(arena, t) == NamesInAll(arena, Components(arena[t]), t)
    ensures ShapeOf(Erase(arena, t, c)) ==
            if arena[t].IntersectionType? then Bag(BagOf(EraseAll(arena, Components(arena[t]), t, c)))
            else Ordered(HeadOf(arena[t]), ShapesOf(EraseAll(arena, Components(arena[t]), t, c)))
  {
    assert HeadOf(arena[t]).Intersection? <==> arena[t].IntersectionType?;
  }

  lemma CallablesAgree(arena: Arena, t: TypeId, u: TypeId, r: Renaming)
    requires Layered(arena) && t < |arena| && u < |arena| && arena[t].FunctionType?
    requires !arena[u].GenericType? && Below(Components(arena[t]), t) && Below(Components(arena[u]), |arena|)
    ensures Agree(arena, t, u, r) <==> ByParts(arena, t, u, r)
  {
    if arena[u].FunctionType? {
      var p, q := arena[t].parameters, arena[u].parameters;
      var c, d := Components(arena[t]), Components(arena[u]);
      assert c[|p|] == arena[t].result && d[|q|] == arena[u].result;
      assert forall i :: 0 <= i < |p| ==> c[i] == p[i].ty;
      assert forall i :: 0 <= i < |q| ==> d[i] == q[i].ty;
      ModesApart(p, q);
    }
  }

  lemma ModesApart(p: seq<Parameter>, q: seq<Parameter>)
    ensures seq(|p|, i requires 0 <= i < |p| => p[i].mode) == seq(|q|, i requires 0 <= i < |q| => q[i].mode) <==>
            |p| == |q| && forall i :: 0 <= i < |p| ==> p[i].mode == q[i].mode
  {
    var a, b := seq(|p|, i requires 0 <= i < |p| => p[i].mode), seq(|q|, i requires 0 <= i < |q| => q[i].mode);
    if a == b {
      assert |a| == |b|;
      forall i | 0 <= i < |p| ensures p[i].mode == q[i].mode {
        assert a[i] == b[i];
      }
    }
  }

  lemma GenericsAgree(arena: Arena, t: TypeId, u: TypeId, r: Renaming, c: Types.Generics, d: Types.Generics)
    requires Layered(arena) && t < |arena| && u < |arena| && (arena[t].GenericType? || arena[u].GenericType?)
    requires Coded(r, NamesIn(arena, t), NamesIn(arena, u), c, d)
    ensures Agree(arena, t, u, r) <==> ShapeOf(Erase(arena, t, c)) == ShapeOf(Erase(arena, u, d))
  {
    if !arena[t].GenericType? {
      NoGenericAgrees(arena, t, u, r);
      ErasedParts(arena, t, c);
    } else if !arena[u].GenericType? {
      ErasedParts(arena, u, d);
    } else {
      assert arena[t].name in NamesIn(arena, t) && arena[u].name in NamesIn(arena, u);
    }
  }

  lemma NoGenericAgrees(arena: Arena, t: TypeId, u: TypeId, r: Renaming)
    requires Layered(arena) && t < |arena| && u < |arena| && !arena[t].GenericType? && arena[u].GenericType?
    ensures !Agree(arena, t, u, r)
  {
  }

  lemma {:induction false} AgreeIsSameShape(arena: Arena, t: TypeId, u: TypeId, r: Renaming, c: Types.Generics, d: Types.Generics)
    requires Layered(arena) && t < |arena| && u < |arena|
    requires Coded(r, NamesIn(arena, t), NamesIn(arena, u), c, d)
    ensures Agree(arena, t, u, r) <==> ShapeOf(Erase(arena, t, c)) == ShapeOf(Erase(arena, u, d))
    decreases t
  {
    if arena[t].GenericType? || arena[u].GenericType? {
      GenericsAgree(arena, t, u, r, c, d);
    } else {
      ErasedParts(arena, t, c);
      ErasedParts(arena, u, d);
      if arena[t].IntersectionType? && arena[u].IntersectionType? {
        MembersAgree(arena, t, u, r);
        AgreeIsSameBag(arena, Components(arena[t]), t, Components(arena[u]), u, r, c, d);
      } else if arena[t].IntersectionType? {
        MembersAgree(arena, t, u, r);
      } else {
        AgreeByParts(arena, t, u, r);
        AgreeIsSameShapes(arena, Components(arena[t]), t, Components(arena[u]), u, r, c, d);
      }
    }
  }

  lemma MembersAgree(arena: Arena, t: TypeId, u: TypeId, r: Renaming)
    requires Layered(arena) && t < |arena| && u < |arena| && arena[t].IntersectionType?
    ensures Below(Components(arena[t]), t) && Below(Components(arena[u]), u)
    ensures Agree(arena, t, u, r) <==>
            arena[u].IntersectionType? && AgreeInSomeOrder(arena, Components(arena[t]), t, Components(arena[u]), r)
  {
    ComponentsBelow(arena, t);
    ComponentsBelow(arena, u);
  }

  lemma {:induction false} AgreeIsSameShapes(arena: Arena, ts: seq<TypeId>, bt: nat, us: seq<TypeId>, bu: nat,
                                             r: Renaming, c: Types.Generics, d: Types.Generics)
    requires Layered(arena) && bt <= |arena| && Below(ts, bt) && bu <= |arena| && Below(us, bu)
    requires Coded(r, NamesInAll(arena, ts, bt), NamesInAll(arena, us, bu), c, d)
    ensures AgreeInOrder(arena, ts, bt, us, r) <==> ShapesOf(EraseAll(arena, ts, bt, c)) == ShapesOf(EraseAll(arena, us, bu, d))
    decreases bt, |ts|
  {
    ErasedLength(arena, ts, bt, c);
    ErasedLength(arena, us, bu, d);
    if ts != [] && us != [] {
      AgreeIsSameShape(arena, ts[0], us[0], r, c, d);
      AgreeIsSameShapes(arena, ts[1..], bt, us[1..], bu, r, c, d);
      SplitShapes(EraseAll(arena, ts, bt, c), EraseAll(arena, us, bu, d));
      SplitAgreement(arena, ts, bt, us, r);
    } else if |ts| != |us| {
      assert |ShapesOf(EraseAll(arena, ts, bt, c))| != |ShapesOf(EraseAll(arena, us, bu, d))|;
    }
  }

  lemma SplitAgreement(arena: Arena, ts: seq<TypeId>, bound: nat, us: seq<TypeId>, r: Renaming)
    requires Layered(arena) && bound <= |arena| && Below(ts, bound) && Below(us, |arena|) && ts != [] && us != []
    ensures AgreeInOrder(arena, ts, bound, us, r) <==>
            Agree(arena, ts[0], us[0], r) && AgreeInOrder(arena, ts[1..], bound, us[1..], r)
  {
    if Agree(arena, ts[0], us[0], r) && AgreeInOrder(arena, ts[1..], bound, us[1..], r) {
      forall i | 0 <= i < |ts| ensures Agree(arena, ts[i], us[i], r) {
        if i > 0 {
          assert ts[i] == ts[1..][i - 1] && us[i] == us[1..][i - 1];
        }
      }
    }
  }

  lemma {:induction false} ErasedLength(arena: Arena, ts: seq<TypeId>, bound: nat, c: Types.Generics)
    requires Layered(arena) && bound <= |arena| && Below(ts, bound)
    ensures |EraseAll(arena, ts, bound, c)| == |ts|
    ensures forall i :: 0 <= i < |ts| ==> EraseAll(arena, ts, bound, c)[i] == Erase(arena, ts[i], c)
    decreases |ts|
  {
    if ts != [] {
      ErasedLength(arena, ts[1..], bound, c);
    }
  }

  lemma {:induction false} ErasedRemove(arena: Arena, us: seq<TypeId>, j: nat, bound: nat, d: Types.Generics)
    requires Layered(arena) && bound <= |arena| && Below(us, bound) && j < |us|
    ensures |EraseAll(arena, us, bound, d)| == |us|
    ensures EraseAll(arena, Remove(us, j), bound, d) == Remove(EraseAll(arena, us, bound, d), j)
  {
    ErasedLength(arena, us, bound, d);
    ErasedLength(arena, Remove(us, j), bound, d);
  }

  lemma {:induction false} NamesRemove(arena: Arena, us: seq<TypeId>, j: nat, bound: nat)
    requires Layered(arena) && bound <= |arena| && Below(us, bound) && j < |us|
    ensures NamesInAll(arena, us, bound) == NamesIn(arena, us[j]) + NamesInAll(arena, Remove(us, j), bound)
    decreases |us|
  {
    if j == 0 {
      assert Remove(us, 0) == us[1..];
    } else {
      NamesRemove(arena, us[1..], j - 1, bound);
      assert Remove(us, j)[1..] == Remove(us[1..], j - 1);
      assert us[1..][j - 1] == us[j];
    }
  }

  lemma {:induction false} AgreeIsSameBag(arena: Arena, ts: seq<TypeId>, bt: nat, us: seq<TypeId>, bu: nat,
                                          r: Renaming, c: Types.Generics, d: Types.Generics)
    requires Layered(arena) && bt <= |arena| && Below(ts, bt) && bu <= |arena| && Below(us, bu)
    requires Coded(r, NamesInAll(arena, ts, bt), NamesInAll(arena, us, bu), c, d)
    ensures AgreeInSomeOrder(arena, ts, bt, us, r) <==> BagOf(EraseAll(arena, ts, bt, c)) == BagOf(EraseAll(arena, us, bu, d))
    decreases bt, |ts|
  {
    if ts == [] {
      NoMembersAgree(arena, us, bu, d);
    } else {
      ErasedLength(arena, us, bu, d);
      var a, b := EraseAll(arena, ts, bt, c), EraseAll(arena, us, bu, d);
      if AgreeInSomeOrder(arena, ts, bt, us, r) {
        var j := FirstPair(arena, ts, bt, us, r);
        PairsUpBySameness(arena, ts, bt, us, bu, j, r, c, d);
        AddPartner(a, b, j);
      }
      if BagOf(a) == BagOf(b) {
        var j := BagPartner(a, 0, b);
        PairsUpBySameness(arena, ts, bt, us, bu, j, r, c, d);
        PairIsOrder(arena, ts, bt, us, j, r);
      }
    }
  }

  ghost predicate PairsUp(arena: Arena, ts: seq<TypeId>, bound: nat, us: seq<TypeId>, j: nat, r: Renaming)
    requires Layered(arena) && bound <= |arena| && Below(ts, bound) && Below(us, |arena|) && ts != [] && j < |us|
  {
    Agree(arena, ts[0], us[j], r) && AgreeInSomeOrder(arena, ts[1..], bound, Remove(us, j), r)
  }

  lemma FirstPair(arena: Arena, ts: seq<TypeId>, bound: nat, us: seq<TypeId>, r: Renaming) returns (j: nat)
    requires Layered(arena) && bound <= |arena| && Below(ts, bound) && Below(us, |arena|) && ts != []
    requires AgreeInSomeOrder(arena, ts, bound, us, r)
    ensures j < |us| && PairsUp(arena, ts, bound, us, j, r)
  {
    j :| 0 <= j < |us| && Agree(arena, ts[0], us[j], r) && AgreeInSomeOrder(arena, ts[1..], bound, Remove(us, j), r);
  }

  lemma PairIsOrder(arena: Arena, ts: seq<TypeId>, bound: nat, us: seq<TypeId>, j: nat, r: Renaming)
    requires Layered(arena) && bound <= |arena| && Below(ts, bound) && Below(us, |arena|) && ts != []
    requires j < |us| && PairsUp(arena, ts, bound, us, j, r)
    ensures AgreeInSomeOrder(arena, ts, bound, us, r)
  {
  }

  /** A pair is a step of an order exactly if the erasures of the two are the same and those of the
      others have the same bag. */
  lemma {:induction false} PairsUpBySameness(arena: Arena, ts: seq<TypeId>, bt: nat, us: seq<TypeId>, bu: nat, j: nat,
                                             r: Renaming, c: Types.Generics, d: Types.Generics)
    requires Layered(arena) && bt <= |arena| && Below(ts, bt) && bu <= |arena| && Below(us, bu) && ts != [] && j < |us|
    requires Coded(r, NamesInAll(arena, ts, bt), NamesInAll(arena, us, bu), c, d)
    ensures EraseAll(arena, ts, bt, c) != [] && |EraseAll(arena, us, bu, d)| == |us|
    ensures var a, b := EraseAll(arena, ts, bt, c), EraseAll(arena, us, bu, d);
            PairsUp(arena, ts, bt, us, j, r) <==> ShapeOf(a[0]) == ShapeOf(b[j]) && BagOf(Remove(a, 0)) == BagOf(Remove(b, j))
    decreases bt, |ts|, 1
  {
    PartnersErased(arena, ts, bt, us, bu, j, c, d);
    PartnersCoded(arena, ts, bt, us, bu, j, r, c, d);
    AgreeIsSameShape(arena, ts[0], us[j], r, c, d);
    OthersAgree(arena, ts, bt, us, bu, j, r, c, d);
  }

  lemma {:induction false} OthersAgree(arena: Arena, ts: seq<TypeId>, bt: nat, us: seq<TypeId>, bu: nat, j: nat,
                                       r: Renaming, c: Types.Generics, d: Types.Generics)
    requires Layered(arena) && bt <= |arena| && Below(ts, bt) && bu <= |arena| && Below(us, bu) && ts != [] && j < |us|
    requires Coded(r, NamesInAll(arena, ts[1..], bt), NamesInAll(arena, Remove(us, j), bu), c, d)
    ensures EraseAll(arena, ts, bt, c) != [] && |EraseAll(arena, us, bu, d)| == |us|
    ensures AgreeInSomeOrder(arena, ts[1..], bt, Remove(us, j), r) <==>
            BagOf(Remove(EraseAll(arena, ts, bt, c), 0)) == BagOf(Remove(EraseAll(arena, us, bu, d), j))
    decreases bt, |ts|, 0
  {
    PartnersErased(arena, ts, bt, us, bu, j, c, d);
    AgreeIsSameBag(arena, ts[1..], bt, Remove(us, j), bu, r, c, d);
  }

  lemma NoMembersAgree(arena: Arena, us: seq<TypeId>, bound: nat, d: Types.Generics)
    requires Layered(arena) && bound <= |arena| && Below(us, bound)
    ensures BagOf([]) == BagOf(EraseAll(arena, us, bound, d)) <==> us == []
  {
    ErasedLength(arena, us, bound, d);
    assert |BagOf(EraseAll(arena, us, bound, d))| == |us|;
  }

  lemma AddPartner(a: seq<Tree>, b: seq<Tree>, j: nat)
    requires a != [] && j < |b| && ShapeOf(a[0]) == ShapeOf(b[j]) && BagOf(Remove(a, 0)) == BagOf(Remove(b, j))
    ensures BagOf(a) == BagOf(b)
  {
    BagRemove(a, 0);
    BagRemove(b, j);
  }

  lemma PartnersCoded(arena: Arena, ts: seq<TypeId>, bt: nat, us: seq<TypeId>, bu: nat, j: nat,
                      r: Renaming, c: Types.Generics, d: Types.Generics)
    requires Layered(arena) && bt <= |arena| && Below(ts, bt) && bu <= |arena| && Below(us, bu) && ts != [] && j < |us|
    requires Coded(r, NamesInAll(arena, ts, bt), NamesInAll(arena, us, bu), c, d)
    ensures Coded(r, NamesInAll(arena, ts[1..], bt), NamesInAll(arena, Remove(us, j), bu), c, d)
    ensures Coded(r, NamesIn(arena, ts[0]), NamesIn(arena, us[j]), c, d)
  {
    NamesRemove(arena, us, j, bu);
  }

  lemma PartnersErased(arena: Arena, ts: seq<TypeId>, bt: nat, us: seq<TypeId>, bu: nat, j: nat, c: Types.Generics, d: Types.Generics)
    requires Layered(arena) && bt <= |arena| && Below(ts, bt) && bu <= |arena| && Below(us, bu) && ts != [] && j < |us|
    ensures |EraseAll(arena, ts, bt, c)| == |ts| && |EraseAll(arena, us, bu, d)| == |us|
    ensures EraseAll(arena, ts, bt, c)[0] == Erase(arena, ts[0], c) && EraseAll(arena, us, bu, d)[j] == Erase(arena, us[j], d)
    ensures EraseAll(arena, ts[1..], bt, c) == Remove(EraseAll(arena, ts, bt, c), 0)
    ensures EraseAll(arena, Remove(us, j), bu, d) == Remove(EraseAll(arena, us, bu, d), j)
  {
    ErasedLength(arena, ts, bt, c);
    ErasedLength(arena, us, bu, d);
    ErasedRemove(arena, us, j, bu, d);
    assert Remove(ts, 0) == ts[1..];
    ErasedRemove(arena, ts, 0, bt, c);
  }

  // ---------------------------------------------------------------- agreement is equivalence

  lemma {:induction false} ErasedGenerics(arena: Arena, t: TypeId, c: Types.Generics)
    requires Layered(arena) && t < |arena| && NamesIn(arena, t) <= c.Keys
    ensures Numbering.Generics(Erase(arena, t, c)) == set n | n in NamesIn(arena, t) :: c[n]
    decreases t
  {
    if !arena[t].GenericType? {
      ErasedGenericsAll(arena, Components(arena[t]), t, c);
    }
  }

  lemma {:induction false} ErasedGenericsAll(arena: Arena, ts: seq<TypeId>, bound: nat, c: Types.Generics)
    requires Layered(arena) && bound <= |arena| && Below(ts, bound) && NamesInAll(arena, ts, bound) <= c.Keys
    ensures GenericsAll(EraseAll(arena, ts, bound, c)) == set n | n in NamesInAll(arena, ts, bound) :: c[n]
    decreases bound, |ts|
  {
    if ts != [] {
      ErasedGenerics(arena, ts[0], c);
      ErasedGenericsAll(arena, ts[1..], bound, c);
      assert EraseAll(arena, ts, bound, c)[1..] == EraseAll(arena, ts[1..], bound, c);
    }
  }

  /** Renaming an erasure is erasing by the renamed code. */
  lemma {:induction false} EraseRenamed(arena: Arena, t: TypeId, c: Types.Generics, names: Names, d: Types.Generics)
    requires Layered(arena) && t < |arena| && NamesIn(arena, t) <= c.Keys
    requires forall n :: n in NamesIn(arena, t) ==> n in d && c[n] in names && names[c[n]] == d[n]
    ensures Subst(Erase(arena, t, c), AsSubst(names)) == Erase(arena, t, d)
    decreases t
  {
    if !arena[t].GenericType? {
      EraseRenamedAll(arena, Components(arena[t]), t, c, names, d);
    }
  }

  lemma {:induction false} EraseRenamedAll(arena: Arena, ts: seq<TypeId>, bound: nat, c: Types.Generics, names: Names, d: Types.Generics)
    requires Layered(arena) && bound <= |arena| && Below(ts, bound) && NamesInAll(arena, ts, bound) <= c.Keys
    requires forall n :: n in NamesInAll(arena, ts, bound) ==> n in d && c[n] in names && names[c[n]] == d[n]
    ensures SubstAll(EraseAll(arena, ts, bound, c), AsSubst(names)) == EraseAll(arena, ts, bound, d)
    decreases bound, |ts|
  {
    if ts != [] {
      EraseRenamed(arena, ts[0], c, names, d);
      EraseRenamedAll(arena, ts[1..], bound, c, names, d);
      assert EraseAll(arena, ts, bound, c)[1..] == EraseAll(arena, ts[1..], bound, c);
    }
  }

  /** The number an agreeing renaming gives a name of the left list. */
  function Carried(r: Renaming, c: Types.Generics): Types.Generics {
    map n | n in r && r[n] in c :: c[r[n]]
  }

  /** A renaming of names makes one of their numbers. */
  lemma RenamingOfNumbers(ns: set<string>, r: Renaming, c: Types.Generics) returns (names: Names)
    requires IsCode(c) && OneToOne(r) && ns <= c.Keys && forall n :: n in ns ==> n in r && r[n] in c
    ensures Injective(names) && names.Keys == set n | n in ns :: c[n]
    ensures forall n :: n in ns ==> c[n] in names && names[c[n]] == c[r[n]]
  {
    if ns == {} {
      names := map[];
    } else {
      var n :| n in ns;
      var rest := RenamingOfNumbers(ns - {n}, r, c);
      names := rest[c[n] := c[r[n]]];
      forall m | m in ns ensures c[m] in names && names[c[m]] == c[r[m]] {
        assert m == n || m in ns - {n};
      }
      forall x, y | x in names && y in names && names[x] == names[y] ensures x == y {
        var a :| a in ns && c[a] == x;
        var b :| b in ns && c[b] == y;
        assert r[a] == r[b];
      }
    }
  }

  lemma {:induction false} NameFollows(arena: Arena, t: TypeId, u: TypeId, r: Renaming)
    requires Layered(arena) && t < |arena| && u < |arena| && Agree(arena, t, u, r)
    ensures forall n :: n in NamesIn(arena, t) ==> n in r && r[n] in NamesIn(arena, u)
    decreases t
  {
    if !arena[t].GenericType? {
      if arena[u].GenericType? {
        NoGenericAgrees(arena, t, u, r);
      }
      ErasedParts(arena, t, map[]);
      ErasedParts(arena, u, map[]);
      if arena[t].IntersectionType? {
        MembersAgree(arena, t, u, r);
        NamesFollowInSomeOrder(arena, Components(arena[t]), t, Components(arena[u]), u, r);
      } else {
        AgreeByParts(arena, t, u, r);
        NamesFollow(arena, Components(arena[t]), t, Components(arena[u]), u, r);
      }
    }
  }

  lemma {:induction false} NamesFollow(arena: Arena, ts: seq<TypeId>, bt: nat, us: seq<TypeId>, bu: nat, r: Renaming)
    requires Layered(arena) && bt <= |arena| && Below(ts, bt) && bu <= |arena| && Below(us, bu)
    requires AgreeInOrder(arena, ts, bt, us, r)
    ensures forall n :: n in NamesInAll(arena, ts, bt) ==> n in r && r[n] in NamesInAll(arena, us, bu)
    decreases bt, |ts|
  {
    if ts != [] {
      SplitAgreement(arena, ts, bt, us, r);
      NameFollows(arena, ts[0], us[0], r);
      NamesFollow(arena, ts[1..], bt, us[1..], bu, r);
    }
  }

  lemma {:induction false} NamesFollowInSomeOrder(arena: Arena, ts: seq<TypeId>, bt: nat, us: seq<TypeId>, bu: nat, r: Renaming)
    requires Layered(arena) && bt <= |arena| && Below(ts, bt) && bu <= |arena| && Below(us, bu)
    requires AgreeInSomeOrder(arena, ts, bt, us, r)
    ensures forall n :: n in NamesInAll(arena, ts, bt) ==> n in r && r[n] in NamesInAll(arena, us, bu)
    decreases bt, |ts|
  {
    if ts != [] {
      var j := FirstPair(arena, ts, bt, us, r);
      NameFollows(arena, ts[0], us[j], r);
      NamesFollowInSomeOrder(arena, ts[1..], bt, Remove(us, j), bu, r);
      NamesRemove(arena, us, j, bu);
    }
  }

  /** Some one-to-one renaming of generic names makes two lists agree. */
  ghost predicate OneForDispatch(arena: Arena, ts: seq<TypeId>, us: seq<TypeId>)
    requires Layered(arena) && Below(ts, |arena|) && Below(us, |arena|)
  {
    exists r: Renaming :: OneToOne(r) && AgreeInOrder(arena, ts, |arena|, us, r)
  }

  lemma AgreementIsEquivalence(arena: Arena, ts: seq<TypeId>, us: seq<TypeId>, r: Renaming, c: Types.Generics)
    requires Layered(arena) && Below(ts, |arena|) && Below(us, |arena|) && IsCode(c)
    requires NamesInAll(arena, ts, |arena|) <= c.Keys && NamesInAll(arena, us, |arena|) <= c.Keys
    requires OneToOne(r) && AgreeInOrder(arena, ts, |arena|, us, r)
    ensures Equivalent(EraseAll(arena, ts, |arena|, c), EraseAll(arena, us, |arena|, c))
  {
    var ns, ms := NamesInAll(arena, ts, |arena|), NamesInAll(arena, us, |arena|);
    NamesFollow(arena, ts, |arena|, us, |arena|, r);
    var names := RenamingOfNumbers(ns, r, c);
    var d := Carried(r, c);
    EraseRenamedAll(arena, ts, |arena|, c, names, d);
    ErasedGenericsAll(arena, ts, |arena|, c);
    assert Coded(r, ns, ms, d, c);
    AgreeIsSameShapes(arena, ts, |arena|, us, |arena|, r, d, c);
    assert Renames(EraseAll(arena, ts, |arena|, c), EraseAll(arena, us, |arena|, c), names);
  }

  /** The names behind the numbers of a renaming. */
  lemma RenamingOfNames(ns: set<string>, ms: set<string>, names: Names, c: Types.Generics) returns (r: Renaming)
    requires IsCode(c) && ns <= c.Keys && ms <= c.Keys && Injective(names)
    requires forall n :: n in ns ==> c[n] in names && exists m :: m in ms && c[m] == names[c[n]]
    ensures OneToOne(r) && r.Keys == ns
    ensures forall n :: n in ns ==> r[n] in ms && c[r[n]] == names[c[n]]
  {
    if ns == {} {
      r := map[];
    } else {
      var n :| n in ns;
      var rest := RenamingOfNames(ns - {n}, ms, names, c);
      var m :| m in ms && c[m] == names[c[n]];
      r := rest[n := m];
      forall x | x in ns ensures r[x] in ms && c[r[x]] == names[c[x]] {
        assert x == n || x in ns - {n};
      }
      forall x, y | x in r && y in r && r[x] == r[y] ensures x == y {
        assert names[c[x]] == names[c[y]];
      }
    }
  }

  lemma EquivalenceIsAgreement(arena: Arena, ts: seq<TypeId>, us: seq<TypeId>, c: Types.Generics)
    requires Layered(arena) && Below(ts, |arena|) && Below(us, |arena|) && IsCode(c)
    requires NamesInAll(arena, ts, |arena|) <= c.Keys && NamesInAll(arena, us, |arena|) <= c.Keys
    requires Equivalent(EraseAll(arena, ts, |arena|, c), EraseAll(arena, us, |arena|, c))
    ensures OneForDispatch(arena, ts, us)
  {
    var ns, ms := NamesInAll(arena, ts, |arena|), NamesInAll(arena, us, |arena|);
    var a, b := EraseAll(arena, ts, |arena|, c), EraseAll(arena, us, |arena|, c);
    var names :| Renames(a, b, names);
    ErasedGenericsAll(arena, ts, |arena|, c);
    ErasedGenericsAll(arena, us, |arena|, c);
    RenamedGenerics(a, names);
    GenericsSameAll(false, SubstAll(a, AsSubst(names)), b);
    forall n | n in ns ensures c[n] in names && exists m :: m in ms && c[m] == names[c[n]] {
      assert c[n] in GenericsAll(a);
      assert names[c[n]] in GenericsAll(b);
    }
    var r := RenamingOfNames(ns, ms, names, c);
    var d := Carried(r, c);
    EraseRenamedAll(arena, ts, |arena|, c, names, d);
    assert Coded(r, ns, ms, d, c);
    AgreeIsSameShapes(arena, ts, |arena|, us, |arena|, r, d, c);
  }

  lemma SomeCode(names: set<string>) returns (c: Types.Generics)
    ensures c.Keys == names && IsCode(c) && forall n :: n in names ==> c[n] < |names|
  {
    if names == {} {
      c := map[];
    } else {
      var n :| n in names;
      var rest := SomeCode(names - {n});
      c := rest[n := |names| - 1];
    }
  }

  // ---------------------------------------------------------------- keys

  /** Two lists of types, each numbered by one map across the list and canonicalized, have one form
      exactly when one renaming of generic names, spanning the list, makes them agree. */
  lemma KeysMeanAgreement(arena: Arena, ts: seq<TypeId>, us: seq<TypeId>, c: seq<Tree>, d: seq<Tree>)
    requires Layered(arena) && Below(ts, |arena|) && Below(us, |arena|)
    requires IsCanonical(FirstUseKeys(arena, ts, |arena|, map[]).0, c)
    requires IsCanonical(FirstUseKeys(arena, us, |arena|, map[]).0, d)
    ensures c == d <==> OneForDispatch(arena, ts, us)
  {
    var code := SomeCode(NamesInAll(arena, ts, |arena|) + NamesInAll(arena, us, |arena|));
    KeysIdentifyLists(arena, ts, us, code, c, d);
    if OneForDispatch(arena, ts, us) {
      var r: Renaming :| OneToOne(r) && AgreeInOrder(arena, ts, |arena|, us, r);
      AgreementIsEquivalence(arena, ts, us, r, code);
    }
    if c == d {
      EquivalenceIsAgreement(arena, ts, us, code);
    }
  }

  /** Two types have one dispatch key exactly when some renaming of generic names makes them agree. */
  lemma KeyMeansAgreement(arena: Arena, t: TypeId, u: TypeId, k: Tree, l: Tree)
    requires Layered(arena) && t < |arena| && u < |arena|
    requires IsCanonical([FirstUseKey(arena, t, map[]).0], [k])
    requires IsCanonical([FirstUseKey(arena, u, map[]).0], [l])
    ensures k == l <==> exists r: Renaming :: OneToOne(r) && Agree(arena, t, u, r)
  {
    SingleList(arena, t, map[]);
    SingleList(arena, u, map[]);
    KeysMeanAgreement(arena, [t], [u], [k], [l]);
    assert [k] == [l] <==> k == l by {
      assert [k][0] == k && [l][0] == l;
    }
    forall r: Renaming ensures AgreeInOrder(arena, [t], |arena|, [u], r) <==> Agree(arena, t, u, r) {
      OnePart(arena, t, |arena|, u, r);
    }
  }
}
