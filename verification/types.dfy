/** The arena of checked types: erasure to dispatch keys. */
module Types {
  import opened Trees
  import opened Shapes
  import opened Numbering
  import opened Canonicalization

  type TypeId = nat

  datatype Parameter = Parameter(mode: Mode, ty: TypeId)

  datatype Type =
    | NeverType | GenericType(name: string) | UnitType | BoolType | IntType | RawIntType | FloatType
    | CodePointType | ByteType | RawBytesType | RawByteBufferType
    | ReferenceType(group: string, value: TypeId)
    | RawListType(element: TypeId)
    | SequenceType(element: TypeId)
    | RemoteType(value: TypeId)
    | FutureType(value: TypeId)
    | FunctionType(parameters: seq<Parameter>, result: TypeId, erased: bool, effects: seq<string>, suspends: bool)
    | RecordType(record: nat, arguments: seq<TypeId>)
    | IntersectionType(members: seq<TypeId>)
    | VariantType(variant: nat, arguments: seq<TypeId>)
    | ModuleType(path: string)

  type Arena = seq<Type>

  /** The types a type is written with, left to right. */
  function Components(t: Type): seq<TypeId> {
    match t
    case ReferenceType(_, v) => [v]
    case RawListType(v) => [v]
    case SequenceType(v) => [v]
    case RemoteType(v) => [v]
    case FutureType(v) => [v]
    case FunctionType(p, r, _, _, _) => seq(|p|, i requires 0 <= i < |p| => p[i].ty) + [r]
    case RecordType(_, a) => a
    case IntersectionType(m) => m
    case VariantType(_, a) => a
    case _ => []
  }

  /** A type is allocated after the types it is written with. */
  ghost predicate Layered(arena: Arena) {
    forall i :: 0 <= i < |arena| ==> Below(Components(arena[i]), i)
  }

  predicate Below(tys: seq<TypeId>, bound: nat) {
    forall i :: 0 <= i < |tys| ==> tys[i] < bound
  }

  // ---------------------------------------------------------------- erasure

  /** What dispatch keeps of a constructor: reference groups and a callable's effects,
      suspension and erased flag are dropped. */
  function HeadOf(t: Type): Head
    requires !t.GenericType?
  {
    match t
    case NeverType => Never
    case UnitType => Unit
    case BoolType => Bool
    case IntType => Int
    case RawIntType => RawInt
    case FloatType => Float
    case CodePointType => CodePoint
    case ByteType => Byte
    case RawBytesType => RawBytes
    case RawByteBufferType => RawByteBuffer
    case ReferenceType(_, _) => Reference
    case RawListType(_) => RawList
    case SequenceType(_) => Sequence
    case RemoteType(_) => Remote
    case FutureType(_) => Future
    case FunctionType(p, _, _, _, _) => Function(seq(|p|, i requires 0 <= i < |p| => p[i].mode))
    case RecordType(r, _) => Record(r)
    case IntersectionType(_) => Intersection
    case VariantType(v, _) => Variant(v)
    case ModuleType(p) => Module(p)
  }

  type Generics = map<string, nat>

  /** The key of a type whose generics are numbered by one given map. */
  function Erase(arena: Arena, ty: TypeId, code: Generics): Tree
    requires Layered(arena) && ty < |arena|
    decreases ty
  {
    match arena[ty]
    case GenericType(name) => Gen(if name in code then code[name] else 0)
    case _ => Node(HeadOf(arena[ty]), EraseAll(arena, Components(arena[ty]), ty, code))
  }

  function EraseAll(arena: Arena, tys: seq<TypeId>, bound: nat, code: Generics): (r: seq<Tree>)
    requires Layered(arena) && bound <= |arena| && Below(tys, bound)
    decreases bound, |tys|
  {
    if tys == [] then [] else [Erase(arena, tys[0], code)] + EraseAll(arena, tys[1..], bound, code)
  }

  /** Erasure that numbers generics in the order they are met. */
  function FirstUseKey(arena: Arena, ty: TypeId, generics: Generics): (Tree, Generics)
    requires Layered(arena) && ty < |arena|
    decreases ty
  {
    match arena[ty]
    case GenericType(name) =>
      if name in generics then (Gen(generics[name]), generics)
      else (Gen(|generics|), generics[name := |generics|])
    case _ =>
      var (children, after) := FirstUseKeys(arena, Components(arena[ty]), ty, generics);
      (Node(HeadOf(arena[ty]), children), after)
  }

  function FirstUseKeys(arena: Arena, tys: seq<TypeId>, bound: nat, generics: Generics): (seq<Tree>, Generics)
    requires Layered(arena) && bound <= |arena| && Below(tys, bound)
    decreases bound, |tys|
  {
    if tys == [] then ([], generics)
    else
      var (first, between) := FirstUseKey(arena, tys[0], generics);
      var (rest, after) := FirstUseKeys(arena, tys[1..], bound, between);
      ([first] + rest, after)
  }

  function NamesIn(arena: Arena, ty: TypeId): set<string>
    requires Layered(arena) && ty < |arena|
    decreases ty
  {
    match arena[ty]
    case GenericType(name) => {name}
    case _ => NamesInAll(arena, Components(arena[ty]), ty)
  }

  function NamesInAll(arena: Arena, tys: seq<TypeId>, bound: nat): set<string>
    requires Layered(arena) && bound <= |arena| && Below(tys, bound)
    decreases bound, |tys|
  {
    if tys == [] then {} else NamesIn(arena, tys[0]) + NamesInAll(arena, tys[1..], bound)
  }

  /** A code gives different names different numbers. */
  ghost predicate IsCode(code: Generics) {
    forall m, n :: m in code && n in code && code[m] == code[n] ==> m == n
  }

  ghost predicate SameNumbers(code: Generics, generics: Generics, names: Names) {
    && |generics| == |names|
    && forall n :: n in code ==>
         (n in generics <==> code[n] in names) && (n in generics ==> names[code[n]] == generics[n])
  }

  /** Numbering names while erasing is erasing by any code and numbering afterwards. */
  lemma {:induction false} FirstUseIsNumber(arena: Arena, ty: TypeId, code: Generics, generics: Generics, names: Names)
    requires Layered(arena) && ty < |arena| && IsCode(code) && NamesIn(arena, ty) <= code.Keys
    requires SameNumbers(code, generics, names)
    ensures FirstUseKey(arena, ty, generics).0 == Number(Erase(arena, ty, code), names).0
    ensures SameNumbers(code, FirstUseKey(arena, ty, generics).1, Number(Erase(arena, ty, code), names).1)
    decreases ty
  {
    if !arena[ty].GenericType? {
      FirstUseIsNumberAll(arena, Components(arena[ty]), ty, code, generics, names);
    }
  }

  lemma {:induction false} FirstUseIsNumberAll(arena: Arena, tys: seq<TypeId>, bound: nat, code: Generics, generics: Generics, names: Names)
    requires Layered(arena) && bound <= |arena| && Below(tys, bound)
    requires IsCode(code) && NamesInAll(arena, tys, bound) <= code.Keys
    requires SameNumbers(code, generics, names)
    ensures FirstUseKeys(arena, tys, bound, generics).0 == NumberAll(EraseAll(arena, tys, bound, code), names).0
    ensures SameNumbers(code, FirstUseKeys(arena, tys, bound, generics).1, NumberAll(EraseAll(arena, tys, bound, code), names).1)
    decreases bound, |tys|
  {
    if tys != [] {
      FirstUseIsNumber(arena, tys[0], code, generics, names);
      var between := FirstUseKey(arena, tys[0], generics).1;
      var named := Number(Erase(arena, tys[0], code), names).1;
      FirstUseIsNumberAll(arena, tys[1..], bound, code, between, named);
      assert EraseAll(arena, tys, bound, code)[1..] == EraseAll(arena, tys[1..], bound, code);
    }
  }

  // ---------------------------------------------------------------- the key of a type

  /** `dispatch_type_key_with_generics`: one walk that threads the numbering map. */
  method KeyWithGenerics(arena: Arena, ty: TypeId, generics: Generics) returns (key: Tree, after: Generics)
    requires Layered(arena) && ty < |arena|
    ensures (key, after) == FirstUseKey(arena, ty, generics)
    decreases ty, 1
  {
    match arena[ty]
    case GenericType(name) =>
      after := if name in generics then generics else generics[name := |generics|];
      key := Gen(after[name]);
    case _ =>
      var children;
      children, after := KeysWithGenerics(arena, Components(arena[ty]), ty, generics);
      key := Node(HeadOf(arena[ty]), children);
  }

  /** The keys made so far, and what is left to make, are the keys of the whole list. */
  ghost predicate Made(arena: Arena, tys: seq<TypeId>, bound: nat, generics: Generics, i: nat, keys: seq<Tree>, after: Generics)
    requires Layered(arena) && bound <= |arena| && Below(tys, bound) && i <= |tys|
  {
    && Below(tys[i..], bound)
    && var rest := FirstUseKeys(arena, tys[i..], bound, after);
       FirstUseKeys(arena, tys, bound, generics) == (keys + rest.0, rest.1)
  }

  lemma MadeNone(arena: Arena, tys: seq<TypeId>, bound: nat, generics: Generics)
    requires Layered(arena) && bound <= |arena| && Below(tys, bound)
    ensures Made(arena, tys, bound, generics, 0, [], generics)
  {
    assert tys[0..] == tys;
    var keys := FirstUseKeys(arena, tys, bound, generics).0;
    assert [] + keys == keys;
  }

  lemma MadeOne(arena: Arena, tys: seq<TypeId>, bound: nat, generics: Generics, i: nat, keys: seq<Tree>, after: Generics)
    requires Layered(arena) && bound <= |arena| && Below(tys, bound) && i < |tys|
    requires Made(arena, tys, bound, generics, i, keys, after)
    ensures var (key, next) := FirstUseKey(arena, tys[i], after);
            Made(arena, tys, bound, generics, i + 1, keys + [key], next)
  {
    assert tys[i..][1..] == tys[i + 1..];
    var (key, next) := FirstUseKey(arena, tys[i], after);
    var rest := FirstUseKeys(arena, tys[i + 1..], bound, next).0;
    assert keys + ([key] + rest) == (keys + [key]) + rest;
  }

  lemma MadeAll(arena: Arena, tys: seq<TypeId>, bound: nat, generics: Generics, keys: seq<Tree>, after: Generics)
    requires Layered(arena) && bound <= |arena| && Below(tys, bound)
    requires Made(arena, tys, bound, generics, |tys|, keys, after)
    ensures FirstUseKeys(arena, tys, bound, generics) == (keys, after)
  {
    assert tys[|tys|..] == [] && keys + [] == keys;
  }

  method KeysWithGenerics(arena: Arena, tys: seq<TypeId>, ghost bound: nat, generics: Generics)
    returns (keys: seq<Tree>, after: Generics)
    requires Layered(arena) && bound <= |arena| && Below(tys, bound)
    ensures (keys, after) == FirstUseKeys(arena, tys, bound, generics)
    decreases bound, 0
  {
    keys, after := [], generics;
    MadeNone(arena, tys, bound, generics);
    for i := 0 to |tys|
      invariant Made(arena, tys, bound, generics, i, keys, after)
    {
      MadeOne(arena, tys, bound, generics, i, keys, after);
      var key;
      key, after := KeyWithGenerics(arena, tys[i], after);
      keys := keys + [key];
    }
    MadeAll(arena, tys, bound, generics, keys, after);
  }

  /** `dispatch_type_key`: first-use numbering, then the canonical form. */
  method DispatchTypeKey(arena: Arena, ty: TypeId) returns (key: Tree)
    requires Layered(arena) && ty < |arena|
    ensures IsCanonical([FirstUseKey(arena, ty, map[]).0], [key])
  {
    var numbered, _ := KeyWithGenerics(arena, ty, map[]);
    var form := Canonical([numbered]);
    CanonicalLength([numbered], form);
    key := form[0];
    assert form == [key];
  }

  /** Numbering names while erasing a list is, up to renaming, erasing it by any code of its names. */
  lemma FirstUseIsErasure(arena: Arena, tys: seq<TypeId>, code: Generics)
    requires Layered(arena) && Below(tys, |arena|) && IsCode(code) && NamesInAll(arena, tys, |arena|) <= code.Keys
    ensures Equivalent(EraseAll(arena, tys, |arena|, code), FirstUseKeys(arena, tys, |arena|, map[]).0)
  {
    var s := EraseAll(arena, tys, |arena|, code);
    FirstUseIsNumberAll(arena, tys, |arena|, code, map[], map[]);
    var names := NumberAll(s, map[]).1;
    NumberNamesAll(s, map[]);
    NumberDenseAll(s, map[]);
    NumberRenamesAll(s, map[], names);
    assert Renames(s, FirstUseKeys(arena, tys, |arena|, map[]).0, names);
  }

  /** Two lists of types, each numbered by one map across the list, have one canonical form exactly
      when they agree after erasure, up to one injective renaming of generics and the order of
      intersection members; neither the code that numbers the names nor the first-use
      numbering made before canonicalization matters. */
  lemma KeysIdentifyLists(arena: Arena, ts: seq<TypeId>, us: seq<TypeId>, code: Generics, c: seq<Tree>, d: seq<Tree>)
    requires Layered(arena) && Below(ts, |arena|) && Below(us, |arena|) && IsCode(code)
    requires NamesInAll(arena, ts, |arena|) + NamesInAll(arena, us, |arena|) <= code.Keys
    requires IsCanonical(FirstUseKeys(arena, ts, |arena|, map[]).0, c)
    requires IsCanonical(FirstUseKeys(arena, us, |arena|, map[]).0, d)
    ensures c == d <==> Equivalent(EraseAll(arena, ts, |arena|, code), EraseAll(arena, us, |arena|, code))
  {
    FirstUseIsErasure(arena, ts, code);
    FirstUseIsErasure(arena, us, code);
    var t, u := FirstUseKeys(arena, ts, |arena|, map[]).0, FirstUseKeys(arena, us, |arena|, map[]).0;
    CanonicalIsCompleteInvariant(t, u, c, d);
    EquivalentAcross(EraseAll(arena, ts, |arena|, code), t, EraseAll(arena, us, |arena|, code), u);
  }

  lemma EquivalentAcross(s: seq<Tree>, t: seq<Tree>, v: seq<Tree>, u: seq<Tree>)
    requires Equivalent(s, t) && Equivalent(v, u)
    ensures Equivalent(t, u) <==> Equivalent(s, v)
  {
    EquivalentSymmetric(s, t);
    EquivalentSymmetric(v, u);
    if Equivalent(t, u) {
      EquivalentTransitive(s, t, u);
      EquivalentTransitive(s, u, v);
    }
    if Equivalent(s, v) {
      EquivalentTransitive(t, s, v);
      EquivalentTransitive(t, v, u);
    }
  }

  /** Two types have one key exactly when their erasures are one signature. */
  lemma KeysIdentifyTypes(arena: Arena, t: TypeId, u: TypeId, code: Generics, k: Tree, l: Tree)
    requires Layered(arena) && t < |arena| && u < |arena|
    requires IsCode(code) && NamesIn(arena, t) + NamesIn(arena, u) <= code.Keys
    requires IsCanonical([FirstUseKey(arena, t, map[]).0], [k])
    requires IsCanonical([FirstUseKey(arena, u, map[]).0], [l])
    ensures k == l <==> Equivalent([Erase(arena, t, code)], [Erase(arena, u, code)])
  {
    SingleList(arena, t, code);
    SingleList(arena, u, code);
    KeysIdentifyLists(arena, [t], [u], code, [k], [l]);
    assert [k] == [l] <==> k == l by {
      assert [k][0] == k && [l][0] == l;
    }
  }

  lemma SingleList(arena: Arena, t: TypeId, code: Generics)
    requires Layered(arena) && t < |arena|
    ensures Below([t], |arena|) && NamesInAll(arena, [t], |arena|) == NamesIn(arena, t)
    ensures EraseAll(arena, [t], |arena|, code) == [Erase(arena, t, code)]
    ensures FirstUseKeys(arena, [t], |arena|, map[]).0 == [FirstUseKey(arena, t, map[]).0]
  {
    assert [t][1..] == [];
  }
}
