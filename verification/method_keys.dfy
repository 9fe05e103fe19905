/** The dispatch key of a method, made from its declared signature. */
module MethodKeys {
  import opened Prelude
  import opened Trees
  import opened Numbering
  import opened Canonicalization
  import opened Types
  import opened DispatchLaws
  import opened Agreement

  /** What a key is made from: the parameters behind the receiver, if there is one. */
  function Arguments(parameters: seq<Parameter>): seq<Parameter> {
    if parameters == [] then [] else parameters[1..]
  }

  function ModesOf(parameters: seq<Parameter>): seq<Mode> {
    seq(|parameters|, i requires 0 <= i < |parameters| => parameters[i].mode)
  }

  function TypesOf(parameters: seq<Parameter>): (r: seq<TypeId>)
    ensures |r| == |parameters| && forall i :: 0 <= i < |r| ==> r[i] == parameters[i].ty
  {
    seq(|parameters|, i requires 0 <= i < |parameters| => parameters[i].ty)
  }

  /** Every type of a signature exists. */
  predicate InArena(arena: Arena, parameters: seq<Parameter>) {
    Below(TypesOf(Arguments(parameters)), |arena|)
  }

  /** The erased types a method is identified by, for one code of the generic names. */
  function Erased(arena: Arena, parameters: seq<Parameter>, code: Types.Generics): seq<Tree>
    requires Layered(arena) && InArena(arena, parameters)
  {
    EraseAll(arena, TypesOf(Arguments(parameters)), |arena|, code)
  }

  ghost predicate IsKey(arena: Arena, parameters: seq<Parameter>, name: string, key: MethodKey)
    requires Layered(arena) && InArena(arena, parameters)
  {
    && key.name == name
    && key.modes == ModesOf(Arguments(parameters))
    && IsCanonical(FirstUseKeys(arena, TypesOf(Arguments(parameters)), |arena|, map[]).0, key.types)
  }

  /** `method_dispatch_key`: one numbering map across all parameters, then one canonical form. */
  method MethodDispatchKey(arena: Arena, signature: Option<seq<Parameter>>, name: string) returns (key: Option<MethodKey>)
    requires Layered(arena) && (signature.Some? ==> InArena(arena, signature.value))
    ensures key.Some? <==> signature.Some?
    ensures key.Some? ==> key.value.Valid() && IsKey(arena, signature.value, name, key.value)
  {
    if signature.None? {
      return None;
    }
    var arguments := Arguments(signature.value);
    var numbered, _ := KeysWithGenerics(arena, TypesOf(arguments), |arena|, map[]);
    var form := Canonical(numbered);
    CanonicalLength(numbered, form);
    KeysLength(arena, TypesOf(arguments), |arena|, map[]);
    return Some(MethodKey(name, ModesOf(arguments), form));
  }

  lemma {:induction false} KeysLength(arena: Arena, tys: seq<TypeId>, bound: nat, generics: Types.Generics)
    requires Layered(arena) && bound <= |arena| && Below(tys, bound)
    ensures |FirstUseKeys(arena, tys, bound, generics).0| == |tys|
    decreases |tys|
  {
    if tys != [] {
      KeysLength(arena, tys[1..], bound, FirstUseKey(arena, tys[0], generics).1);
    }
  }

  /** Two declarations have one method key exactly when names and modes agree and one injective
      renaming of generics, spanning all their parameters, with reorderings of intersection
      members turns the erased parameters of one into those of the other. */
  lemma KeysIdentifyMethods(arena: Arena, p: seq<Parameter>, m: string, k: MethodKey,
                            q: seq<Parameter>, n: string, l: MethodKey, code: Types.Generics)
    requires Layered(arena) && InArena(arena, p) && InArena(arena, q) && IsCode(code)
    requires NamesInAll(arena, TypesOf(Arguments(p)), |arena|) + NamesInAll(arena, TypesOf(Arguments(q)), |arena|) <= code.Keys
    requires IsKey(arena, p, m, k) && IsKey(arena, q, n, l)
    ensures k == l <==>
            m == n && ModesOf(Arguments(p)) == ModesOf(Arguments(q)) && Equivalent(Erased(arena, p, code), Erased(arena, q, code))
  {
    KeysIdentifyLists(arena, TypesOf(Arguments(p)), TypesOf(Arguments(q)), code, k.types, l.types);
  }

  /** Behind their receivers, the two declarations have the same modes and agreeing types. */
  ghost predicate SameBehindReceiver(arena: Arena, p: seq<Parameter>, q: seq<Parameter>, r: Renaming)
    requires Layered(arena) && forall i :: 0 <= i < |p| ==> p[i].ty < |arena|
    requires forall i :: 0 <= i < |q| ==> q[i].ty < |arena|
  {
    || (|p| <= 1 && |q| <= 1)
    || (|p| == |q| && forall i :: 1 <= i < |p| ==> p[i].mode == q[i].mode && Agree(arena, p[i].ty, q[i].ty, r))
  }

  /** Two declarations have one method key exactly when their names are equal and one renaming of
      generic names makes everything behind their receivers agree. */
  lemma KeysMeanSameMethod(arena: Arena, p: seq<Parameter>, m: string, k: MethodKey, q: seq<Parameter>, n: string, l: MethodKey)
    requires Layered(arena) && InArena(arena, p) && InArena(arena, q)
    requires forall i :: 0 <= i < |p| ==> p[i].ty < |arena|
    requires forall i :: 0 <= i < |q| ==> q[i].ty < |arena|
    requires IsKey(arena, p, m, k) && IsKey(arena, q, n, l)
    ensures k == l <==> m == n && exists r: Renaming :: OneToOne(r) && SameBehindReceiver(arena, p, q, r)
  {
    var a, b := Arguments(p), Arguments(q);
    KeysMeanAgreement(arena, TypesOf(a), TypesOf(b), k.types, l.types);
    forall r: Renaming ensures SameBehindReceiver(arena, p, q, r) <==>
                               ModesOf(a) == ModesOf(b) && AgreeInOrder(arena, TypesOf(a), |arena|, TypesOf(b), r)
    {
      BehindReceiver(arena, p, q, r);
    }
  }

  lemma BehindReceiver(arena: Arena, p: seq<Parameter>, q: seq<Parameter>, r: Renaming)
    requires Layered(arena) && InArena(arena, p) && InArena(arena, q)
    requires forall i :: 0 <= i < |p| ==> p[i].ty < |arena|
    requires forall i :: 0 <= i < |q| ==> q[i].ty < |arena|
    ensures SameBehindReceiver(arena, p, q, r) <==>
            ModesOf(Arguments(p)) == ModesOf(Arguments(q)) && AgreeInOrder(arena, TypesOf(Arguments(p)), |arena|, TypesOf(Arguments(q)), r)
  {
    var a, b := Arguments(p), Arguments(q);
    assert |ModesOf(a)| == |a| && |ModesOf(b)| == |b|;
    if |a| == |b| {
      forall i | 0 <= i < |a| ensures a[i] == p[i + 1] && b[i] == q[i + 1] {}
      if ModesOf(a) == ModesOf(b) && AgreeInOrder(arena, TypesOf(a), |arena|, TypesOf(b), r) && |p| > 1 {
        forall i | 1 <= i < |p| ensures p[i].mode == q[i].mode && Agree(arena, p[i].ty, q[i].ty, r) {
          assert ModesOf(a)[i - 1] == ModesOf(b)[i - 1];
          assert TypesOf(a)[i - 1] == p[i].ty && TypesOf(b)[i - 1] == q[i].ty;
        }
      }
    }
  }
}
