/** How matching and canonical identity relate, and what neither of them can see. */
module DispatchLaws {
  import opened Trees
  import opened Shapes
  import opened Numbering
  import opened Canonicalization
  import opened Matching

  /** Reordering intersection members on either side never changes a match. */
  lemma MatchIgnoresOrder(p: seq<Tree>, p': seq<Tree>, a: seq<Tree>, a': seq<Tree>)
    requires ShapesOf(p) == ShapesOf(p') && ShapesOf(a) == ShapesOf(a')
    ensures Instantiates(p, a) ==> Instantiates(p', a')
  {
    if Instantiates(p, a) {
      var s :| InstantiatedBy(p, a, s);
      assert Agree(s, s);
      SubstSameAll(false, p, p', s, s);
      assert InstantiatedBy(p', a', s);
    }
  }

  lemma MatchTransitive(p: seq<Tree>, q: seq<Tree>, w: seq<Tree>)
    requires Instantiates(p, q) && Instantiates(q, w)
    ensures Instantiates(p, w)
  {
    var s :| InstantiatedBy(p, q, s);
    var t :| InstantiatedBy(q, w, t);
    var both: map<nat, Tree> := map n | n in GenericsAll(p) :: Subst(Subst(Gen(n), s), t);
    SubstComposeAll(p, s, t, both);
    assert Agree(t, t);
    SubstSameAll(false, SubstAll(p, s), q, t, t);
    assert InstantiatedBy(p, w, both);
  }

  // ---------------------------------------------------------------- counting constructors

  function Nodes(t: Tree): nat {
    match t
    case Gen(_) => 0
    case Node(_, c) => 1 + NodesAll(c)
  }

  function NodesAll(ts: seq<Tree>): nat {
    if ts == [] then 0 else Nodes(ts[0]) + NodesAll(ts[1..])
  }

  lemma {:induction false} NodesRemove(s: seq<Tree>, i: nat)
    requires i < |s|
    ensures NodesAll(s) == NodesAll(Remove(s, i)) + Nodes(s[i])
  {
    if i == 0 {
      assert Remove(s, 0) == s[1..];
    } else {
      NodesRemove(s[1..], i - 1);
      assert Remove(s, i)[1..] == Remove(s[1..], i - 1);
    }
  }

  lemma {:induction false} NodesSame(unordered: bool, a: seq<Tree>, b: seq<Tree>)
    requires Same(unordered, a, b)
    ensures NodesAll(a) == NodesAll(b)
    decreases a
  {
    if a == [] {
      SameLength(unordered, a, b);
    } else {
      var j := SamePartner(unordered, a, b);
      if a[0].Node? {
        NodesSame(a[0].head.Intersection?, a[0].children, b[j].children);
      }
      NodesSame(unordered, a[1..], Remove(b, j));
      NodesRemove(b, j);
    }
  }

  /** Substitution adds constructors unless it maps generics to generics. */
  lemma {:induction false} NodesSubst(ts: seq<Tree>, s: map<nat, Tree>)
    ensures NodesAll(SubstAll(ts, s)) >= NodesAll(ts)
    ensures NodesAll(SubstAll(ts, s)) == NodesAll(ts) ==> forall n <- GenericsAll(ts) :: Subst(Gen(n), s).Gen?
  {
    if ts != [] {
      NodesSubst(ts[1..], s);
      if ts[0].Node? {
        NodesSubst(ts[0].children, s);
      }
      assert SubstAll(ts, s)[1..] == SubstAll(ts[1..], s);
    }
  }

  // ---------------------------------------------------------------- renamings by counting

  function Image(domain: set<nat>, r: Names): set<nat>
    requires domain <= r.Keys
  {
    set n | n in domain :: r[n]
  }

  lemma {:induction false} ImageSize(domain: set<nat>, r: Names)
    requires domain <= r.Keys
    ensures |Image(domain, r)| <= |domain|
  {
    if domain != {} {
      var n :| n in domain;
      ImageSize(domain - {n}, r);
      assert Image(domain, r) == Image(domain - {n}, r) + {r[n]};
    }
  }

  lemma ImageLoses(r: Names, m: nat, n: nat)
    requires m in r && n in r && m != n && r[m] == r[n]
    ensures |Image(r.Keys, r)| < |r.Keys|
  {
    ImageSize(r.Keys - {m}, r);
    assert n in r.Keys - {m};
    assert Image(r.Keys, r) == Image(r.Keys - {m}, r);
  }

  /** A map that loses no element is injective. */
  lemma FullImageIsInjective(r: Names)
    requires |Image(r.Keys, r)| == |r.Keys|
    ensures Injective(r)
  {
    forall m, n | m in r && n in r && r[m] == r[n] ensures m == n {
      if m != n {
        ImageLoses(r, m, n);
      }
    }
  }

  /** If the pattern has as many constructors as the actual, matching can only rename. */
  lemma OnlyRenames(p: seq<Tree>, q: seq<Tree>, s: map<nat, Tree>) returns (r: Names)
    requires InstantiatedBy(p, q, s) && NodesAll(p) == NodesAll(q)
    ensures r.Keys == GenericsAll(p)
    ensures GenericsAll(q) == Image(r.Keys, r)
    ensures ShapesOf(SubstAll(p, AsSubst(r))) == ShapesOf(q)
  {
    NodesSubst(p, s);
    NodesSame(false, SubstAll(p, s), q);
    r := map n | n in GenericsAll(p) :: Subst(Gen(n), s).index;
    SubstComposeAll(p, AsSubst(r), map[], s);
    SubstNothing(SubstAll(p, AsSubst(r)));
    RenamedGenerics(p, r);
    GenericsSameAll(false, SubstAll(p, AsSubst(r)), q);
  }

  /** Each of two signatures matches the other exactly when they are one signature up to a
      renaming of generics and the order of intersection members. */
  lemma MutualMatchIsEquivalence(p: seq<Tree>, q: seq<Tree>)
    ensures Instantiates(p, q) && Instantiates(q, p) <==> Equivalent(p, q)
  {
    if Instantiates(p, q) && Instantiates(q, p) {
      var s :| InstantiatedBy(p, q, s);
      var t :| InstantiatedBy(q, p, t);
      NodesSubst(p, s);
      NodesSame(false, SubstAll(p, s), q);
      NodesSubst(q, t);
      NodesSame(false, SubstAll(q, t), p);
      var r := OnlyRenames(p, q, s);
      var v := OnlyRenames(q, p, t);
      ImageSize(r.Keys, r);
      ImageSize(v.Keys, v);
      FullImageIsInjective(r);
      assert Renames(p, q, r);
    }
    if Equivalent(p, q) {
      EquivalentSymmetric(p, q);
      var r :| Renames(p, q, r);
      var v :| Renames(q, p, v);
      assert InstantiatedBy(p, q, AsSubst(r)) && InstantiatedBy(q, p, AsSubst(v));
    }
  }

  /** The two entry points agree: canonical forms coincide exactly when each side matches the other. */
  lemma IdentityIsMutualMatch(p: seq<Tree>, q: seq<Tree>, c: seq<Tree>, d: seq<Tree>)
    requires IsCanonical(p, c) && IsCanonical(q, d)
    ensures c == d <==> Instantiates(p, q) && Instantiates(q, p)
  {
    CanonicalIsCompleteInvariant(p, q, c, d);
    MutualMatchIsEquivalence(p, q);
  }

  /** Canonicalizing either side first never changes a match. */
  lemma MatchSurvivesCanonical(p: seq<Tree>, c: seq<Tree>, a: seq<Tree>)
    requires IsCanonical(p, c)
    ensures Instantiates(p, a) <==> Instantiates(c, a)
  {
    CanonicalIsEquivalent(p, c);
    MutualMatchIsEquivalence(p, c);
    if Instantiates(p, a) {
      MatchTransitive(c, p, a);
    }
    if Instantiates(c, a) {
      MatchTransitive(p, c, a);
    }
  }

  // ---------------------------------------------------------------- whole method keys

  /** A method's dispatch key: its name and the modes and types of its parameters. */
  datatype MethodKey = MethodKey(name: string, modes: seq<Mode>, types: seq<Tree>) {
    ghost predicate Valid() {
      |modes| == |types|
    }
  }

  /** Name and modes are compared as they are; only types are matched. */
  method MethodMatches(pattern: MethodKey, actual: MethodKey) returns (ok: bool)
    requires pattern.Valid() && actual.Valid()
    ensures ok <==> pattern.name == actual.name && pattern.modes == actual.modes && Instantiates(pattern.types, actual.types)
  {
    if pattern.name != actual.name || pattern.modes != actual.modes {
      return false;
    }
    ok := Matches(pattern.types, actual.types);
  }

  /** Two methods fill one slot when their canonical keys are equal. */
  method SameSlot(a: MethodKey, b: MethodKey) returns (same: bool)
    requires a.Valid() && b.Valid()
    ensures same <==> a.name == b.name && a.modes == b.modes && Equivalent(a.types, b.types)
  {
    var c := Canonical(a.types);
    var d := Canonical(b.types);
    same := a.(types := c) == b.(types := d);
    CanonicalIsCompleteInvariant(a.types, b.types, c, d);
  }
}
