/** First-use numbering of generics and injective renaming. */
module Numbering {
  import opened Trees
  import opened Shapes

  type Names = map<nat, nat>

  // ---------------------------------------------------------------- generics of a key

  function Generics(t: Tree): set<nat> {
    match t
    case Gen(n) => {n}
    case Node(_, c) => GenericsAll(c)
  }

  function GenericsAll(ts: seq<Tree>): set<nat> {
    if ts == [] then {} else Generics(ts[0]) + GenericsAll(ts[1..])
  }

  lemma {:induction false} GenericsRemove(s: seq<Tree>, i: nat)
    requires i < |s|
    ensures GenericsAll(s) == GenericsAll(Remove(s, i)) + Generics(s[i])
  {
    if i == 0 {
      assert Remove(s, 0) == s[1..];
    } else {
      GenericsRemove(s[1..], i - 1);
      assert Remove(s, i)[1..] == Remove(s[1..], i - 1);
    }
  }

  /** Reordering members neither adds nor loses a generic. */
  lemma {:induction false} GenericsSame(a: Tree, b: Tree)
    requires ShapeOf(a) == ShapeOf(b)
    ensures Generics(a) == Generics(b)
    decreases a, 1
  {
    if a.Gen? {
      assert b == a;
    } else {
      GenericsSameAll(a.head.Intersection?, a.children, b.children);
    }
  }

  lemma {:induction false} GenericsSameAll(unordered: bool, a: seq<Tree>, b: seq<Tree>)
    requires Same(unordered, a, b)
    ensures GenericsAll(a) == GenericsAll(b)
    decreases a, 0
  {
    if a == [] {
      SameLength(unordered, a, b);
    } else {
      var j := SamePartner(unordered, a, b);
      GenericsSame(a[0], b[j]);
      GenericsSameAll(unordered, a[1..], Remove(b, j));
      GenericsRemove(b, j);
    }
  }

  lemma SameLength(unordered: bool, a: seq<Tree>, b: seq<Tree>)
    requires Same(unordered, a, b)
    ensures |a| == |b|
  {
    if unordered {
      SameSize(ShapesOf(a), ShapesOf(b));
    } else {
      assert |ShapesOf(a)| == |ShapesOf(b)|;
    }
  }

  /** The first member of one list is same as some member of the other, the first when
      order counts, and what remains is still the same. */
  lemma SamePartner(unordered: bool, a: seq<Tree>, b: seq<Tree>) returns (j: nat)
    requires a != [] && Same(unordered, a, b)
    ensures j < |b| && ShapeOf(a[0]) == ShapeOf(b[j]) && (unordered || j == 0)
    ensures Same(unordered, a[1..], Remove(b, j))
  {
    if unordered {
      j := BagPartner(a, 0, b);
      assert Remove(a, 0) == a[1..];
    } else {
      j := 0;
      SameLength(unordered, a, b);
      assert ShapesOf(a)[0] == ShapesOf(b)[0];
      assert Remove(b, 0) == b[1..];
      assert ShapesOf(a)[1..] == ShapesOf(b)[1..];
    }
  }

  // ---------------------------------------------------------------- substitution, continued

  /** Substituting twice is substituting the images; the third map may be empty. */
  lemma {:induction false} SubstCompose(t: Tree, s1: map<nat, Tree>, s2: map<nat, Tree>, s3: map<nat, Tree>)
    requires forall n <- Generics(t) :: Subst(Subst(Gen(n), s1), s2) == Subst(Gen(n), s3)
    ensures Subst(Subst(t, s1), s2) == Subst(t, s3)
    decreases t, 0
  {
    if t.Node? {
      SubstComposeAll(t.children, s1, s2, s3);
    }
  }

  lemma {:induction false} SubstComposeAll(ts: seq<Tree>, s1: map<nat, Tree>, s2: map<nat, Tree>, s3: map<nat, Tree>)
    requires forall n <- GenericsAll(ts) :: Subst(Subst(Gen(n), s1), s2) == Subst(Gen(n), s3)
    ensures SubstAll(SubstAll(ts, s1), s2) == SubstAll(ts, s3)
    decreases ts, 1
  {
    if ts != [] {
      SubstCompose(ts[0], s1, s2, s3);
      SubstComposeAll(ts[1..], s1, s2, s3);
      assert SubstAll(ts, s1)[1..] == SubstAll(ts[1..], s1);
    }
  }

  lemma {:induction false} SubstNothing(ts: seq<Tree>)
    ensures SubstAll(ts, map[]) == ts
  {
    forall i | 0 <= i < |ts| ensures Subst(ts[i], map[]) == ts[i] {
      if ts[i].Node? {
        SubstNothing(ts[i].children);
      }
    }
  }

  // ---------------------------------------------------------------- renaming

  function AsSubst(r: Names): map<nat, Tree> {
    map n | n in r :: Gen(r[n])
  }

  ghost predicate Injective(r: Names) {
    forall m, n :: m in r && n in r && r[m] == r[n] ==> m == n
  }

  /** The generics of a renamed list are the images of its generics. */
  lemma {:induction false} RenamedGenerics(ts: seq<Tree>, r: Names)
    requires GenericsAll(ts) <= r.Keys
    ensures GenericsAll(SubstAll(ts, AsSubst(r))) == set n | n in GenericsAll(ts) :: r[n]
  {
    if ts != [] {
      RenamedGenerics(ts[1..], r);
      var first := ts[0];
      if first.Node? {
        RenamedGenerics(first.children, r);
      }
      assert Generics(Subst(first, AsSubst(r))) == set n | n in Generics(first) :: r[n];
      assert SubstAll(ts, AsSubst(r))[1..] == SubstAll(ts[1..], AsSubst(r));
    }
  }

  ghost predicate Renames(p: seq<Tree>, q: seq<Tree>, r: Names) {
    Injective(r) && GenericsAll(p) <= r.Keys && ShapesOf(SubstAll(p, AsSubst(r))) == ShapesOf(q)
  }

  /** One injective renaming of the generics of the whole sequence, and reorderings of
      intersection members at any depth, turn the first sequence into the second. */
  ghost predicate Equivalent(p: seq<Tree>, q: seq<Tree>) {
    exists r: Names :: Renames(p, q, r)
  }

  function Inverse(r: Names): (v: Names)
    requires Injective(r)
    ensures v.Keys == r.Values
    ensures forall n :: n in r ==> v[r[n]] == n
    ensures Injective(v)
  {
    map y | y in r.Values :: Preimage(r, y)
  }

  function Preimage(r: Names, y: nat): (x: nat)
    requires Injective(r) && y in r.Values
    ensures x in r && r[x] == y
  {
    var x :| x in r && r[x] == y;
    x
  }

  /** A sequence is equivalent to itself and to any reordering of its intersection members. */
  lemma EquivalentReflexive(p: seq<Tree>, q: seq<Tree>)
    requires ShapesOf(p) == ShapesOf(q)
    ensures Equivalent(p, p) && Equivalent(p, q)
  {
    var r: Names := map n | n in GenericsAll(p) :: n;
    SubstComposeAll(p, map[], AsSubst(r), map[]);
    SubstNothing(p);
    assert Renames(p, p, r);
    assert Renames(p, q, r);
  }

  lemma EquivalentSymmetric(p: seq<Tree>, q: seq<Tree>)
    requires Equivalent(p, q)
    ensures Equivalent(q, p)
  {
    var r :| Renames(p, q, r);
    var v := Inverse(r);
    var image := SubstAll(p, AsSubst(r));
    RenamedGenerics(p, r);
    GenericsSameAll(false, image, q);
    assert GenericsAll(q) <= v.Keys;
    assert Agree(AsSubst(v), AsSubst(v));
    SubstSameAll(false, image, q, AsSubst(v), AsSubst(v));
    SubstComposeAll(p, AsSubst(r), AsSubst(v), map[]);
    SubstNothing(p);
    assert Renames(q, p, v);
  }

  function Chain(p: seq<Tree>, r: Names, s: Names): (both: Names)
    requires forall n :: n in GenericsAll(p) ==> n in r && r[n] in s
    ensures Injective(r) && Injective(s) ==> Injective(both)
  {
    map n | n in GenericsAll(p) :: s[r[n]]
  }

  lemma RenamedInDomain(p: seq<Tree>, q: seq<Tree>, r: Names, s: Names)
    requires GenericsAll(p) <= r.Keys && ShapesOf(SubstAll(p, AsSubst(r))) == ShapesOf(q)
    requires GenericsAll(q) <= s.Keys
    ensures forall n :: n in GenericsAll(p) ==> n in r && r[n] in s
  {
    RenamedGenerics(p, r);
    GenericsSameAll(false, SubstAll(p, AsSubst(r)), q);
    assert forall n :: n in GenericsAll(p) ==> r[n] in GenericsAll(q);
  }

  lemma ChainRenames(p: seq<Tree>, q: seq<Tree>, r: Names, s: Names)
    requires forall n :: n in GenericsAll(p) ==> n in r && r[n] in s
    requires ShapesOf(SubstAll(p, AsSubst(r))) == ShapesOf(q)
    ensures ShapesOf(SubstAll(p, AsSubst(Chain(p, r, s)))) == ShapesOf(SubstAll(q, AsSubst(s)))
  {
    SubstComposeAll(p, AsSubst(r), AsSubst(s), AsSubst(Chain(p, r, s)));
    assert Agree(AsSubst(s), AsSubst(s));
    SubstSameAll(false, SubstAll(p, AsSubst(r)), q, AsSubst(s), AsSubst(s));
  }

  lemma EquivalentTransitive(p: seq<Tree>, q: seq<Tree>, w: seq<Tree>)
    requires Equivalent(p, q) && Equivalent(q, w)
    ensures Equivalent(p, w)
  {
    var r :| Renames(p, q, r);
    var s :| Renames(q, w, s);
    RenamedInDomain(p, q, r, s);
    ChainRenames(p, q, r, s);
    assert Renames(p, w, Chain(p, r, s));
  }

  // ---------------------------------------------------------------- first-use numbering

  /** Renames generics to 0, 1, 2, ... in the order in which they first occur, continuing
      from the names already given out. */
  function Number(t: Tree, names: Names): (Tree, Names) {
    match t
    case Gen(n) =>
      if n in names then (Gen(names[n]), names) else (Gen(|names|), names[n := |names|])
    case Node(h, c) =>
      var (d, after) := NumberAll(c, names);
      (Node(h, d), after)
  }

  function NumberAll(ts: seq<Tree>, names: Names): (r: (seq<Tree>, Names))
    ensures |r.0| == |ts|
  {
    if ts == [] then ([], names)
    else
      var (first, between) := Number(ts[0], names);
      var (rest, after) := NumberAll(ts[1..], between);
      ([first] + rest, after)
  }

  lemma {:induction false} NumberConcat(a: seq<Tree>, b: seq<Tree>, names: Names)
    ensures var (c, between) := NumberAll(a, names);
            var (d, after) := NumberAll(b, between);
            NumberAll(a + b, names) == (c + d, after)
  {
    if a == [] {
      assert a + b == b;
      assert [] + NumberAll(b, names).0 == NumberAll(b, names).0;
    } else {
      assert (a + b)[1..] == a[1..] + b && (a + b)[0] == a[0];
      var (first, between) := Number(a[0], names);
      NumberConcat(a[1..], b, between);
      var (rest, middle) := NumberAll(a[1..], between);
      var (d, after) := NumberAll(b, middle);
      assert NumberAll(a + b, names) == ([first] + (rest + d), after);
      assert [first] + (rest + d) == ([first] + rest) + d;
    }
  }

  lemma NumberOne(t: Tree, names: Names)
    ensures NumberAll([t], names) == ([Number(t, names).0], Number(t, names).1)
  {
    var (first, between) := Number(t, names);
    assert [t][0] == t && [t][1..] == [];
    assert NumberAll([t][1..], between) == ([], between);
    assert [first] + [] == [first];
  }

  /** Names are handed out without gaps and never twice. */
  ghost predicate Dense(names: Names) {
    Injective(names) && forall n :: n in names ==> names[n] < |names|
  }

  ghost predicate Extends(big: Names, small: Names) {
    forall n :: n in small ==> n in big && big[n] == small[n]
  }

  /** Numbering names every generic it meets. */
  lemma {:induction false} NumberNames(t: Tree, names: Names)
    ensures names.Keys + Generics(t) == Number(t, names).1.Keys
    ensures Extends(Number(t, names).1, names)
    decreases t, 0
  {
    if t.Node? {
      NumberNamesAll(t.children, names);
    }
  }

  lemma {:induction false} NumberNamesAll(ts: seq<Tree>, names: Names)
    ensures names.Keys + GenericsAll(ts) == NumberAll(ts, names).1.Keys
    ensures Extends(NumberAll(ts, names).1, names)
    decreases ts, 1
  {
    if ts != [] {
      var (first, between) := Number(ts[0], names);
      NumberNames(ts[0], names);
      NumberNamesAll(ts[1..], between);
    }
  }

  lemma {:induction false} NumberDense(t: Tree, names: Names)
    requires Dense(names)
    ensures Dense(Number(t, names).1)
    decreases t, 0
  {
    if t.Node? {
      NumberDenseAll(t.children, names);
    }
  }

  lemma {:induction false} NumberDenseAll(ts: seq<Tree>, names: Names)
    requires Dense(names)
    ensures Dense(NumberAll(ts, names).1)
    decreases ts, 1
  {
    if ts != [] {
      NumberDense(ts[0], names);
      NumberDenseAll(ts[1..], Number(ts[0], names).1);
    }
  }

  /** Numbering is renaming by the final names. */
  lemma {:induction false} NumberRenames(t: Tree, names: Names, final: Names)
    requires Extends(final, Number(t, names).1)
    ensures Subst(t, AsSubst(final)) == Number(t, names).0
    decreases t, 0
  {
    if t.Node? {
      NumberRenamesAll(t.children, names, final);
    }
  }

  lemma {:induction false} NumberRenamesAll(ts: seq<Tree>, names: Names, final: Names)
    requires Extends(final, NumberAll(ts, names).1)
    ensures SubstAll(ts, AsSubst(final)) == NumberAll(ts, names).0
    decreases ts, 1
  {
    if ts != [] {
      var (first, between) := Number(ts[0], names);
      NumberNames(ts[0], names);
      NumberNamesAll(ts[1..], between);
      NumberRenames(ts[0], names, final);
      NumberRenamesAll(ts[1..], between, final);
    }
  }

  /** Two name maps that agree across a renaming of the generics. */
  ghost predicate Linked(r: Names, a: Names, b: Names) {
    |a| == |b| && forall n :: n in r ==> (n in a <==> r[n] in b) && (n in a ==> b[r[n]] == a[n])
  }

  /** First-use numbering does not see an injective renaming. */
  lemma {:induction false} NumberIgnoresRenaming(t: Tree, r: Names, a: Names, b: Names)
    requires Injective(r) && Generics(t) <= r.Keys && Linked(r, a, b)
    ensures Number(Subst(t, AsSubst(r)), b).0 == Number(t, a).0
    ensures Linked(r, Number(t, a).1, Number(Subst(t, AsSubst(r)), b).1)
    decreases t, 0
  {
    if t.Node? {
      NumberIgnoresRenamingAll(t.children, r, a, b);
    }
  }

  lemma {:induction false} NumberIgnoresRenamingAll(ts: seq<Tree>, r: Names, a: Names, b: Names)
    requires Injective(r) && GenericsAll(ts) <= r.Keys && Linked(r, a, b)
    ensures NumberAll(SubstAll(ts, AsSubst(r)), b).0 == NumberAll(ts, a).0
    ensures Linked(r, NumberAll(ts, a).1, NumberAll(SubstAll(ts, AsSubst(r)), b).1)
    decreases ts, 1
  {
    if ts != [] {
      var renamed := SubstAll(ts, AsSubst(r));
      NumberIgnoresRenaming(ts[0], r, a, b);
      assert renamed[1..] == SubstAll(ts[1..], AsSubst(r));
      NumberIgnoresRenamingAll(ts[1..], r, Number(ts[0], a).1, Number(renamed[0], b).1);
    }
  }
}
