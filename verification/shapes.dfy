/** What dispatch regards as the same key: intersection members carry no order but keep
    their multiplicity, at every depth.  Substitution, renaming and the first-use
    numbering of generics are defined here. */
module Shapes {
  import opened Trees

  /** A key with the order of intersection members forgotten. */
  datatype Shape =
    | Free(index: nat)
    | Ordered(head: Head, parts: seq<Shape>)
    | Bag(members: multiset<Shape>)

  function ShapeOf(t: Tree): Shape {
    match t
    case Gen(n) => Free(n)
    case Node(h, c) =>
      if h.Intersection? then Bag(multiset(ShapesOf(c))) else Ordered(h, ShapesOf(c))
  }

  function ShapesOf(s: seq<Tree>): (r: seq<Shape>)
    ensures |r| == |s|
    ensures forall i :: 0 <= i < |s| ==> r[i] == ShapeOf(s[i])
  {
    if s == [] then [] else [ShapeOf(s[0])] + ShapesOf(s[1..])
  }

  function BagOf(s: seq<Tree>): multiset<Shape> {
    multiset(ShapesOf(s))
  }

  /** Two lists of keys hold the same keys: in any order if `unordered`, else position by position. */
  predicate Same(unordered: bool, a: seq<Tree>, b: seq<Tree>) {
    if unordered then BagOf(a) == BagOf(b) else ShapesOf(a) == ShapesOf(b)
  }

  lemma ShapesOfConcat(a: seq<Tree>, b: seq<Tree>)
    ensures ShapesOf(a + b) == ShapesOf(a) + ShapesOf(b)
    ensures BagOf(a + b) == BagOf(a) + BagOf(b)
  {
    assert ShapesOf(a + b) == ShapesOf(a) + ShapesOf(b);
  }

  lemma SplitShapes(a: seq<Tree>, b: seq<Tree>)
    requires a != [] && b != []
    ensures ShapesOf(a) == ShapesOf(b) <==> ShapeOf(a[0]) == ShapeOf(b[0]) && ShapesOf(a[1..]) == ShapesOf(b[1..])
  {
    assert ShapesOf(a)[0] == ShapeOf(a[0]) && ShapesOf(a)[1..] == ShapesOf(a[1..]);
    assert ShapesOf(b)[0] == ShapeOf(b[0]) && ShapesOf(b)[1..] == ShapesOf(b[1..]);
  }

  lemma BagRemove(s: seq<Tree>, i: nat)
    requires i < |s|
    ensures BagOf(s) == BagOf(Remove(s, i)) + multiset{ShapeOf(s[i])}
  {
    assert s == s[..i] + ([s[i]] + s[i + 1..]);
    ShapesOfConcat(s[..i], [s[i]] + s[i + 1..]);
    ShapesOfConcat([s[i]], s[i + 1..]);
    ShapesOfConcat(s[..i], s[i + 1..]);
  }

  /** A member of one list has a partner in any list with the same bag. */
  lemma BagPartner(a: seq<Tree>, i: nat, b: seq<Tree>) returns (j: nat)
    requires i < |a| && BagOf(a) == BagOf(b)
    ensures j < |b| && ShapeOf(b[j]) == ShapeOf(a[i])
    ensures BagOf(Remove(a, i)) == BagOf(Remove(b, j))
    ensures |a| == |b|
  {
    assert ShapesOf(a)[i] in multiset(ShapesOf(a));
    j := Position(ShapesOf(b), ShapeOf(a[i]));
    BagRemove(a, i);
    BagRemove(b, j);
    Cancel(BagOf(Remove(a, i)), BagOf(Remove(b, j)), ShapeOf(a[i]));
    SameSize(ShapesOf(a), ShapesOf(b));
  }

  lemma Position(s: seq<Shape>, x: Shape) returns (j: nat)
    requires x in multiset(s)
    ensures j < |s| && s[j] == x
  {
    j :| 0 <= j < |s| && s[j] == x;
  }

  lemma Cancel(a: multiset<Shape>, b: multiset<Shape>, x: Shape)
    requires a + multiset{x} == b + multiset{x}
    ensures a == b
  {
    assert a == (a + multiset{x}) - multiset{x};
    assert b == (b + multiset{x}) - multiset{x};
  }

  lemma SameSize(a: seq<Shape>, b: seq<Shape>)
    requires multiset(a) == multiset(b)
    ensures |a| == |b|
  {
    assert |multiset(a)| == |a| && |multiset(b)| == |b|;
  }

  // ---------------------------------------------------------------- substitution

  /** Generics outside the map stay as they are. */
  function Subst(t: Tree, s: map<nat, Tree>): Tree {
    match t
    case Gen(n) => if n in s then s[n] else t
    case Node(h, c) => Node(h, SubstAll(c, s))
  }

  function SubstAll(ts: seq<Tree>, s: map<nat, Tree>): (r: seq<Tree>)
    ensures |r| == |ts|
    ensures forall i :: 0 <= i < |ts| ==> r[i] == Subst(ts[i], s)
  {
    if ts == [] then [] else [Subst(ts[0], s)] + SubstAll(ts[1..], s)
  }

  lemma SubstRemove(ts: seq<Tree>, i: nat, s: map<nat, Tree>)
    requires i < |ts|
    ensures SubstAll(Remove(ts, i), s) == Remove(SubstAll(ts, s), i)
  {
  }

  ghost predicate Agree(s: map<nat, Tree>, t: map<nat, Tree>) {
    forall n: nat :: ShapeOf(Subst(Gen(n), s)) == ShapeOf(Subst(Gen(n), t))
  }

  /** Substitution respects sameness of the key and of the substituted values, so it does
      not matter which of several same values a generic is bound to. */
  lemma {:induction false} SubstSame(a: Tree, b: Tree, s: map<nat, Tree>, t: map<nat, Tree>)
    requires ShapeOf(a) == ShapeOf(b) && Agree(s, t)
    ensures ShapeOf(Subst(a, s)) == ShapeOf(Subst(b, t))
    decreases a, 1
  {
    if a.Gen? {
      assert b == a;
    } else {
      assert b.Node?;
      SubstSameAll(a.head.Intersection?, a.children, b.children, s, t);
    }
  }

  lemma {:induction false} SubstSameAll(unordered: bool, a: seq<Tree>, b: seq<Tree>, s: map<nat, Tree>, t: map<nat, Tree>)
    requires Same(unordered, a, b) && Agree(s, t)
    ensures Same(unordered, SubstAll(a, s), SubstAll(b, t))
    decreases a, 1
  {
    if unordered {
      SubstSameBag(a, b, s, t);
    } else {
      assert |ShapesOf(a)| == |ShapesOf(b)|;
      forall i | 0 <= i < |a| ensures ShapeOf(Subst(a[i], s)) == ShapeOf(Subst(b[i], t)) {
        assert ShapesOf(a)[i] == ShapesOf(b)[i];
        SubstSame(a[i], b[i], s, t);
      }
    }
  }

  lemma {:induction false} SubstSameBag(a: seq<Tree>, b: seq<Tree>, s: map<nat, Tree>, t: map<nat, Tree>)
    requires BagOf(a) == BagOf(b) && Agree(s, t)
    ensures BagOf(SubstAll(a, s)) == BagOf(SubstAll(b, t))
    decreases a, 0
  {
    if a == [] {
      assert |BagOf(b)| == |b|;
    } else {
      var j := BagPartner(a, 0, b);
      assert Remove(a, 0) == a[1..];
      SubstSame(a[0], b[j], s, t);
      SubstSameBag(a[1..], Remove(b, j), s, t);
      SubstRemove(b, j, t);
      BagRemove(SubstAll(a, s), 0);
      BagRemove(SubstAll(b, t), j);
      assert Remove(SubstAll(a, s), 0) == SubstAll(a[1..], s);
    }
  }
}
