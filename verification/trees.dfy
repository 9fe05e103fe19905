/** Dispatch keys as trees, with the order the compiler derives for them.

    A key is a generic or a constructor applied to children.  The constructor, its
    nominal identity and its parameter modes form the head; replacing the children
    of a node and keeping its head is the source's `with_children`. */
module Trees {

  datatype Mode = Borrow | Consume

  datatype Head =
    | Never | Unit | Bool | Int | RawInt | Float | CodePoint | Byte | RawBytes | RawByteBuffer
    | Reference | RawList | Sequence | Remote | Future
    | Function(modes: seq<Mode>)
    | Record(record: nat)
    | Intersection
    | Variant(variant: nat)
    | Module(name: string)

  datatype Tree = Gen(index: nat) | Node(head: Head, children: seq<Tree>) {

    predicate Unordered() {
      Node? && head.Intersection?
    }

    /** Equality after every child is replaced by one fixed generic. */
    predicate SameHead(other: Tree) {
      Mask() == other.Mask()
    }

    function Mask(): Tree {
      match this
      case Gen(_) => this
      case Node(h, c) => Node(h, seq(|c|, _ => Gen(0)))
    }
  }

  /** Removing one position of a list, as Rust's `Vec::remove` does. */
  function Remove<T>(s: seq<T>, i: nat): (r: seq<T>)
    requires i < |s|
    ensures |r| == |s| - 1
  {
    s[..i] + s[i + 1..]
  }

  // ---------------------------------------------------------------- the order

  datatype Ordering = Less | Equal | Greater {
    function Flip(): Ordering {
      match this
      case Less => Greater
      case Equal => Equal
      case Greater => Less
    }

    function Then(next: Ordering): Ordering {
      if Equal? then next else this
    }
  }

  function CompareInt(a: int, b: int): Ordering {
    if a < b then Less else if a == b then Equal else Greater
  }

  function CompareInts(a: seq<int>, b: seq<int>): Ordering {
    if a == [] then (if b == [] then Equal else Less)
    else if b == [] then Greater
    else CompareInt(a[0], b[0]).Then(CompareInts(a[1..], b[1..]))
  }

  /** The position of each constructor in the declaration of dispatch keys.
      `Generic` stands at position one. */
  function Rank(h: Head): nat {
    match h
    case Never => 0
    case Unit => 2
    case Bool => 3
    case Int => 4
    case RawInt => 5
    case Float => 6
    case CodePoint => 7
    case Byte => 8
    case RawBytes => 9
    case RawByteBuffer => 10
    case Reference => 11
    case RawList => 12
    case Sequence => 13
    case Remote => 14
    case Future => 15
    case Function(_) => 16
    case Record(_) => 17
    case Intersection => 18
    case Variant(_) => 19
    case Module(_) => 20
  }

  const GENERIC_RANK: nat := 1

  /** What is compared before any child: the constructor and its nominal identity. */
  function HeadKey(h: Head): seq<int> {
    [Rank(h)] +
    match h
    case Record(id) => [id]
    case Variant(id) => [id]
    case Module(name) => seq(|name|, i requires 0 <= i < |name| => name[i] as int)
    case _ => []
  }

  function ModeKey(m: Mode): int {
    if m.Borrow? then 1 else 2
  }

  /** A callable is the list of its (mode, parameter) pairs followed by its result, so
      each parameter is preceded by its mode, and a list that ends earlier is smaller. */
  function Label(h: Head, i: nat): int {
    if h.Function? && i < |h.modes| then ModeKey(h.modes[i]) else 0
  }

  /** Only separates callables whose child count disagrees with their modes, which the
      source's types exclude; it makes the order total on every tree. */
  function ModesKey(h: Head): seq<int> {
    if h.Function? then seq(|h.modes|, i requires 0 <= i < |h.modes| => ModeKey(h.modes[i])) else []
  }

  function Compare(a: Tree, b: Tree): Ordering
    decreases a
  {
    match (a, b)
    case (Gen(m), Gen(n)) => CompareInt(m, n)
    case (Gen(_), Node(h, _)) => CompareInt(GENERIC_RANK, Rank(h))
    case (Node(h, _), Gen(_)) => CompareInt(Rank(h), GENERIC_RANK)
    case (Node(g, c), Node(h, d)) =>
      CompareInts(HeadKey(g), HeadKey(h))
      .Then(CompareChildren(g, c, h, d, 0))
      .Then(CompareInts(ModesKey(g), ModesKey(h)))
  }

  function CompareChildren(g: Head, c: seq<Tree>, h: Head, d: seq<Tree>, i: nat): Ordering
    requires i <= |c| && i <= |d|
    decreases c, |c| - i
  {
    if i == |c| then (if i == |d| then Equal else Less)
    else if i == |d| then Greater
    else CompareInt(Label(g, i), Label(h, i)).Then(Compare(c[i], d[i])).Then(CompareChildren(g, c, h, d, i + 1))
  }

  /** Rust's order on vectors: lexicographic, a proper prefix being smaller. */
  function CompareVec(a: seq<Tree>, b: seq<Tree>): Ordering {
    if a == [] then (if b == [] then Equal else Less)
    else if b == [] then Greater
    else Compare(a[0], b[0]).Then(CompareVec(a[1..], b[1..]))
  }

  // ---------------------------------------------------------------- it is a total order

  lemma {:induction false} IntsTotal(a: seq<int>, b: seq<int>)
    ensures CompareInts(b, a) == CompareInts(a, b).Flip()
    ensures CompareInts(a, b).Equal? <==> a == b
  {
    if a != [] && b != [] {
      IntsTotal(a[1..], b[1..]);
      assert a == [a[0]] + a[1..] && b == [b[0]] + b[1..];
    }
  }

  lemma {:induction false} IntsTransitive(a: seq<int>, b: seq<int>, c: seq<int>)
    requires CompareInts(a, b).Less? && CompareInts(b, c).Less?
    ensures CompareInts(a, c).Less?
  {
    if a != [] && b != [] && c != [] && a[0] == b[0] && b[0] == c[0] {
      IntsTransitive(a[1..], b[1..], c[1..]);
    }
  }

  lemma HeadFromKeys(g: Head, h: Head)
    requires HeadKey(g) == HeadKey(h) && ModesKey(g) == ModesKey(h)
    ensures g == h
  {
    assert HeadKey(g)[0] == Rank(g) && HeadKey(h)[0] == Rank(h);
    match g {
      case Record(id) => assert HeadKey(g)[1] == id;
      case Variant(id) => assert HeadKey(g)[1] == id;
      case Function(m) =>
        assert |ModesKey(g)| == |m| && |ModesKey(h)| == |h.modes|;
        forall i | 0 <= i < |m| ensures m[i] == h.modes[i] {
          assert ModesKey(g)[i] == ModeKey(m[i]) && ModesKey(h)[i] == ModeKey(h.modes[i]);
        }
      case Module(n) =>
        assert |HeadKey(g)| == 1 + |n| && |HeadKey(h)| == 1 + |h.name|;
        forall i | 0 <= i < |n| ensures n[i] == h.name[i] {
          assert HeadKey(g)[1 + i] == n[i] as int && HeadKey(h)[1 + i] == h.name[i] as int;
        }
      case _ =>
    }
  }

  /** Comparison is antisymmetric and says `Equal` exactly on equal keys. */
  lemma {:induction false} CompareTotal(a: Tree, b: Tree)
    ensures Compare(b, a) == Compare(a, b).Flip()
    ensures Compare(a, b).Equal? <==> a == b
    decreases a
  {
    if a.Node? && b.Node? {
      IntsTotal(HeadKey(a.head), HeadKey(b.head));
      IntsTotal(ModesKey(a.head), ModesKey(b.head));
      ChildrenTotal(a.head, a.children, b.head, b.children, 0);
      ChildrenReflexive(a.head, a.children, 0);
      if Compare(a, b).Equal? {
        HeadFromKeys(a.head, b.head);
        EqualChildren(a.head, a.children, b.head, b.children, 0);
        assert a.children[0..] == a.children && b.children[0..] == b.children;
      }
    }
  }

  lemma {:induction false} ChildrenTotal(g: Head, c: seq<Tree>, h: Head, d: seq<Tree>, i: nat)
    requires i <= |c| && i <= |d|
    ensures CompareChildren(h, d, g, c, i) == CompareChildren(g, c, h, d, i).Flip()
    decreases c, |c| - i
  {
    if i < |c| && i < |d| {
      CompareTotal(c[i], d[i]);
      ChildrenTotal(g, c, h, d, i + 1);
    }
  }

  lemma {:induction false} EqualChildren(g: Head, c: seq<Tree>, h: Head, d: seq<Tree>, i: nat)
    requires i <= |c| && i <= |d| && CompareChildren(g, c, h, d, i).Equal?
    ensures c[i..] == d[i..]
    decreases c, |c| - i
  {
    if i < |c| {
      CompareTotal(c[i], d[i]);
      EqualChildren(g, c, h, d, i + 1);
      SameTails(c, d, i);
    }
  }

  lemma {:induction false} ChildrenReflexive(g: Head, c: seq<Tree>, i: nat)
    requires i <= |c|
    ensures CompareChildren(g, c, g, c, i).Equal?
    decreases c, |c| - i
  {
    if i < |c| {
      CompareTotal(c[i], c[i]);
      ChildrenReflexive(g, c, i + 1);
    }
  }

  lemma SameTails(c: seq<Tree>, d: seq<Tree>, i: nat)
    requires i < |c| && i < |d| && c[i] == d[i] && c[i + 1..] == d[i + 1..]
    ensures c[i..] == d[i..]
  {
    assert c[i..] == [c[i]] + c[i + 1..] && d[i..] == [d[i]] + d[i + 1..];
  }

  lemma {:induction false} CompareTransitive(a: Tree, b: Tree, c: Tree)
    requires Compare(a, b).Less? && Compare(b, c).Less?
    ensures Compare(a, c).Less?
    decreases a
  {
    if a.Node? && b.Node? && c.Node? {
      HeadsTransitive(HeadKey(a.head), HeadKey(b.head), HeadKey(c.head));
      HeadsTransitive(ModesKey(a.head), ModesKey(b.head), ModesKey(c.head));
      ChildrenTransitive(a.head, a.children, b.head, b.children, c.head, c.children, 0);
    }
  }

  lemma HeadsTransitive(a: seq<int>, b: seq<int>, c: seq<int>)
    ensures CompareInts(a, b).Equal? <==> a == b
    ensures CompareInts(b, c).Equal? <==> b == c
    ensures CompareInts(a, c).Equal? <==> a == c
    ensures CompareInts(a, b).Less? && CompareInts(b, c).Less? ==> CompareInts(a, c).Less?
  {
    IntsTotal(a, b);
    IntsTotal(b, c);
    IntsTotal(a, c);
    if CompareInts(a, b).Less? && CompareInts(b, c).Less? {
      IntsTransitive(a, b, c);
    }
  }

  lemma {:induction false} ChildrenTransitive(f: Head, a: seq<Tree>, g: Head, b: seq<Tree>, h: Head, c: seq<Tree>, i: nat)
    requires i <= |a| && i <= |b| && i <= |c|
    ensures var ab := CompareChildren(f, a, g, b, i);
            var bc := CompareChildren(g, b, h, c, i);
            !ab.Greater? && !bc.Greater? ==> CompareChildren(f, a, h, c, i) == ab.Then(bc)
    decreases a, 1 + |a| - i
  {
    if i < |a| && i < |b| && i < |c| {
      ChildrenTransitive(f, a, g, b, h, c, i + 1);
      ChildTransitive(a, a[i], b[i], c[i]);
      StepTransitive(Label(f, i), Label(g, i), Label(h, i),
                     Compare(a[i], b[i]), Compare(b[i], c[i]), Compare(a[i], c[i]),
                     CompareChildren(f, a, g, b, i + 1), CompareChildren(g, b, h, c, i + 1), CompareChildren(f, a, h, c, i + 1));
    }
  }

  /** Labels, then children, then the rest: each transitive, so is their sequence. */
  lemma StepTransitive(l: int, m: int, n: int, xy: Ordering, yz: Ordering, xz: Ordering, pq: Ordering, qr: Ordering, pr: Ordering)
    requires !xy.Greater? && !yz.Greater? ==> xz == xy.Then(yz)
    requires !pq.Greater? && !qr.Greater? ==> pr == pq.Then(qr)
    ensures var ab := CompareInt(l, m).Then(xy).Then(pq);
            var bc := CompareInt(m, n).Then(yz).Then(qr);
            !ab.Greater? && !bc.Greater? ==> CompareInt(l, n).Then(xz).Then(pr) == ab.Then(bc)
  {
  }

  lemma {:induction false} ChildTransitive(all: seq<Tree>, a: Tree, b: Tree, c: Tree)
    requires a in all
    ensures !Compare(a, b).Greater? && !Compare(b, c).Greater? ==> Compare(a, c) == Compare(a, b).Then(Compare(b, c))
    decreases all, 0
  {
    CompareTotal(a, b);
    CompareTotal(b, c);
    if Compare(a, b).Less? && Compare(b, c).Less? {
      CompareTransitive(a, b, c);
    }
  }

  /** The vector order is total, and `Equal` exactly on equal vectors. */
  lemma {:induction false} VecTotal(a: seq<Tree>, b: seq<Tree>)
    ensures CompareVec(b, a) == CompareVec(a, b).Flip()
    ensures CompareVec(a, b).Equal? <==> a == b
  {
    if a != [] && b != [] {
      CompareTotal(a[0], b[0]);
      VecTotal(a[1..], b[1..]);
      assert a == [a[0]] + a[1..] && b == [b[0]] + b[1..];
    }
  }

  lemma {:induction false} VecTransitive(a: seq<Tree>, b: seq<Tree>, c: seq<Tree>)
    requires !CompareVec(a, b).Greater? && !CompareVec(b, c).Greater?
    ensures CompareVec(a, c) == CompareVec(a, b).Then(CompareVec(b, c))
  {
    if a != [] && b != [] && c != [] {
      CompareTotal(a[0], b[0]);
      CompareTotal(b[0], c[0]);
      if Compare(a[0], b[0]).Less? && Compare(b[0], c[0]).Less? {
        CompareTransitive(a[0], b[0], c[0]);
      }
      if Compare(a[0], b[0]).Equal? && Compare(b[0], c[0]).Equal? {
        VecTransitive(a[1..], b[1..], c[1..]);
      }
    }
  }

  /** Extending two prefixes of one length compares them first and the new members last. */
  lemma {:induction false} VecAppend(a: seq<Tree>, b: seq<Tree>, x: seq<Tree>, y: seq<Tree>)
    requires |a| == |b|
    ensures CompareVec(a + x, b + y) == CompareVec(a, b).Then(CompareVec(x, y))
  {
    if a == [] {
      assert a + x == x && b + y == y;
    } else {
      assert (a + x)[1..] == a[1..] + x && (b + y)[1..] == b[1..] + y;
      VecAppend(a[1..], b[1..], x, y);
    }
  }

  // ---------------------------------------------------------------- the tree laws

  /** Two nodes of one head compare as their children do. */
  lemma SameHeadComparesChildren(h: Head, c: seq<Tree>, d: seq<Tree>)
    ensures Compare(Node(h, c), Node(h, d)) == CompareVec(c, d)
  {
    IntsTotal(HeadKey(h), HeadKey(h));
    IntsTotal(ModesKey(h), ModesKey(h));
    ChildrenAreVec(h, c, d, 0);
    assert c[0..] == c && d[0..] == d;
  }

  lemma {:induction false} ChildrenAreVec(h: Head, c: seq<Tree>, d: seq<Tree>, i: nat)
    requires i <= |c| && i <= |d|
    ensures CompareChildren(h, c, h, d, i) == CompareVec(c[i..], d[i..])
    decreases |c| - i
  {
    if i < |c| && i < |d| {
      ChildrenAreVec(h, c, d, i + 1);
      assert c[i..][1..] == c[i + 1..] && d[i..][1..] == d[i + 1..];
    }
  }

  /** The mask test finds exactly the nodes with one head and one child count. */
  lemma SameHeadMeaning(h: Head, c: seq<Tree>, other: Tree)
    ensures Node(h, c).SameHead(other) <==> other.Node? && other.head == h && |other.children| == |c|
  {
    if other.Node? {
      assert Node(h, c).Mask().children == seq(|c|, _ => Gen(0));
      assert other.Mask().children == seq(|other.children|, _ => Gen(0));
      if Node(h, c).SameHead(other) {
        assert |seq(|c|, _ => Gen(0))| == |seq(|other.children|, _ => Gen(0))|;
      }
    }
  }

  // ---------------------------------------------------------------- it is the derived order

  /** The constructor decides first, whatever it holds ... */
  lemma EarlierConstructor(g: Head, c: seq<Tree>, h: Head, d: seq<Tree>, n: nat)
    ensures Rank(g) < Rank(h) ==> Compare(Node(g, c), Node(h, d)).Less?
    ensures Rank(g) < GENERIC_RANK ==> Compare(Node(g, c), Gen(n)).Less?
    ensures GENERIC_RANK < Rank(g) ==> Compare(Gen(n), Node(g, c)).Less?
  {
    assert HeadKey(g)[0] == Rank(g) && HeadKey(h)[0] == Rank(h);
  }

  /** ... in the order of declaration. */
  lemma DeclarationOrder(modes: seq<Mode>, record: nat, variant: nat, name: string)
    ensures Rank(Never) < GENERIC_RANK < Rank(Unit) < Rank(Bool) < Rank(Int) < Rank(RawInt) < Rank(Float)
            < Rank(CodePoint) < Rank(Byte) < Rank(RawBytes) < Rank(RawByteBuffer) < Rank(Reference) < Rank(RawList)
            < Rank(Sequence) < Rank(Remote) < Rank(Future) < Rank(Function(modes)) < Rank(Record(record))
            < Rank(Intersection) < Rank(Variant(variant)) < Rank(Module(name))
  {
  }

  /** Declared types compare by their identity first and their arguments next. */
  lemma NominalOrder(a: nat, c: seq<Tree>, b: nat, d: seq<Tree>)
    ensures Compare(Node(Record(a), c), Node(Record(b), d)) == CompareInt(a, b).Then(CompareVec(c, d))
    ensures Compare(Node(Variant(a), c), Node(Variant(b), d)) == CompareInt(a, b).Then(CompareVec(c, d))
  {
    if a == b {
      SameHeadComparesChildren(Record(a), c, d);
      SameHeadComparesChildren(Variant(a), c, d);
    } else {
      IdentityDecides(Rank(Record(a)), a, b);
      IdentityDecides(Rank(Variant(a)), a, b);
      assert HeadKey(Record(a)) == [Rank(Record(a)), a] && HeadKey(Record(b)) == [Rank(Record(b)), b];
      assert HeadKey(Variant(a)) == [Rank(Variant(a)), a] && HeadKey(Variant(b)) == [Rank(Variant(b)), b];
    }
  }

  lemma IdentityDecides(rank: int, a: int, b: int)
    ensures CompareInts([rank, a], [rank, b]) == CompareInt(a, b)
  {
    assert [rank, a][1..] == [a] && [rank, b][1..] == [b];
    assert CompareInts([a][1..], [b][1..]) == Equal;
    assert CompareInts([a], [b]) == CompareInt(a, b);
  }

  /** The derived order of two lists of modes and parameters: pair by pair, a borrowed parameter
      before a consumed one, a list that ends earlier first. */
  function ComparePairs(m: seq<Mode>, p: seq<Tree>, n: seq<Mode>, q: seq<Tree>): Ordering
    requires |m| == |p| && |n| == |q|
  {
    if m == [] then (if n == [] then Equal else Less)
    else if n == [] then Greater
    else
      (if m[0] == n[0] then Equal else if m[0].Borrow? then Less else Greater)
      .Then(Compare(p[0], q[0])).Then(ComparePairs(m[1..], p[1..], n[1..], q[1..]))
  }

  lemma {:induction false} PairsFrom(m: seq<Mode>, p: seq<Tree>, x: Tree, n: seq<Mode>, q: seq<Tree>, y: Tree, i: nat)
    requires |m| == |p| && |n| == |q| && i <= |m| && i <= |n|
    ensures CompareChildren(Function(m), p + [x], Function(n), q + [y], i) ==
            ComparePairs(m[i..], p[i..], n[i..], q[i..]).Then(Compare(x, y))
    ensures ComparePairs(m[i..], p[i..], n[i..], q[i..]).Equal? ==> m[i..] == n[i..]
    decreases |m| - i
  {
    if i < |m| && i < |n| {
      PairsFrom(m, p, x, n, q, y, i + 1);
      assert m[i..][1..] == m[i + 1..] && n[i..][1..] == n[i + 1..] && p[i..][1..] == p[i + 1..] && q[i..][1..] == q[i + 1..];
      assert m[i..] == [m[i]] + m[i + 1..] && n[i..] == [n[i]] + n[i + 1..];
    } else if i == |m| && i == |n| {
      assert CompareChildren(Function(m), p + [x], Function(n), q + [y], i + 1) == Equal;
    }
  }

  /** Callables compare by their pairs of mode and parameter first and their results last. */
  lemma CallableOrder(m: seq<Mode>, p: seq<Tree>, x: Tree, n: seq<Mode>, q: seq<Tree>, y: Tree)
    requires |m| == |p| && |n| == |q|
    ensures Compare(Node(Function(m), p + [x]), Node(Function(n), q + [y])) == ComparePairs(m, p, n, q).Then(Compare(x, y))
  {
    PairsFrom(m, p, x, n, q, y, 0);
    assert m[0..] == m && n[0..] == n && p[0..] == p && q[0..] == q;
    IntsTotal(HeadKey(Function(m)), HeadKey(Function(n)));
    IntsTotal(ModesKey(Function(m)), ModesKey(Function(n)));
  }
}
