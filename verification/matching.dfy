/** Matching a generic implementation against a required signature: a backtracking solver
    with an explicit task stack, bindings and a continuation. */
module Matching {
  import opened Trees
  import opened Shapes
  import opened Numbering

  /** One substitution for the generics of the pattern makes every parameter equal to the
      actual one, up to the order of intersection members. */
  ghost predicate InstantiatedBy(pattern: seq<Tree>, actual: seq<Tree>, s: map<nat, Tree>) {
    ShapesOf(SubstAll(pattern, s)) == ShapesOf(actual)
  }

  ghost predicate Instantiates(pattern: seq<Tree>, actual: seq<Tree>) {
    exists s :: InstantiatedBy(pattern, actual, s)
  }

  // ---------------------------------------------------------------- tasks

  datatype Task = Pair(pattern: Tree, actual: Tree) | Members(left: seq<Tree>, right: seq<Tree>)

  predicate Paired(tasks: seq<Task>) {
    forall t :: t in tasks && t.Members? ==> |t.left| == |t.right|
  }

  predicate Holds(t: Task, s: map<nat, Tree>) {
    match t
    case Pair(p, a) => ShapeOf(Subst(p, s)) == ShapeOf(a)
    case Members(l, r) => BagOf(SubstAll(l, s)) == BagOf(r)
  }

  predicate AllHold(tasks: seq<Task>, s: map<nat, Tree>) {
    forall t :: t in tasks ==> Holds(t, s)
  }

  predicate Respects(s: map<nat, Tree>, bindings: map<nat, Tree>) {
    forall n :: n in bindings ==> n in s && s[n] == bindings[n]
  }

  ghost predicate SolvedBy(tasks: seq<Task>, bindings: map<nat, Tree>, binds: bool, s: map<nat, Tree>) {
    AllHold(tasks, s) && Respects(s, bindings) && (!binds ==> s == map[])
  }

  /** Some substitution extending the bindings solves every task; without binding, the
      tasks hold as they stand. */
  ghost predicate Solvable(tasks: seq<Task>, bindings: map<nat, Tree>, binds: bool) {
    exists s :: SolvedBy(tasks, bindings, binds, s)
  }

  /** The zipped children, last pair first, so that the first pair is on top of the stack. */
  function Pairs(left: seq<Tree>, right: seq<Tree>): (r: seq<Task>)
    requires |left| == |right|
    ensures |r| == |left|
  {
    seq(|left|, i requires 0 <= i < |left| => Pair(left[|left| - 1 - i], right[|left| - 1 - i]))
  }

  // ---------------------------------------------------------------- the termination measure

  function Weight(t: Tree): nat {
    match t
    case Gen(_) => 1
    case Node(_, c) => 2 + WeightAll(c)
  }

  function WeightAll(ts: seq<Tree>): nat {
    if ts == [] then 0 else Weight(ts[0]) + 1 + WeightAll(ts[1..])
  }

  function TaskWeight(t: Task): nat {
    match t
    case Pair(p, _) => Weight(p)
    case Members(l, _) => 1 + WeightAll(l)
  }

  function Load(tasks: seq<Task>): nat {
    if tasks == [] then 0 else TaskWeight(tasks[|tasks| - 1]) + Load(tasks[..|tasks| - 1])
  }

  lemma {:induction false} LoadConcat(a: seq<Task>, b: seq<Task>)
    ensures Load(a + b) == Load(a) + Load(b)
  {
    if b == [] {
      assert a + b == a;
    } else {
      assert (a + b)[..|a + b| - 1] == a + b[..|b| - 1];
      LoadConcat(a, b[..|b| - 1]);
    }
  }

  lemma LoadOne(t: Task)
    ensures Load([t]) == TaskWeight(t)
  {
    assert [t][..0] == [];
  }

  lemma {:induction false} LoadPairs(left: seq<Tree>, right: seq<Tree>)
    requires |left| == |right|
    ensures Load(Pairs(left, right)) <= WeightAll(left)
  {
    if left != [] {
      assert Pairs(left, right) == Pairs(left[1..], right[1..]) + [Pair(left[0], right[0])];
      LoadConcat(Pairs(left[1..], right[1..]), [Pair(left[0], right[0])]);
      LoadOne(Pair(left[0], right[0]));
      LoadPairs(left[1..], right[1..]);
    }
  }

  // ---------------------------------------------------------------- one step of the solver

  lemma SolvedPush(tasks: seq<Task>, t: Task, b: map<nat, Tree>, binds: bool, s: map<nat, Tree>)
    ensures SolvedBy(tasks + [t], b, binds, s) <==> SolvedBy(tasks, b, binds, s) && Holds(t, s)
  {
    assert forall u :: u in tasks + [t] <==> u in tasks || u == t;
  }

  /** Replacing the top task by tasks with the same solutions changes nothing. */
  lemma Replace(tasks: seq<Task>, t: Task, parts: seq<Task>, b: map<nat, Tree>, binds: bool)
    requires forall s :: Holds(t, s) <==> AllHold(parts, s)
    ensures Solvable(tasks + [t], b, binds) <==> Solvable(tasks + parts, b, binds)
  {
    forall s ensures SolvedBy(tasks + [t], b, binds, s) <==> SolvedBy(tasks + parts, b, binds, s) {
      SolvedPush(tasks, t, b, binds, s);
      assert forall u :: u in tasks + parts <==> u in tasks || u in parts;
    }
  }

  lemma TopFails(tasks: seq<Task>, t: Task, b: map<nat, Tree>, binds: bool)
    requires forall s :: SolvedBy(tasks, b, binds, s) ==> !Holds(t, s)
    ensures !Solvable(tasks + [t], b, binds)
  {
    forall s ensures !SolvedBy(tasks + [t], b, binds, s) {
      SolvedPush(tasks, t, b, binds, s);
    }
  }

  lemma TopHolds(tasks: seq<Task>, t: Task, b: map<nat, Tree>, binds: bool)
    requires forall s :: SolvedBy(tasks, b, binds, s) ==> Holds(t, s)
    ensures Solvable(tasks + [t], b, binds) <==> Solvable(tasks, b, binds)
  {
    forall s ensures SolvedBy(tasks + [t], b, binds, s) <==> SolvedBy(tasks, b, binds, s) {
      SolvedPush(tasks, t, b, binds, s);
    }
  }

  /** A first occurrence is bound to its actual.  Any solution can be changed to use this
      very representative, because substitution only matters up to sameness. */
  lemma BindFirst(tasks: seq<Task>, n: nat, actual: Tree, b: map<nat, Tree>)
    requires n !in b
    ensures Solvable(tasks + [Pair(Gen(n), actual)], b, true) <==> Solvable(tasks, b[n := actual], true)
  {
    var t := Pair(Gen(n), actual);
    if Solvable(tasks + [t], b, true) {
      var s :| SolvedBy(tasks + [t], b, true, s);
      SolvedPush(tasks, t, b, true, s);
      var s' := s[n := actual];
      assert Agree(s, s');
      forall u | u in tasks ensures Holds(u, s') {
        assert Holds(u, s);
        match u {
          case Pair(p, a) => SubstSame(p, p, s, s');
          case Members(l, r) => SubstSameAll(true, l, l, s, s');
        }
      }
      assert SolvedBy(tasks, b[n := actual], true, s');
    }
    if Solvable(tasks, b[n := actual], true) {
      var s :| SolvedBy(tasks, b[n := actual], true, s);
      SolvedPush(tasks, t, b, true, s);
    }
  }

  lemma HeadsDiffer(h: Head, c: seq<Tree>, actual: Tree, s: map<nat, Tree>)
    requires !Node(h, c).SameHead(actual)
    ensures !Holds(Pair(Node(h, c), actual), s)
  {
    SameHeadMeaning(h, c, actual);
    if Holds(Pair(Node(h, c), actual), s) {
      assert actual.Node?;
      SameLength(h.Intersection?, SubstAll(c, s), actual.children);
    }
  }

  lemma HoldsPush(tasks: seq<Task>, t: Task, s: map<nat, Tree>)
    ensures AllHold(tasks + [t], s) <==> AllHold(tasks, s) && Holds(t, s)
  {
    assert t in tasks + [t];
    assert forall u :: u in tasks ==> u in tasks + [t];
  }

  /** The zipped pairs hold together exactly when the lists are the same place by place. */
  lemma {:induction false} PairsHold(c: seq<Tree>, d: seq<Tree>, s: map<nat, Tree>)
    requires |c| == |d|
    ensures AllHold(Pairs(c, d), s) <==> ShapesOf(SubstAll(c, s)) == ShapesOf(d)
  {
    if c != [] {
      assert Pairs(c, d) == Pairs(c[1..], d[1..]) + [Pair(c[0], d[0])];
      HoldsPush(Pairs(c[1..], d[1..]), Pair(c[0], d[0]), s);
      PairsHold(c[1..], d[1..], s);
      SplitShapes(SubstAll(c, s), d);
      assert SubstAll(c, s)[1..] == SubstAll(c[1..], s);
    }
  }

  lemma OrderedChildren(h: Head, c: seq<Tree>, d: seq<Tree>, s: map<nat, Tree>)
    requires !h.Intersection? && |c| == |d|
    ensures Holds(Pair(Node(h, c), Node(h, d)), s) <==> AllHold(Pairs(c, d), s)
  {
    PairsHold(c, d, s);
  }

  lemma UnorderedChildren(h: Head, c: seq<Tree>, d: seq<Tree>, s: map<nat, Tree>)
    requires h.Intersection?
    ensures Holds(Pair(Node(h, c), Node(h, d)), s) <==> AllHold([Members(c, d)], s)
  {
    assert Members(c, d) in [Members(c, d)];
  }

  // ---------------------------------------------------------------- choosing a partner

  /** The continuation after pairing the first left member with one right member. */
  function Branch(tasks: seq<Task>, left: seq<Tree>, right: seq<Tree>, i: nat): seq<Task>
    requires left != [] && i < |right|
  {
    tasks + [Members(left[1..], Remove(right, i))] + [Pair(left[0], right[i])]
  }

  lemma BranchSolved(tasks: seq<Task>, left: seq<Tree>, right: seq<Tree>, i: nat, b: map<nat, Tree>, binds: bool, s: map<nat, Tree>)
    requires left != [] && i < |right|
    ensures SolvedBy(Branch(tasks, left, right, i), b, binds, s) <==>
            SolvedBy(tasks, b, binds, s) && Holds(Members(left[1..], Remove(right, i)), s) && Holds(Pair(left[0], right[i]), s)
  {
    var rest := Members(left[1..], Remove(right, i));
    SolvedPush(tasks, rest, b, binds, s);
    SolvedPush(tasks + [rest], Pair(left[0], right[i]), b, binds, s);
  }

  lemma BranchImplies(tasks: seq<Task>, left: seq<Tree>, right: seq<Tree>, i: nat, b: map<nat, Tree>, binds: bool)
    requires left != [] && i < |right| && Solvable(Branch(tasks, left, right, i), b, binds)
    ensures Solvable(tasks + [Members(left, right)], b, binds)
  {
    var s :| SolvedBy(Branch(tasks, left, right, i), b, binds, s);
    BranchSolved(tasks, left, right, i, b, binds, s);
    BagRemove(right, i);
    BagRemove(SubstAll(left, s), 0);
    assert Remove(SubstAll(left, s), 0) == SubstAll(left[1..], s);
    SolvedPush(tasks, Members(left, right), b, binds, s);
  }

  /** If the whole is solvable then some branch is: the candidates are complete. */
  lemma SomeBranch(tasks: seq<Task>, left: seq<Tree>, right: seq<Tree>, b: map<nat, Tree>, binds: bool) returns (i: nat)
    requires left != [] && Solvable(tasks + [Members(left, right)], b, binds)
    ensures i < |right| && Solvable(Branch(tasks, left, right, i), b, binds)
  {
    var s :| SolvedBy(tasks + [Members(left, right)], b, binds, s);
    SolvedPush(tasks, Members(left, right), b, binds, s);
    i := BagPartner(SubstAll(left, s), 0, right);
    assert Remove(SubstAll(left, s), 0) == SubstAll(left[1..], s);
    BranchSolved(tasks, left, right, i, b, binds, s);
  }

  /** A candidate equal to an earlier one leads to the same answer. */
  lemma TwinBranch(tasks: seq<Task>, left: seq<Tree>, right: seq<Tree>, i: nat, j: nat, b: map<nat, Tree>, binds: bool)
    requires left != [] && i < |right| && j < |right| && right[i] == right[j]
    ensures Solvable(Branch(tasks, left, right, i), b, binds) ==> Solvable(Branch(tasks, left, right, j), b, binds)
  {
    if Solvable(Branch(tasks, left, right, i), b, binds) {
      var s :| SolvedBy(Branch(tasks, left, right, i), b, binds, s);
      BranchSolved(tasks, left, right, i, b, binds, s);
      BagRemove(right, i);
      BagRemove(right, j);
      Cancel(BagOf(Remove(right, i)), BagOf(Remove(right, j)), ShapeOf(right[i]));
      BranchSolved(tasks, left, right, j, b, binds, s);
    }
  }

  lemma BranchLoad(tasks: seq<Task>, left: seq<Tree>, right: seq<Tree>, i: nat)
    requires left != [] && i < |right|
    ensures Load(Branch(tasks, left, right, i)) < Load(tasks + [Members(left, right)])
  {
    LoadConcat(tasks + [Members(left[1..], Remove(right, i))], [Pair(left[0], right[i])]);
    LoadConcat(tasks, [Members(left[1..], Remove(right, i))]);
    LoadConcat(tasks, [Members(left, right)]);
    LoadOne(Pair(left[0], right[i]));
    LoadOne(Members(left[1..], Remove(right, i)));
    LoadOne(Members(left, right));
  }

  // ---------------------------------------------------------------- the solver

  /** Pops tasks until one fails or none is left.  The solver recurses for a choice of
      partner and, without binding, to compare a bound value with a later actual. */
  method Solve(start: seq<Task>, startBindings: map<nat, Tree>, binds: bool) returns (ok: bool)
    requires Paired(start)
    requires !binds ==> startBindings == map[]
    ensures ok <==> Solvable(start, startBindings, binds)
    decreases binds, Load(start)
  {
    var tasks, bindings := start, startBindings;
    while tasks != []
      invariant Paired(tasks) && (!binds ==> bindings == map[])
      invariant Solvable(start, startBindings, binds) <==> Solvable(tasks, bindings, binds)
      invariant Load(tasks) <= Load(start)
      decreases Load(tasks), |tasks|
    {
      var task := tasks[|tasks| - 1];
      assert tasks == tasks[..|tasks| - 1] + [task];
      tasks := tasks[..|tasks| - 1];
      LoadPush(tasks, task);
      match task {
        case Pair(Gen(n), actual) =>
          if !binds {
            RigidGeneric(tasks, n, actual);
            if Gen(n) != actual {
              return false;
            }
          } else if n in bindings {
            BoundGeneric(tasks, n, actual, bindings);
            var same := Solve([Pair(bindings[n], actual)], map[], false);
            if !same {
              return false;
            }
          } else {
            BindFirst(tasks, n, actual, bindings);
            bindings := bindings[n := actual];
          }
        case Pair(Node(h, left), actual) =>
          if !Node(h, left).SameHead(actual) {
            HeadsFail(tasks, h, left, actual, bindings, binds);
            return false;
          }
          SameHeadMeaning(h, left, actual);
          var right := actual.children;
          if Node(h, left).Unordered() {
            ExpandUnordered(tasks, h, left, right, bindings, binds);
            tasks := tasks + [Members(left, right)];
          } else {
            ExpandOrdered(tasks, h, left, right, bindings, binds);
            tasks := tasks + Pairs(left, right);
          }
        case Members(left, right) =>
          if left == [] {
            NoMembers(tasks, right, bindings, binds);
          } else {
            ok := TryPartners(tasks, left, right, bindings, binds);
            return;
          }
      }
    }
    assert SolvedBy(tasks, bindings, binds, bindings);
    return true;
  }

  lemma LoadPush(tasks: seq<Task>, t: Task)
    ensures Load(tasks + [t]) == Load(tasks) + TaskWeight(t)
  {
    LoadConcat(tasks, [t]);
    LoadOne(t);
  }

  lemma RigidGeneric(tasks: seq<Task>, n: nat, actual: Tree)
    ensures Solvable(tasks + [Pair(Gen(n), actual)], map[], false) <==> Gen(n) == actual && Solvable(tasks, map[], false)
  {
    if Gen(n) == actual {
      TopHolds(tasks, Pair(Gen(n), actual), map[], false);
    } else {
      TopFails(tasks, Pair(Gen(n), actual), map[], false);
    }
  }

  lemma BoundGeneric(tasks: seq<Task>, n: nat, actual: Tree, b: map<nat, Tree>)
    requires n in b
    ensures Solvable(tasks + [Pair(Gen(n), actual)], b, true) <==>
            Solvable([Pair(b[n], actual)], map[], false) && Solvable(tasks, b, true)
  {
    BoundComparison(b[n], actual);
    if ShapeOf(b[n]) == ShapeOf(actual) {
      TopHolds(tasks, Pair(Gen(n), actual), b, true);
    } else {
      TopFails(tasks, Pair(Gen(n), actual), b, true);
    }
  }

  lemma HeadsFail(tasks: seq<Task>, h: Head, c: seq<Tree>, actual: Tree, b: map<nat, Tree>, binds: bool)
    requires !Node(h, c).SameHead(actual)
    ensures !Solvable(tasks + [Pair(Node(h, c), actual)], b, binds)
  {
    forall s ensures !Holds(Pair(Node(h, c), actual), s) {
      HeadsDiffer(h, c, actual, s);
    }
    TopFails(tasks, Pair(Node(h, c), actual), b, binds);
  }

  lemma ExpandUnordered(tasks: seq<Task>, h: Head, c: seq<Tree>, d: seq<Tree>, b: map<nat, Tree>, binds: bool)
    requires h.Intersection?
    ensures Solvable(tasks + [Pair(Node(h, c), Node(h, d))], b, binds) <==> Solvable(tasks + [Members(c, d)], b, binds)
    ensures Load(tasks + [Members(c, d)]) < Load(tasks + [Pair(Node(h, c), Node(h, d))])
  {
    forall s ensures Holds(Pair(Node(h, c), Node(h, d)), s) <==> AllHold([Members(c, d)], s) {
      UnorderedChildren(h, c, d, s);
    }
    Replace(tasks, Pair(Node(h, c), Node(h, d)), [Members(c, d)], b, binds);
    LoadPush(tasks, Members(c, d));
    LoadPush(tasks, Pair(Node(h, c), Node(h, d)));
  }

  lemma ExpandOrdered(tasks: seq<Task>, h: Head, c: seq<Tree>, d: seq<Tree>, b: map<nat, Tree>, binds: bool)
    requires !h.Intersection? && |c| == |d|
    ensures Solvable(tasks + [Pair(Node(h, c), Node(h, d))], b, binds) <==> Solvable(tasks + Pairs(c, d), b, binds)
    ensures Load(tasks + Pairs(c, d)) < Load(tasks + [Pair(Node(h, c), Node(h, d))])
  {
    forall s ensures Holds(Pair(Node(h, c), Node(h, d)), s) <==> AllHold(Pairs(c, d), s) {
      OrderedChildren(h, c, d, s);
    }
    Replace(tasks, Pair(Node(h, c), Node(h, d)), Pairs(c, d), b, binds);
    LoadConcat(tasks, Pairs(c, d));
    LoadPairs(c, d);
    LoadPush(tasks, Pair(Node(h, c), Node(h, d)));
  }

  lemma NoMembers(tasks: seq<Task>, right: seq<Tree>, b: map<nat, Tree>, binds: bool)
    requires right == []
    ensures Solvable(tasks + [Members([], right)], b, binds) <==> Solvable(tasks, b, binds)
  {
    TopHolds(tasks, Members([], right), b, binds);
  }

  lemma BoundComparison(bound: Tree, actual: Tree)
    ensures Solvable([Pair(bound, actual)], map[], false) <==> ShapeOf(bound) == ShapeOf(actual)
  {
    SubstNothing([bound]);
    assert SubstAll([bound], map[])[0] == bound;
    if ShapeOf(bound) == ShapeOf(actual) {
      assert SolvedBy([Pair(bound, actual)], map[], false, map[]);
    }
    if Solvable([Pair(bound, actual)], map[], false) {
      assert Pair(bound, actual) in [Pair(bound, actual)];
    }
  }

  /** The loop over candidates: a pairing is kept only if the rest of the match succeeds. */
  method TryPartners(tasks: seq<Task>, left: seq<Tree>, right: seq<Tree>, bindings: map<nat, Tree>, binds: bool) returns (ok: bool)
    requires left != [] && |left| == |right| && Paired(tasks)
    requires !binds ==> bindings == map[]
    ensures ok <==> Solvable(tasks + [Members(left, right)], bindings, binds)
    decreases binds, Load(tasks + [Members(left, right)]), 0
  {
    for index := 0 to |right|
      invariant forall j :: 0 <= j < index ==> !Solvable(Branch(tasks, left, right, j), bindings, binds)
    {
      if right[index] in right[..index] {
        var twin :| 0 <= twin < index && right[twin] == right[index];
        TwinBranch(tasks, left, right, index, twin, bindings, binds);
        continue;
      }
      var branch := Branch(tasks, left, right, index);
      BranchLoad(tasks, left, right, index);
      ok := Solve(branch, bindings, binds);
      if ok {
        BranchImplies(tasks, left, right, index, bindings, binds);
        return true;
      }
    }
    if Solvable(tasks + [Members(left, right)], bindings, binds) {
      var i := SomeBranch(tasks, left, right, bindings, binds);
      assert false;
    }
    return false;
  }

  /** An implementation matches a requirement exactly when it can be instantiated to it. */
  method Matches(pattern: seq<Tree>, actual: seq<Tree>) returns (ok: bool)
    ensures ok <==> Instantiates(pattern, actual)
  {
    if |pattern| != |actual| {
      forall s | InstantiatedBy(pattern, actual, s) ensures false {
        SameLength(false, SubstAll(pattern, s), actual);
      }
      return false;
    }
    ok := Solve(Pairs(pattern, actual), map[], true);
    SolvedIsInstantiated(pattern, actual);
  }

  lemma SolvedIsInstantiated(pattern: seq<Tree>, actual: seq<Tree>)
    requires |pattern| == |actual|
    ensures Solvable(Pairs(pattern, actual), map[], true) <==> Instantiates(pattern, actual)
  {
    forall s ensures SolvedBy(Pairs(pattern, actual), map[], true, s) <==> InstantiatedBy(pattern, actual, s) {
      OrderedChildren(Never, pattern, actual, s);
    }
  }
}
