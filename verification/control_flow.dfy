/** Branch lowering: the flow summary of an arm and the graph that must mean first match. */
module ControlFlow {

  import opened Prelude

  /** Statements as far as flow is concerned; `guarded` says that a guard is present. */
  datatype Stmt =
    | Return(guarded: bool)
    | Break(guarded: bool)
    | Continue(guarded: bool)
    | Expr
    | Destructure | Assert | Loop | Bind | Assign | Set

  datatype ArmFlow = ArmFlow(yieldsValue: bool, fallsThrough: bool)

  /** Control leaves the block here, given whether the guard, if any, holds. */
  predicate Leaves(s: Stmt, guardHolds: bool) {
    match s
    case Return(guarded) => !guarded || guardHolds
    case Break(guarded) => !guarded || guardHolds
    case Continue(guarded) => !guarded || guardHolds
    case _ => false
  }

  /** With these guard outcomes no statement of the block leaves it. */
  ghost predicate Completes(body: seq<Stmt>, guards: seq<bool>) {
    |guards| == |body| && forall i :: 0 <= i < |body| ==> !Leaves(body[i], guards[i])
  }

  ghost predicate EndReachable(body: seq<Stmt>) {
    exists guards :: Completes(body, guards)
  }

  ghost predicate Yields(body: seq<Stmt>) {
    EndReachable(body) && (body == [] || body[|body| - 1].Expr?)
  }

  lemma EndNeedsGuards(body: seq<Stmt>)
    ensures EndReachable(body) <==> forall i :: 0 <= i < |body| ==> !Leaves(body[i], false)
  {
    if forall i :: 0 <= i < |body| ==> !Leaves(body[i], false) {
      assert Completes(body, seq(|body|, _ => false));
    }
  }

  /** Only an unguarded return, break or continue keeps every choice of guards from the end. */
  lemma EndNeedsNoJump(body: seq<Stmt>)
    ensures EndReachable(body) <==> Return(false) !in body && Break(false) !in body && Continue(false) !in body
  {
    EndNeedsGuards(body);
    if EndReachable(body) {
      assert forall s :: s in body ==> !Leaves(s, false);
    } else {
      var i :| 0 <= i < |body| && Leaves(body[i], false);
      assert body[i] == Return(false) || body[i] == Break(false) || body[i] == Continue(false);
    }
  }

  /** The end of the block is summarized as reachable exactly when some choice of guards
      reaches it, nested loops and expressions being taken to complete. */
  method SummarizeArm(body: seq<Stmt>) returns (flow: ArmFlow)
    ensures flow.yieldsValue <==> Yields(body)
    ensures flow.fallsThrough <==> EndReachable(body) && body != [] && !body[|body| - 1].Expr?
    ensures flow.yieldsValue || flow.fallsThrough <==>
            Return(false) !in body && Break(false) !in body && Continue(false) !in body
  {
    var yieldsValue, fallsThrough, reachable := false, false, true;
    var index := 0;
    while index < |body| && reachable
      invariant 0 <= index <= |body|
      invariant reachable ==> forall i :: 0 <= i < index ==> !Leaves(body[i], false)
      invariant !reachable ==> exists i :: 0 <= i < index && Leaves(body[i], false)
      invariant yieldsValue <==> reachable && index == |body| > 0 && body[index - 1].Expr?
    {
      var guarded := match body[index]
        case Return(g) => g
        case Break(g) => g
        case Continue(g) => g
        case _ => true;
      if body[index].Expr? && index == |body| - 1 {
        yieldsValue := true;
      }
      if !guarded {
        assert Leaves(body[index], false);
        reachable := false;
      }
      index := index + 1;
    }
    EndNeedsGuards(body);
    EndNeedsNoJump(body);
    if body == [] {
      yieldsValue := true;
    } else if reachable && !yieldsValue {
      fallsThrough := true;
    }
    flow := ArmFlow(yieldsValue, fallsThrough);
  }

  // ---------------------------------------------------------------- the branch graph

  type NodeId = nat

  datatype BranchTest = Condition | Wildcard | Pattern

  datatype Arm = Arm(test: BranchTest, body: seq<Stmt>)

  datatype Node =
    | Test(arm: nat, matched: NodeId, unmatched: Option<NodeId>)
    | Body(arm: nat, completed: Option<NodeId>)
    | Unmatched
    | Exit

  datatype Graph = Graph(nodes: seq<Node>, entry: NodeId, exit: NodeId) {

    /** Every edge leads strictly forward to an existing node. */
    predicate Forward() {
      && entry < |nodes|
      && exit == |nodes| - 1
      && forall i :: 0 <= i < |nodes| ==> NodeForward(i)
    }

    predicate NodeForward(i: NodeId)
      requires i < |nodes|
    {
      match nodes[i]
      case Test(_, m, u) => i < m < |nodes| && (u.Some? ==> i < u.value < |nodes|)
      case Body(_, c) => c.Some? ==> i < c.value < |nodes|
      case _ => true
    }

    /** Follows tests from a node until a body or an end is reached; a test without an
        unmatched edge always takes its matched edge. */
    function Walk(at: NodeId, outcomes: seq<bool>): Node
      requires Forward() && at < |nodes|
      decreases |nodes| - at
    {
      assert NodeForward(at);
      match nodes[at]
      case Test(a, m, u) =>
        if u.None? || (a < |outcomes| && outcomes[a]) then Walk(m, outcomes) else Walk(u.value, outcomes)
      case other => other
    }
  }

  predicate ArmMatches(arm: Arm, outcome: bool) {
    arm.test.Wildcard? || outcome
  }

  /** The first arm that matches at or after a position, or the arm count. */
  function FirstMatch(arms: seq<Arm>, outcomes: seq<bool>, from: nat): (r: nat)
    requires |outcomes| == |arms| && from <= |arms|
    ensures from <= r <= |arms|
    ensures r < |arms| ==> ArmMatches(arms[r], outcomes[r])
    ensures forall i :: from <= i < r ==> !ArmMatches(arms[i], outcomes[i])
    decreases |arms| - from
  {
    if from == |arms| || ArmMatches(arms[from], outcomes[from]) then from else FirstMatch(arms, outcomes, from + 1)
  }

  function AfterArm(arms: seq<Arm>, i: nat): NodeId {
    if i + 1 < |arms| then (i + 1) * 2 else |arms| * 2
  }

  /** The nodes of one arm: its test, then its body. */
  ghost predicate ArmLaidOut(arms: seq<Arm>, exit: NodeId, nodes: seq<Node>, i: nat)
    requires i < |arms| && i * 2 + 1 < |nodes|
  {
    && nodes[i * 2] == Test(i, i * 2 + 1, if arms[i].test.Wildcard? then None else Some(AfterArm(arms, i)))
    && nodes[i * 2 + 1].Body? && nodes[i * 2 + 1].arm == i
    && nodes[i * 2 + 1].completed == if Yields(arms[i].body) then Some(exit) else None
  }

  ghost predicate LaidOut(arms: seq<Arm>, exhaustive: bool, g: Graph) {
    && |g.nodes| == |arms| * 2 + (if exhaustive then 2 else 1)
    && g.exit == |g.nodes| - 1
    && g.entry == (if arms == [] then g.exit else 0)
    && (forall i :: 0 <= i < |arms| ==> ArmLaidOut(arms, g.exit, g.nodes, i))
    && (exhaustive ==> g.nodes[|arms| * 2] == Unmatched)
    && g.nodes[g.exit] == Exit
  }

  method NewGraph(arms: seq<Arm>, exhaustive: bool) returns (g: Graph)
    ensures LaidOut(arms, exhaustive, g)
  {
    var armCount := |arms|;
    var unmatched := armCount * 2;
    var exit := unmatched + if exhaustive then 1 else 0;
    var nodes: seq<Node> := [];
    for arm := 0 to armCount
      invariant |nodes| == arm * 2
      invariant forall i :: 0 <= i < arm ==> ArmLaidOut(arms, exit, nodes, i)
    {
      var next := if arm + 1 < armCount then (arm + 1) * 2 else unmatched;
      var flow := SummarizeArm(arms[arm].body);
      ghost var before := nodes;
      nodes := nodes + [Test(arm, arm * 2 + 1, if arms[arm].test.Wildcard? then None else Some(next))];
      nodes := nodes + [Body(arm, if flow.yieldsValue then Some(exit) else None)];
      forall i | 0 <= i < arm ensures ArmLaidOut(arms, exit, nodes, i) {
        assert ArmLaidOut(arms, exit, before, i);
      }
    }
    ghost var pairs := nodes;
    if exhaustive {
      nodes := nodes + [Unmatched];
    }
    nodes := nodes + [Exit];
    forall i | 0 <= i < armCount ensures ArmLaidOut(arms, exit, nodes, i) {
      assert ArmLaidOut(arms, exit, pairs, i);
    }
    g := Graph(nodes, if armCount == 0 then exit else 0, exit);
  }

  lemma LaidOutForward(arms: seq<Arm>, exhaustive: bool, g: Graph)
    requires LaidOut(arms, exhaustive, g)
    ensures g.Forward()
  {
    forall n | 0 <= n < |g.nodes| ensures g.NodeForward(n) {
      if n < |arms| * 2 {
        assert ArmLaidOut(arms, g.exit, g.nodes, n / 2);
        assert n == n / 2 * 2 || n == n / 2 * 2 + 1;
      }
    }
  }

  /** Where the walk ends when no arm matches.  The constructor sends an empty list of arms
      straight to its exit. */
  function NoMatch(arms: seq<Arm>, exhaustive: bool): Node {
    if exhaustive && arms != [] then Unmatched else Exit
  }

  /** Whatever the tests say, walking the graph reaches the body of the first matching arm,
      or the end chosen for no match. */
  lemma WalkIsFirstMatch(arms: seq<Arm>, exhaustive: bool, g: Graph, outcomes: seq<bool>)
    requires LaidOut(arms, exhaustive, g) && |outcomes| == |arms|
    ensures g.Forward()
    ensures var i := FirstMatch(arms, outcomes, 0);
            g.Walk(g.entry, outcomes) == if i < |arms| then g.nodes[i * 2 + 1] else NoMatch(arms, exhaustive)
    ensures var i := FirstMatch(arms, outcomes, 0);
            i < |arms| ==> g.Walk(g.entry, outcomes) == Body(i, if Yields(arms[i].body) then Some(g.exit) else None)
  {
    LaidOutForward(arms, exhaustive, g);
    if arms != [] {
      WalkFrom(arms, exhaustive, g, outcomes, 0);
    }
    var i := FirstMatch(arms, outcomes, 0);
    if i < |arms| {
      assert ArmLaidOut(arms, g.exit, g.nodes, i);
    }
  }

  lemma {:induction false} WalkFrom(arms: seq<Arm>, exhaustive: bool, g: Graph, outcomes: seq<bool>, from: nat)
    requires LaidOut(arms, exhaustive, g) && |outcomes| == |arms| && from < |arms| && g.Forward()
    ensures var i := FirstMatch(arms, outcomes, from);
            g.Walk(from * 2, outcomes) == if i < |arms| then g.nodes[i * 2 + 1] else NoMatch(arms, exhaustive)
    decreases |arms| - from
  {
    assert ArmLaidOut(arms, g.exit, g.nodes, from);
    if !ArmMatches(arms[from], outcomes[from]) {
      if from + 1 < |arms| {
        WalkFrom(arms, exhaustive, g, outcomes, from + 1);
      } else {
        assert g.nodes[|arms| * 2] == NoMatch(arms, exhaustive);
      }
    }
  }

  /** An exhaustive branch with arms ends unmatched when none of them matches; without arms,
      which checked programs never have, the constructor sends it to its exit. */
  lemma UnmatchedNeedsArms(arms: seq<Arm>, g: Graph, outcomes: seq<bool>)
    requires LaidOut(arms, true, g) && |outcomes| == |arms| && g.Forward()
    requires forall i :: 0 <= i < |arms| ==> !ArmMatches(arms[i], outcomes[i])
    ensures arms != [] ==> g.Walk(g.entry, outcomes) == Unmatched
    ensures arms == [] ==> g.Walk(g.entry, outcomes) == Exit
  {
    WalkIsFirstMatch(arms, true, g, outcomes);
  }
}
