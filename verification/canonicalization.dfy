/** The canonical form of a parameter sequence: a pruned breadth search over the orders of
    intersection members, keeping every tied prefix with its own name map. */
module Canonicalization {
  import opened Prelude
  import opened Trees
  import opened Shapes
  import opened Numbering

  // ---------------------------------------------------------------- what a form is

  /** `order` is a reordering of the values whose first-use numbering is `form`. */
  ghost predicate FormBy(unordered: bool, values: seq<Tree>, names: Names, order: seq<Tree>, form: seq<Tree>, after: Names) {
    Same(unordered, order, values) && NumberAll(order, names) == (form, after)
  }

  ghost predicate Form(unordered: bool, values: seq<Tree>, names: Names, form: seq<Tree>, after: Names) {
    exists order :: FormBy(unordered, values, names, order, form, after)
  }

  /** A form no other form of the same values precedes. */
  ghost predicate Least(unordered: bool, values: seq<Tree>, names: Names, form: seq<Tree>, after: Names) {
    && Form(unordered, values, names, form, after)
    && forall f, n :: Form(unordered, values, names, f, n) ==> !CompareVec(form, f).Greater?
  }

  ghost predicate TreeForm(value: Tree, names: Names, form: Tree, after: Names) {
    exists order :: ShapeOf(order) == ShapeOf(value) && Number(order, names) == (form, after)
  }

  ghost predicate LeastTree(value: Tree, names: Names, form: Tree, after: Names) {
    && TreeForm(value, names, form, after)
    && forall f, n :: TreeForm(value, names, f, n) ==> !Compare(form, f).Greater?
  }

  /** The least first-use numbered form of a whole parameter sequence. */
  ghost predicate IsCanonical(parameters: seq<Tree>, form: seq<Tree>) {
    exists after :: Least(false, parameters, map[], form, after)
  }

  lemma NodeShapes(h: Head, c: seq<Tree>, order: Tree)
    ensures ShapeOf(order) == ShapeOf(Node(h, c)) <==>
            order.Node? && order.head == h && Same(h.Intersection?, order.children, c)
  {
  }

  /** Forms of a node are the forms of its children under the same head. */
  lemma NodeForms(h: Head, c: seq<Tree>, names: Names, form: Tree, after: Names)
    ensures TreeForm(Node(h, c), names, form, after) <==>
            form.Node? && form.head == h && Form(h.Intersection?, c, names, form.children, after)
  {
    if TreeForm(Node(h, c), names, form, after) {
      var order :| ShapeOf(order) == ShapeOf(Node(h, c)) && Number(order, names) == (form, after);
      NodeShapes(h, c, order);
      assert FormBy(h.Intersection?, c, names, order.children, form.children, after);
    }
    if form.Node? && form.head == h && Form(h.Intersection?, c, names, form.children, after) {
      var order :| FormBy(h.Intersection?, c, names, order, form.children, after);
      NodeShapes(h, c, Node(h, order));
      assert Number(Node(h, order), names) == (form, after);
    }
  }

  lemma LeastNode(h: Head, c: seq<Tree>, names: Names, form: Tree, after: Names)
    ensures LeastTree(Node(h, c), names, form, after) <==>
            form.Node? && form.head == h && Least(h.Intersection?, c, names, form.children, after)
  {
    NodeForms(h, c, names, form, after);
    if LeastTree(Node(h, c), names, form, after) {
      forall f, n | Form(h.Intersection?, c, names, f, n) ensures !CompareVec(form.children, f).Greater? {
        NodeForms(h, c, names, Node(h, f), n);
        SameHeadComparesChildren(h, form.children, f);
      }
    }
    if form.Node? && form.head == h && Least(h.Intersection?, c, names, form.children, after) {
      forall f, n | TreeForm(Node(h, c), names, f, n) ensures !Compare(form, f).Greater? {
        NodeForms(h, c, names, f, n);
        SameHeadComparesChildren(h, form.children, f.children);
      }
    }
  }

  lemma GenericForms(i: nat, names: Names, form: Tree, after: Names)
    ensures LeastTree(Gen(i), names, form, after) <==> Number(Gen(i), names) == (form, after)
  {
    forall order | ShapeOf(order) == ShapeOf(Gen(i)) ensures order == Gen(i) {}
    if Number(Gen(i), names) == (form, after) {
      assert ShapeOf(Gen(i)) == ShapeOf(Gen(i));
      CompareTotal(form, form);
    }
  }

  // ---------------------------------------------------------------- states of the search

  /** A chosen prefix, the members not yet placed and the names given out so far. */
  datatype State = State(prefix: seq<Tree>, rest: seq<Tree>, names: Names)

  /** The problem a search works on: its inputs never change. */
  datatype Problem = Problem(unordered: bool, values: seq<Tree>, names: Names)

  ghost predicate ReachedBy(p: Problem, order: seq<Tree>, s: State) {
    NumberAll(order, p.names) == (s.prefix, s.names) && Same(p.unordered, order + s.rest, p.values)
  }

  ghost predicate Reached(p: Problem, k: nat, s: State) {
    && |s.prefix| == k
    && (forall x :: x in s.rest ==> x in p.values)
    && exists order :: ReachedBy(p, order, s)
  }

  ghost predicate AllReached(p: Problem, k: nat, states: seq<State>) {
    forall s :: s in states ==> Reached(p, k, s)
  }

  lemma AllReachedPush(p: Problem, k: nat, states: seq<State>, s: State)
    requires AllReached(p, k, states) && Reached(p, k, s)
    ensures AllReached(p, k, states + [s])
  {
  }

  /** The state stands for this ordering at depth k: it has a smaller prefix, or the same
      prefix and names and the same members left to place. */
  ghost predicate Covers(p: Problem, order: seq<Tree>, k: nat, s: State)
    requires k <= |order|
  {
    var (form, names) := NumberAll(order[..k], p.names);
    CompareVec(s.prefix, form).Less? ||
    (s.prefix == form && s.names == names && Same(p.unordered, order[k..], s.rest))
  }

  ghost predicate CoveredBy(p: Problem, order: seq<Tree>, k: nat, states: seq<State>)
    requires k <= |order|
  {
    exists s :: s in states && Covers(p, order, k, s)
  }

  /** The survivors of k rounds: one common least prefix, and no ordering is lost. */
  ghost predicate Frontier(p: Problem, k: nat, states: seq<State>) {
    && states != []
    && AllReached(p, k, states)
    && (forall s, t :: s in states && t in states ==> s.prefix == t.prefix)
    && (forall order {:trigger CoveredBy(p, order, k, states)} ::
          Same(p.unordered, order, p.values) && k <= |order| ==> CoveredBy(p, order, k, states))
  }

  /** `next` holds exactly the candidates offered so far that carry the least prefix. */
  ghost predicate Pruned(seen: seq<State>, best: Option<seq<Tree>>, next: seq<State>) {
    match best
    case None => seen == [] && next == []
    case Some(b) =>
      && next != []
      && (forall s :: s in seen ==> !CompareVec(b, s.prefix).Greater?)
      && (forall s :: s in next <==> s in seen && s.prefix == b)
  }

  /** Keeps a candidate unless its prefix is larger than the best; a smaller one drops the others. */
  method Offer(candidate: State, best: Option<seq<Tree>>, next: seq<State>, ghost seen: seq<State>)
    returns (best': Option<seq<Tree>>, next': seq<State>)
    requires Pruned(seen, best, next)
    ensures Pruned(seen + [candidate], best', next')
  {
    best', next' := best, next;
    VecTotal(candidate.prefix, candidate.prefix);
    if best.Some? {
      VecTotal(candidate.prefix, best.value);
    }
    if best.Some? && CompareVec(candidate.prefix, best.value).Greater? {
      return;
    }
    if best.None? || CompareVec(candidate.prefix, best.value).Less? {
      best' := Some(candidate.prefix);
      next' := [];
      if best.Some? {
        forall s | s in seen ensures CompareVec(candidate.prefix, s.prefix).Less? {
          VecTransitive(candidate.prefix, best.value, s.prefix);
        }
        forall s | s in seen ensures s.prefix != candidate.prefix {
          VecTotal(candidate.prefix, s.prefix);
        }
      }
    }
    if candidate !in next' {
      next' := next' + [candidate];
    }
  }

  // ---------------------------------------------------------------- one round

  /** Every least form of every distinct remaining member before position `index` was offered. */
  ghost predicate Offered(s: State, index: nat, seen: seq<State>)
    requires index <= |s.rest|
  {
    forall i, f, n :: 0 <= i < index && s.rest[i] !in s.rest[..i] && LeastTree(s.rest[i], s.names, f, n) ==>
      State(s.prefix + [f], Remove(s.rest, i), n) in seen
  }

  lemma PlaceInBag(order: seq<Tree>, t: Tree, rest: seq<Tree>, i: nat)
    requires i < |rest| && ShapeOf(t) == ShapeOf(rest[i])
    ensures BagOf(order + [t] + Remove(rest, i)) == BagOf(order + rest)
  {
    FrontBag(t, rest, i);
    var left := Remove(rest, i);
    assert order + [t] + left == order + ([t] + left);
    SameBagAfter(order, [t] + left, rest);
  }

  lemma SameBagAfter(order: seq<Tree>, a: seq<Tree>, b: seq<Tree>)
    requires BagOf(a) == BagOf(b)
    ensures BagOf(order + a) == BagOf(order + b)
  {
    ShapesOfConcat(order, a);
    ShapesOfConcat(order, b);
  }

  lemma FrontBag(t: Tree, rest: seq<Tree>, i: nat)
    requires i < |rest| && ShapeOf(t) == ShapeOf(rest[i])
    ensures BagOf([t] + Remove(rest, i)) == BagOf(rest)
  {
    var moved := [t] + Remove(rest, i);
    BagRemove(rest, i);
    BagRemove(moved, 0);
    assert Remove(moved, 0) == Remove(rest, i);
  }

  lemma FirstShape(t: Tree, rest: seq<Tree>)
    requires rest != [] && ShapeOf(t) == ShapeOf(rest[0])
    ensures ShapesOf([t] + rest[1..]) == ShapesOf(rest)
  {
    assert ([t] + rest[1..])[1..] == rest[1..];
  }

  lemma PlaceFirst(order: seq<Tree>, t: Tree, rest: seq<Tree>)
    requires rest != [] && ShapeOf(t) == ShapeOf(rest[0])
    ensures ShapesOf(order + [t] + Remove(rest, 0)) == ShapesOf(order + rest)
  {
    var left := Remove(rest, 0);
    assert left == rest[1..];
    assert order + [t] + left == order + ([t] + left);
    ShapesOfConcat(order, [t] + left);
    ShapesOfConcat(order, rest);
    FirstShape(t, rest);
  }

  lemma NumberAppend(order: seq<Tree>, t: Tree, names: Names)
    ensures var (form, between) := NumberAll(order, names);
            var (f, n) := Number(t, between);
            NumberAll(order + [t], names) == (form + [f], n)
  {
    NumberConcat(order, [t], names);
    NumberOne(t, NumberAll(order, names).1);
  }

  /** What placing one remaining member leads to is reached one round later. */
  lemma StepReached(p: Problem, k: nat, s: State, i: nat, f: Tree, n: Names)
    requires Reached(p, k, s) && i < |s.rest| && (p.unordered || i == 0)
    requires TreeForm(s.rest[i], s.names, f, n)
    ensures Reached(p, k + 1, State(s.prefix + [f], Remove(s.rest, i), n))
  {
    var order :| ReachedBy(p, order, s);
    var t :| ShapeOf(t) == ShapeOf(s.rest[i]) && Number(t, s.names) == (f, n);
    NumberAppend(order, t, p.names);
    if p.unordered {
      PlaceInBag(order, t, s.rest, i);
    } else {
      PlaceFirst(order, t, s.rest);
    }
    ReachedNext(p, k, s, i, order, t, f, n);
  }

  lemma ReachedNext(p: Problem, k: nat, s: State, i: nat, order: seq<Tree>, t: Tree, f: Tree, n: Names)
    requires Reached(p, k, s) && i < |s.rest|
    requires NumberAll(order + [t], p.names) == (s.prefix + [f], n)
    requires Same(p.unordered, order + [t] + Remove(s.rest, i), p.values)
    ensures Reached(p, k + 1, State(s.prefix + [f], Remove(s.rest, i), n))
  {
    assert ReachedBy(p, order + [t], State(s.prefix + [f], Remove(s.rest, i), n));
    assert forall x :: x in Remove(s.rest, i) ==> x in s.rest;
  }

  lemma FirstEqual(s: seq<Tree>, j: nat) returns (i: nat)
    requires j < |s|
    ensures i <= j && s[i] == s[j] && s[i] !in s[..i]
  {
    i := 0;
    while s[i] != s[j]
      invariant i <= j && s[j] !in s[..i]
      decreases j - i
    {
      i := i + 1;
    }
  }

  lemma RemoveEqual(s: seq<Tree>, i: nat, j: nat)
    requires i < |s| && j < |s| && s[i] == s[j]
    ensures BagOf(Remove(s, i)) == BagOf(Remove(s, j))
  {
    BagRemove(s, i);
    BagRemove(s, j);
    Cancel(BagOf(Remove(s, i)), BagOf(Remove(s, j)), ShapeOf(s[i]));
  }

  lemma NumberNext(order: seq<Tree>, k: nat, names: Names)
    requires k < |order|
    ensures var (form, between) := NumberAll(order[..k], names);
            var (f, n) := Number(order[k], between);
            NumberAll(order[..k + 1], names) == (form + [f], n)
  {
    assert order[..k + 1] == order[..k] + [order[k]];
    NumberAppend(order[..k], order[k], names);
  }

  /** A state with a smaller prefix still has a smaller prefix after any extension. */
  lemma SmallerCovers(p: Problem, k: nat, s: State, order: seq<Tree>, g: Tree, m: Names)
    requires |s.prefix| == k < |order| && s.rest != []
    requires CompareVec(s.prefix, NumberAll(order[..k], p.names).0).Less?
    ensures Covers(p, order, k + 1, State(s.prefix + [g], Remove(s.rest, 0), m))
  {
    var (form, names) := NumberAll(order[..k], p.names);
    NumberNext(order, k, p.names);
    VecAppend(s.prefix, form, [g], [Number(order[k], names).0]);
  }

  /** Placing the right member in its least form gives a smaller prefix or the same state. */
  lemma PlacedCovers(p: Problem, k: nat, s: State, order: seq<Tree>, i: nat, h: Tree, l: Names)
    requires |s.prefix| == k < |order| && i < |s.rest|
    requires NumberAll(order[..k], p.names) == (s.prefix, s.names)
    requires Same(p.unordered, order[k + 1..], Remove(s.rest, i))
    requires var (f, n) := Number(order[k], s.names); !Compare(h, f).Greater? && (h == f ==> l == n)
    ensures Covers(p, order, k + 1, State(s.prefix + [h], Remove(s.rest, i), l))
  {
    var (f, n) := Number(order[k], s.names);
    NumberNext(order, k, p.names);
    CompareTotal(h, f);
    VecTotal(s.prefix, s.prefix);
    VecAppend(s.prefix, s.prefix, [h], [f]);
  }

  /** An ordering a state stands for is still stood for once the state is expanded: larger
      forms of a member, and members equal to an earlier one, need no branch. */
  lemma StepCovers(p: Problem, k: nat, s: State, order: seq<Tree>, seen: seq<State>)
    requires |s.prefix| == k < |order| && |s.rest| > 0 && Covers(p, order, k, s)
    requires Expanded(p, s, if p.unordered then |s.rest| else 1, seen)
    ensures CoveredBy(p, order, k + 1, seen)
  {
    if CompareVec(s.prefix, NumberAll(order[..k], p.names).0).Less? {
      assert HasForm(s.rest[0], s.names);
      var g, m :| LeastTree(s.rest[0], s.names, g, m);
      SmallerCovers(p, k, s, order, g, m);
      assert State(s.prefix + [g], Remove(s.rest, 0), m) in seen;
    } else {
      var i := FirstPartner(p, k, s, order);
      assert HasForm(s.rest[i], s.names);
      var (f, n) := Number(order[k], s.names);
      assert TreeForm(s.rest[i], s.names, f, n);
      var h, l :| LeastTree(s.rest[i], s.names, h, l) && (h == f ==> l == n) by {
        var h, l :| LeastTree(s.rest[i], s.names, h, l);
        assert h == f ==> LeastTree(s.rest[i], s.names, f, n);
      }
      PlacedCovers(p, k, s, order, i, h, l);
      assert State(s.prefix + [h], Remove(s.rest, i), l) in seen;
    }
  }

  /** The first remaining member the search may place where the ordering has its next one. */
  lemma FirstPartner(p: Problem, k: nat, s: State, order: seq<Tree>) returns (i: nat)
    requires k < |order| && s.rest != [] && Same(p.unordered, order[k..], s.rest)
    ensures i < |s.rest| && (p.unordered || i == 0) && s.rest[i] !in s.rest[..i]
    ensures ShapeOf(order[k]) == ShapeOf(s.rest[i]) && Same(p.unordered, order[k + 1..], Remove(s.rest, i))
  {
    var j := SamePartner(p.unordered, order[k..], s.rest);
    assert order[k..][1..] == order[k + 1..] && order[k..][0] == order[k];
    i := 0;
    if p.unordered {
      i := FirstEqual(s.rest, j);
      RemoveEqual(s.rest, i, j);
    }
  }

  /** The first forms of one remaining member are among the candidates. */
  ghost predicate AllOffered(state: State, index: nat, results: seq<(Tree, Names)>, n: nat, seen: seq<State>)
    requires index < |state.rest| && n <= |results|
  {
    forall q :: 0 <= q < n ==> State(state.prefix + [results[q].0], Remove(state.rest, index), results[q].1) in seen
  }

  lemma OneMoreOffered(state: State, index: nat, results: seq<(Tree, Names)>, n: nat, before: seq<State>, seen: seq<State>)
    requires index < |state.rest| && n < |results| && AllOffered(state, index, results, n, before)
    requires forall s :: s in before ==> s in seen
    requires State(state.prefix + [results[n].0], Remove(state.rest, index), results[n].1) in seen
    ensures AllOffered(state, index, results, n + 1, seen)
  {
  }

  /** Offers every form of one remaining member. */
  method OfferAll(ghost p: Problem, state: State, index: nat, results: seq<(Tree, Names)>,
                  best: Option<seq<Tree>>, next: seq<State>, ghost seen: seq<State>)
    returns (best': Option<seq<Tree>>, next': seq<State>, ghost seen': seq<State>)
    requires Reached(p, |state.prefix|, state)
    requires index < |state.rest| && (p.unordered || index == 0)
    requires Pruned(seen, best, next)
    requires AllReached(p, |state.prefix| + 1, seen)
    requires forall q :: 0 <= q < |results| ==> TreeForm(state.rest[index], state.names, results[q].0, results[q].1)
    ensures Pruned(seen', best', next')
    ensures forall s :: s in seen ==> s in seen'
    ensures AllReached(p, |state.prefix| + 1, seen')
    ensures AllOffered(state, index, results, |results|, seen')
  {
    best', next', seen' := best, next, seen;
    for r := 0 to |results|
      invariant Pruned(seen', best', next')
      invariant forall s :: s in seen ==> s in seen'
      invariant AllReached(p, |state.prefix| + 1, seen')
      invariant AllOffered(state, index, results, r, seen')
    {
      var (value, after) := results[r];
      ghost var before := seen';
      best', next', seen' := OfferForm(p, state, index, value, after, best', next', seen');
      OneMoreOffered(state, index, results, r, before, seen');
    }
  }

  /** Offers the state in which one form of one remaining member is placed. */
  method OfferForm(ghost p: Problem, state: State, index: nat, value: Tree, after: Names,
                   best: Option<seq<Tree>>, next: seq<State>, ghost seen: seq<State>)
    returns (best': Option<seq<Tree>>, next': seq<State>, ghost seen': seq<State>)
    requires Reached(p, |state.prefix|, state)
    requires index < |state.rest| && (p.unordered || index == 0)
    requires Pruned(seen, best, next) && AllReached(p, |state.prefix| + 1, seen)
    requires TreeForm(state.rest[index], state.names, value, after)
    ensures Pruned(seen', best', next') && AllReached(p, |state.prefix| + 1, seen')
    ensures forall s :: s in seen ==> s in seen'
    ensures State(state.prefix + [value], Remove(state.rest, index), after) in seen'
  {
    var candidate := State(state.prefix + [value], Remove(state.rest, index), after);
    StepReached(p, |state.prefix|, state, index, value, after);
    best', next' := Offer(candidate, best, next, seen);
    AllReachedPush(p, |state.prefix| + 1, seen, candidate);
    seen' := seen + [candidate];
  }

  /** Members before position `index` have forms, and all their least forms were offered. */
  ghost predicate Expanded(p: Problem, s: State, index: nat, seen: seq<State>)
    requires index <= |s.rest|
  {
    && Offered(s, index, seen)
    && (forall i | 0 <= i < index :: HasForm(s.rest[i], s.names))
    && (index > 0 ==> seen != [])
  }

  ghost predicate HasForm(value: Tree, names: Names) {
    exists f, n :: LeastTree(value, names, f, n)
  }

  lemma ExpandedNext(p: Problem, s: State, index: nat, results: seq<(Tree, Names)>, before: seq<State>, seen: seq<State>)
    requires index < |s.rest| && Expanded(p, s, index, before) && results != []
    requires forall s :: s in before ==> s in seen
    requires forall f, n :: LeastTree(s.rest[index], s.names, f, n) <==> (f, n) in results
    requires AllOffered(s, index, results, |results|, seen)
    ensures Expanded(p, s, index + 1, seen)
  {
    var (f, n) := results[0];
    assert (f, n) in results;
    assert State(s.prefix + [f], Remove(s.rest, index), n) in seen;
    FormOf(s.rest[index], s.names, results);
    OfferedNext(s, index, results, before, seen);
  }

  lemma FormOf(value: Tree, names: Names, results: seq<(Tree, Names)>)
    requires results != [] && forall f, n :: LeastTree(value, names, f, n) <==> (f, n) in results
    ensures HasForm(value, names)
  {
    var (f, n) := results[0];
    assert LeastTree(value, names, f, n);
  }

  lemma OfferedNext(s: State, index: nat, results: seq<(Tree, Names)>, before: seq<State>, seen: seq<State>)
    requires index < |s.rest| && Offered(s, index, before) && forall s :: s in before ==> s in seen
    requires forall f, n :: LeastTree(s.rest[index], s.names, f, n) <==> (f, n) in results
    requires AllOffered(s, index, results, |results|, seen)
    ensures Offered(s, index + 1, seen)
  {
    forall i, f, n | 0 <= i <= index && s.rest[i] !in s.rest[..i] && LeastTree(s.rest[i], s.names, f, n)
      ensures State(s.prefix + [f], Remove(s.rest, i), n) in seen
    {
      if i == index {
        assert (f, n) in results;
      }
    }
  }

  lemma ExpandedSkip(p: Problem, s: State, index: nat, seen: seq<State>)
    requires index < |s.rest| && Expanded(p, s, index, seen) && s.rest[index] in s.rest[..index]
    ensures Expanded(p, s, index + 1, seen)
  {
    var i :| 0 <= i < index && s.rest[i] == s.rest[index];
    assert HasForm(s.rest[i], s.names);
    OfferedSkip(s, index, seen);
  }

  lemma OfferedSkip(s: State, index: nat, seen: seq<State>)
    requires index < |s.rest| && Offered(s, index, seen) && s.rest[index] in s.rest[..index]
    ensures Offered(s, index + 1, seen)
  {
    forall i, f, n | 0 <= i <= index && s.rest[i] !in s.rest[..i] && LeastTree(s.rest[i], s.names, f, n)
      ensures State(s.prefix + [f], Remove(s.rest, i), n) in seen
    {
      assert i < index;
    }
  }

  ghost predicate Progress(p: Problem, k: nat, s: State, seen: seq<State>) {
    forall order {:trigger Covers(p, order, k, s)} ::
      |order| > k && Covers(p, order, k, s) ==> CoveredBy(p, order, k + 1, seen)
  }

  lemma ExpandedCovers(p: Problem, s: State, seen: seq<State>)
    requires s.rest != [] && Expanded(p, s, if p.unordered then |s.rest| else 1, seen)
    ensures Progress(p, |s.prefix|, s, seen)
  {
    forall order | |order| > |s.prefix| && Covers(p, order, |s.prefix|, s)
      ensures CoveredBy(p, order, |s.prefix| + 1, seen)
    {
      StepCovers(p, |s.prefix|, s, order, seen);
    }
  }

  /** Expands one state of a round into its candidates. */
  method Extend(ghost p: Problem, unordered: bool, state: State, best: Option<seq<Tree>>, next: seq<State>, ghost seen: seq<State>)
    returns (best': Option<seq<Tree>>, next': seq<State>, ghost seen': seq<State>)
    requires p.unordered == unordered && state.rest != []
    requires Pruned(seen, best, next)
    requires Reached(p, |state.prefix|, state)
    requires AllReached(p, |state.prefix| + 1, seen)
    ensures Pruned(seen', best', next')
    ensures forall s :: s in seen ==> s in seen'
    ensures AllReached(p, |state.prefix| + 1, seen')
    ensures seen' != []
    ensures Progress(p, |state.prefix|, state, seen')
    decreases p.values, 1
  {
    best', next', seen' := best, next, seen;
    var remaining := state.rest;
    var choices := if unordered then |remaining| else 1;
    var index := 0;
    while index < choices
      invariant 0 <= index <= choices
      invariant Pruned(seen', best', next')
      invariant forall s :: s in seen ==> s in seen'
      invariant AllReached(p, |state.prefix| + 1, seen')
      invariant Expanded(p, state, index, seen')
    {
      if unordered && remaining[index] in remaining[..index] {
        ExpandedSkip(p, state, index, seen');
        index := index + 1;
        continue;
      }
      assert remaining[index] in p.values;
      var results := SearchNode(remaining[index], state.names);
      LeastAreForms(remaining[index], state.names, results);
      ghost var before := seen';
      best', next', seen' := OfferAll(p, state, index, results, best', next', seen');
      ExpandedNext(p, state, index, results, before, seen');
      index := index + 1;
    }
    ExpandedCovers(p, state, seen');
  }

  lemma LeastAreForms(value: Tree, names: Names, results: seq<(Tree, Names)>)
    requires forall f, n :: LeastTree(value, names, f, n) <==> (f, n) in results
    ensures forall q :: 0 <= q < |results| ==> TreeForm(value, names, results[q].0, results[q].1)
  {
    forall q | 0 <= q < |results| ensures TreeForm(value, names, results[q].0, results[q].1) {
      assert (results[q].0, results[q].1) in results;
      assert LeastTree(value, names, results[q].0, results[q].1);
    }
  }

  // ---------------------------------------------------------------- the search

  /** The source's `node`: all least forms of one value, each with its names. */
  method SearchNode(value: Tree, names: Names) returns (results: seq<(Tree, Names)>)
    ensures results != []
    ensures forall f, n :: LeastTree(value, names, f, n) <==> (f, n) in results
    decreases value, 4
  {
    if value.Gen? {
      var (renamed, after) := Number(value, names);
      forall f, n ensures LeastTree(value, names, f, n) <==> (f, n) == (renamed, after) {
        GenericForms(value.index, names, f, n);
      }
      return [(renamed, after)];
    }
    var states := SearchSequence(value.children, value.Unordered(), names);
    results := seq(|states|, i requires 0 <= i < |states| => (Node(value.head, states[i].0), states[i].1));
    forall f, n ensures LeastTree(value, names, f, n) <==> (f, n) in results {
      LeastNode(value.head, value.children, names, f, n);
      if LeastTree(value, names, f, n) {
        assert (f.children, n) in states;
        var i :| 0 <= i < |states| && states[i] == (f.children, n);
        assert results[i] == (f, n);
      }
      if (f, n) in results {
        var i :| 0 <= i < |results| && results[i] == (f, n);
        assert states[i] == (f.children, n);
      }
    }
  }

  lemma RestLeft(p: Problem, k: nat, s: State)
    requires Reached(p, k, s)
    ensures |s.rest| == |p.values| - k
  {
    var order :| ReachedBy(p, order, s);
    SameLength(p.unordered, order + s.rest, p.values);
  }

  lemma ReachedIsForm(p: Problem, s: State)
    requires Reached(p, |p.values|, s)
    ensures s.rest == [] && Form(p.unordered, p.values, p.names, s.prefix, s.names)
  {
    RestLeft(p, |p.values|, s);
    var order :| ReachedBy(p, order, s);
    assert order + s.rest == order;
    assert FormBy(p.unordered, p.values, p.names, order, s.prefix, s.names);
  }

  lemma FormIsCovered(p: Problem, states: seq<State>, f: seq<Tree>, n: Names)
    requires Frontier(p, |p.values|, states) && Form(p.unordered, p.values, p.names, f, n)
    ensures CompareVec(states[0].prefix, f).Less? || (states[0].prefix == f && State(f, [], n) in states)
  {
    var order :| FormBy(p.unordered, p.values, p.names, order, f, n);
    SameLength(p.unordered, order, p.values);
    assert order[..|p.values|] == order;
    assert CoveredBy(p, order, |p.values|, states);
    var t :| t in states && Covers(p, order, |p.values|, t);
    assert states[0] in states;
    ReachedIsForm(p, t);
    assert State(t.prefix, [], t.names) == t;
  }

  /** At the end a surviving state is a least form, and every least form survives. */
  lemma FrontierIsLeast(p: Problem, states: seq<State>, form: seq<Tree>, after: Names)
    requires Frontier(p, |p.values|, states)
    ensures Least(p.unordered, p.values, p.names, form, after) <==> State(form, [], after) in states
  {
    var first := states[0];
    assert first in states;
    ReachedIsForm(p, first);
    VecTotal(first.prefix, form);
    if Least(p.unordered, p.values, p.names, form, after) {
      FormIsCovered(p, states, form, after);
    }
    if State(form, [], after) in states {
      ReachedIsForm(p, State(form, [], after));
      forall f, n | Form(p.unordered, p.values, p.names, f, n) ensures !CompareVec(form, f).Greater? {
        FormIsCovered(p, states, f, n);
        VecTotal(form, f);
      }
    }
  }

  /** One position of the result: every survivor is expanded and larger prefixes are dropped. */
  method Round(ghost p: Problem, ghost k: nat, unordered: bool, states: seq<State>) returns (next: seq<State>)
    requires p.unordered == unordered && k < |p.values| && Frontier(p, k, states)
    ensures Frontier(p, k + 1, next)
    decreases p.values, 2
  {
    next := [];
    var best: Option<seq<Tree>> := None;
    ghost var seen: seq<State> := [];
    for a := 0 to |states|
      invariant Pruned(seen, best, next)
      invariant AllReached(p, k + 1, seen)
      invariant a > 0 ==> seen != []
      invariant forall b :: 0 <= b < a ==> Progress(p, k, states[b], seen)
    {
      assert states[a] in states;
      RestLeft(p, k, states[a]);
      ghost var earlier := seen;
      best, next, seen := Extend(p, unordered, states[a], best, next, seen);
      ProgressKept(p, k, states[..a], earlier, seen);
    }
    NextFrontier(p, k, states, seen, best, next);
  }

  lemma InitialFrontier(p: Problem)
    ensures Frontier(p, 0, [State([], p.values, p.names)])
  {
    var start := State([], p.values, p.names);
    assert [] + p.values == p.values;
    assert ReachedBy(p, [], start);
    forall order | Same(p.unordered, order, p.values) ensures CoveredBy(p, order, 0, [start]) {
      assert order[..0] == [] && order[0..] == order;
      assert start in [start] && Covers(p, order, 0, start);
    }
  }

  /** The source's `sequence`: all least forms of a list of values. */
  method SearchSequence(values: seq<Tree>, unordered: bool, names: Names) returns (results: seq<(seq<Tree>, Names)>)
    ensures results != []
    ensures forall f, n :: Least(unordered, values, names, f, n) <==> (f, n) in results
    decreases values, 3
  {
    ghost var p := Problem(unordered, values, names);
    var states := [State([], values, names)];
    InitialFrontier(p);
    for round := 0 to |values|
      invariant Frontier(p, round, states)
    {
      states := Round(p, round, unordered, states);
    }
    results := seq(|states|, i requires 0 <= i < |states| => (states[i].prefix, states[i].names));
    AllSurvivors(p, states, results);
  }

  /** All survivors share one form; they differ in their name maps only. */
  lemma LeastIsUnique(unordered: bool, values: seq<Tree>, names: Names, f: seq<Tree>, n: Names, g: seq<Tree>, m: Names)
    requires Least(unordered, values, names, f, n) && Least(unordered, values, names, g, m)
    ensures f == g
  {
    VecTotal(f, g);
  }

  lemma AllSurvivors(p: Problem, states: seq<State>, results: seq<(seq<Tree>, Names)>)
    requires Frontier(p, |p.values|, states) && |results| == |states|
    requires forall i :: 0 <= i < |states| ==> results[i] == (states[i].prefix, states[i].names)
    ensures forall f, n :: Least(p.unordered, p.values, p.names, f, n) <==> (f, n) in results
  {
    forall f, n ensures Least(p.unordered, p.values, p.names, f, n) <==> (f, n) in results {
      FrontierIsLeast(p, states, f, n);
      Survivors(p, states, results, f, n);
    }
  }

  lemma Survivors(p: Problem, states: seq<State>, results: seq<(seq<Tree>, Names)>, f: seq<Tree>, n: Names)
    requires Frontier(p, |p.values|, states) && |results| == |states|
    requires forall i :: 0 <= i < |states| ==> results[i] == (states[i].prefix, states[i].names)
    ensures (f, n) in results <==> State(f, [], n) in states
  {
    if State(f, [], n) in states {
      var i :| 0 <= i < |states| && states[i] == State(f, [], n);
      assert results[i] == (f, n);
    }
    if (f, n) in results {
      var i :| 0 <= i < |results| && results[i] == (f, n);
      assert states[i] in states;
      ReachedIsForm(p, states[i]);
      assert states[i] == State(f, [], n);
    }
  }

  lemma ProgressKept(p: Problem, k: nat, states: seq<State>, small: seq<State>, big: seq<State>)
    requires forall s :: s in small ==> s in big
    requires forall b :: 0 <= b < |states| ==> Progress(p, k, states[b], small)
    ensures forall b :: 0 <= b < |states| ==> Progress(p, k, states[b], big)
  {
    forall b, order | 0 <= b < |states| && |order| > k && Covers(p, order, k, states[b])
      ensures CoveredBy(p, order, k + 1, big)
    {
      var s :| s in small && Covers(p, order, k + 1, s);
    }
  }

  lemma NextFrontier(p: Problem, k: nat, states: seq<State>, seen: seq<State>, best: Option<seq<Tree>>, next: seq<State>)
    requires k < |p.values| && Frontier(p, k, states) && Pruned(seen, best, next) && seen != []
    requires AllReached(p, k + 1, seen)
    requires forall b :: 0 <= b < |states| ==> Progress(p, k, states[b], seen)
    ensures Frontier(p, k + 1, next)
  {
    forall order | Same(p.unordered, order, p.values) && k + 1 <= |order| ensures CoveredBy(p, order, k + 1, next) {
      assert CoveredBy(p, order, k, states);
      var s :| s in states && Covers(p, order, k, s);
      var b :| 0 <= b < |states| && states[b] == s;
      assert CoveredBy(p, order, k + 1, seen);
      var t :| t in seen && Covers(p, order, k + 1, t);
      var (form, _) := NumberAll(order[..k + 1], p.names);
      VecTotal(best.value, t.prefix);
      if t.prefix == best.value {
        assert t in next;
      } else {
        assert next[0] in next && CompareVec(best.value, t.prefix).Less?;
        if CompareVec(t.prefix, form).Less? {
          VecTransitive(best.value, t.prefix, form);
        }
        assert Covers(p, order, k + 1, next[0]);
      }
    }
  }

  // ---------------------------------------------------------------- the entry point

  predicate HasIntersection(t: Tree) {
    t.Node? && (t.Unordered() || AnyIntersection(t.children))
  }

  predicate AnyIntersection(ts: seq<Tree>) {
    ts != [] && (HasIntersection(ts[0]) || AnyIntersection(ts[1..]))
  }

  /** Without intersections there is nothing to reorder. */
  lemma {:induction false} FixedOrder(a: seq<Tree>, b: seq<Tree>)
    requires ShapesOf(a) == ShapesOf(b) && !AnyIntersection(b)
    ensures a == b
    decreases b
  {
    SameLength(false, a, b);
    if b != [] {
      SplitShapes(a, b);
      FixedTree(a[0], b[0]);
      FixedOrder(a[1..], b[1..]);
      assert a == [a[0]] + a[1..] && b == [b[0]] + b[1..];
    }
  }

  lemma {:induction false} FixedTree(a: Tree, b: Tree)
    requires ShapeOf(a) == ShapeOf(b) && !HasIntersection(b)
    ensures a == b
    decreases b
  {
    if b.Node? {
      FixedOrder(a.children, b.children);
    }
  }

  /** The source's `ordered`: a left-to-right walk that threads the name map. */
  method Renumber(value: Tree, names: Names) returns (renamed: Tree, after: Names)
    ensures (renamed, after) == Number(value, names)
    decreases value, 0
  {
    match value
    case Gen(i) =>
      after := if i in names then names else names[i := |names|];
      renamed := Gen(after[i]);
    case Node(h, c) =>
      var d;
      d, after := RenumberAll(c, names);
      renamed := Node(h, d);
  }

  method RenumberAll(values: seq<Tree>, names: Names) returns (renamed: seq<Tree>, after: Names)
    ensures (renamed, after) == NumberAll(values, names)
    decreases values, 1
  {
    renamed, after := [], names;
    for i := 0 to |values|
      invariant (renamed, after) == NumberAll(values[..i], names)
    {
      NumberAppend(values[..i], values[i], names);
      assert values[..i + 1] == values[..i] + [values[i]];
      var value;
      value, after := Renumber(values[i], after);
      renamed := renamed + [value];
    }
    assert values[..|values|] == values;
  }

  /** The linear walk when no intersection occurs, else the search; both give the least form. */
  method Canonical(parameters: seq<Tree>) returns (form: seq<Tree>)
    ensures IsCanonical(parameters, form)
  {
    if !AnyIntersection(parameters) {
      var after;
      form, after := RenumberAll(parameters, map[]);
      assert FormBy(false, parameters, map[], parameters, form, after);
      forall f, n | Form(false, parameters, map[], f, n) ensures !CompareVec(form, f).Greater? {
        var order :| FormBy(false, parameters, map[], order, f, n);
        FixedOrder(order, parameters);
        VecTotal(form, f);
      }
      assert Least(false, parameters, map[], form, after);
    } else {
      var results := SearchSequence(parameters, false, map[]);
      var (least, after) := results[0];
      form := least;
      assert (least, after) in results;
      assert Least(false, parameters, map[], form, after);
    }
  }

  // ---------------------------------------------------------------- canonical forms are a complete invariant

  lemma CanonicalLength(p: seq<Tree>, form: seq<Tree>)
    requires IsCanonical(p, form)
    ensures |form| == |p|
  {
    var after :| Least(false, p, map[], form, after);
    var order :| FormBy(false, p, map[], order, form, after);
    SameLength(false, order, p);
  }

  /** Equivalent sequences have the same forms. */
  lemma FormTransfer(p: seq<Tree>, q: seq<Tree>, form: seq<Tree>, after: Names) returns (after': Names)
    requires Equivalent(p, q) && Form(false, p, map[], form, after)
    ensures Form(false, q, map[], form, after')
  {
    var r :| Renames(p, q, r);
    var order :| FormBy(false, p, map[], order, form, after);
    var renamed := SubstAll(order, AsSubst(r));
    assert Agree(AsSubst(r), AsSubst(r));
    SubstSameAll(false, order, p, AsSubst(r), AsSubst(r));
    GenericsSameAll(false, order, p);
    NumberIgnoresRenamingAll(order, r, map[], map[]);
    after' := NumberAll(renamed, map[]).1;
    assert FormBy(false, q, map[], renamed, form, after');
  }

  /** A canonical form is equivalent to what it was computed from. */
  lemma CanonicalIsEquivalent(p: seq<Tree>, form: seq<Tree>)
    requires IsCanonical(p, form)
    ensures Equivalent(p, form)
  {
    var after :| Least(false, p, map[], form, after);
    var order :| FormBy(false, p, map[], order, form, after);
    NumberNamesAll(order, map[]);
    NumberDenseAll(order, map[]);
    NumberRenamesAll(order, map[], after);
    GenericsSameAll(false, order, p);
    assert Agree(AsSubst(after), AsSubst(after));
    SubstSameAll(false, order, p, AsSubst(after), AsSubst(after));
    assert Renames(p, form, after);
  }

  /** Two sequences have one canonical form exactly when one injective renaming of generics,
      spanning the whole sequence, and reorderings of intersection members at any depth turn
      one into the other. */
  lemma CanonicalIsCompleteInvariant(p: seq<Tree>, q: seq<Tree>, c: seq<Tree>, d: seq<Tree>)
    requires IsCanonical(p, c) && IsCanonical(q, d)
    ensures c == d <==> Equivalent(p, q)
  {
    CanonicalIsEquivalent(p, c);
    CanonicalIsEquivalent(q, d);
    if c == d {
      EquivalentSymmetric(q, d);
      EquivalentTransitive(p, c, q);
    }
    if Equivalent(p, q) {
      EquivalentSymmetric(p, q);
      var n :| Least(false, p, map[], c, n);
      var m :| Least(false, q, map[], d, m);
      var n' := FormTransfer(p, q, c, n);
      var m' := FormTransfer(q, p, d, m);
      VecTotal(c, d);
    }
  }

  /** Reordering intersection members, at any depth, never changes the canonical form. */
  lemma CanonicalIgnoresOrder(p: seq<Tree>, q: seq<Tree>, c: seq<Tree>, d: seq<Tree>)
    requires ShapesOf(p) == ShapesOf(q) && IsCanonical(p, c) && IsCanonical(q, d)
    ensures c == d
  {
    EquivalentReflexive(p, q);
    CanonicalIsCompleteInvariant(p, q, c, d);
  }

  /** Canonicalizing a canonical form changes nothing. */
  lemma CanonicalIsFixed(p: seq<Tree>, c: seq<Tree>)
    requires IsCanonical(p, c)
    ensures IsCanonical(c, c)
  {
    CanonicalIsEquivalent(p, c);
    EquivalentSymmetric(p, c);
    var n :| Least(false, p, map[], c, n);
    var n' := FormTransfer(p, c, c, n);
    forall f, m | Form(false, c, map[], f, m) ensures !CompareVec(c, f).Greater? {
      var m' := FormTransfer(c, p, f, m);
    }
    assert Least(false, c, map[], c, n');
  }
}
