/**
 The pruned range search of `kdtree.py`: an explicit stack of pending subtrees, one
 current subtree, and the promise that the index answers as a scan of the table would.
 */
module KdQuery {
  import opened Wrappers
  import opened Powers
  import opened KdRanges
  import opened Sorting
  import opened KdTree

  // ----- What a scan of the table answers

  /** The row meets every constraint whose column is indexed; the others are not looked at. */
  predicate Keeps(row: Row, cols: seq<nat>, cs: seq<Constraint>, args: seq<real>)
    requires |cs| <= |args|
  {
    forall i :: 0 <= i < |cs| && cs[i].column in cols ==> Meets(cs[i].consType, args[i], Cell(row, cs[i].column))
  }

  function LinearScan(rows: seq<Row>, cols: seq<nat>, cs: seq<Constraint>, args: seq<real>): seq<Row>
    requires |cs| <= |args|
  {
    if rows == [] then []
    else (if Keeps(rows[0], cols, cs, args) then [rows[0]] else []) + LinearScan(rows[1..], cols, cs, args)
  }

  lemma {:induction false} LinearScanCounts(rows: seq<Row>, cols: seq<nat>, cs: seq<Constraint>,
      args: seq<real>, row: Row)
    requires |cs| <= |args|
    ensures multiset(LinearScan(rows, cols, cs, args))[row] ==
              if Keeps(row, cols, cs, args) then multiset(rows)[row] else 0
  {
    if rows != [] {
      LinearScanCounts(rows[1..], cols, cs, args, row);
      assert rows == [rows[0]] + rows[1..];
    }
  }

  /** The answer does not depend on the order in which the rows are scanned. */
  lemma LinearScanOrder(rows: seq<Row>, rows': seq<Row>, cols: seq<nat>, cs: seq<Constraint>, args: seq<real>)
    requires |cs| <= |args| && multiset(rows) == multiset(rows')
    ensures multiset(LinearScan(rows, cols, cs, args)) == multiset(LinearScan(rows', cols, cs, args))
  {
    forall row
      ensures multiset(LinearScan(rows, cols, cs, args))[row] == multiset(LinearScan(rows', cols, cs, args))[row]
    {
      LinearScanCounts(rows, cols, cs, args, row);
      LinearScanCounts(rows', cols, cs, args, row);
    }
  }

  // ----- What the search answers, tree by tree

  /** The test at a leaf: every indexed cell inside its range. */
  predicate Passes(row: Row, cols: seq<nat>, ranges: seq<Range>)
    requires |ranges| == |cols|
  {
    forall i :: 0 <= i < |cols| ==> InRange(ranges[i], Cell(row, cols[i]))
  }

  predicate GoesLeft(row: Row, cols: seq<nat>, ranges: seq<Range>, axis: nat)
    requires axis < |ranges| == |cols|
  {
    AtMost(ranges[axis].lo, At(Cell(row, cols[axis]), Left))
  }

  predicate GoesRight(row: Row, cols: seq<nat>, ranges: seq<Range>, axis: nat)
    requires axis < |ranges| == |cols|
  {
    Less(At(Cell(row, cols[axis]), Left), ranges[axis].hi)
  }

  /** What a stretch of the search does: the rows it answers and the slots it reads, in order. */
  datatype Run = Run(answer: seq<Row>, visits: seq<nat>)

  const Nothing := Run([], [])

  function Then(a: Run, b: Run): Run {
    Run(a.answer + b.answer, a.visits + b.visits)
  }

  lemma ThenIsMonoid(a: Run, b: Run, c: Run)
    ensures Then(Then(a, b), c) == Then(a, Then(b, c))
    ensures Then(a, Nothing) == a == Then(Nothing, a)
  {
  }

  /** The search of one subtree, with no stack: pruned recursion. */
  function RunOf(tree: Kd, cols: seq<nat>, ranges: seq<Range>, axis: nat, index: nat): Run
    requires axis < |ranges| == |cols|
  {
    match tree
    case Leaf(row) => Run(if Passes(row, cols, ranges) then [row] else [], [index])
    case Node(row, left, right) =>
      Then(Run([], [index]),
           Then(if GoesLeft(row, cols, ranges, axis) then
                  RunOf(left, cols, ranges, NextAxis(cols, axis), 2 * index + 1)
                else Nothing,
                if GoesRight(row, cols, ranges, axis) then
                  RunOf(right, cols, ranges, NextAxis(cols, axis), 2 * index + 2)
                else Nothing))
  }

  lemma RunOfNode(tree: Kd, cols: seq<nat>, ranges: seq<Range>, axis: nat, index: nat)
    requires axis < |ranges| == |cols| && tree.Node?
    ensures var axis' := NextAxis(cols, axis);
            RunOf(tree, cols, ranges, axis, index) ==
            Then(Run([], [index]),
                 Then(if GoesLeft(tree.row, cols, ranges, axis) then
                        RunOf(tree.left, cols, ranges, axis', 2 * index + 1)
                      else Nothing,
                      if GoesRight(tree.row, cols, ranges, axis) then
                        RunOf(tree.right, cols, ranges, axis', 2 * index + 2)
                      else Nothing))
  {
  }

  lemma NoRepeatsConcat(a: seq<nat>, b: seq<nat>)
    requires NoRepeats(a) && NoRepeats(b) && forall x :: x in a ==> x !in b
    ensures NoRepeats(a + b)
  {
    forall i, j | 0 <= i < j < |a + b|
      ensures (a + b)[i] != (a + b)[j]
    {
      if i < |a| <= j {
        assert a[i] in a && b[j - |a|] in b;
      }
    }
  }

  /** The search reads no slot twice, and only slots of the tree. */
  lemma {:induction false} VisitsAreDistinct(tree: Kd, cols: seq<nat>, ranges: seq<Range>, axis: nat, index: nat)
    requires axis < |ranges| == |cols|
    ensures NoRepeats(RunOf(tree, cols, ranges, axis, index).visits)
    ensures forall i :: i in RunOf(tree, cols, ranges, axis, index).visits ==> i in Slots(tree, index)
  {
    if tree.Node? {
      hide *;
      var axis' := NextAxis(cols, axis);
      AxisInRange(cols, axis);
      VisitsAreDistinct(tree.left, cols, ranges, axis', 2 * index + 1);
      VisitsAreDistinct(tree.right, cols, ranges, axis', 2 * index + 2);
      SlotsApart(tree.left, tree.right, index);
      SlotsOfNode(tree, index);
      RunOfNode(tree, cols, ranges, axis, index);
      NoVisits(index);
      var l :=
        if GoesLeft(tree.row, cols, ranges, axis) then RunOf(tree.left, cols, ranges, axis', 2 * index + 1)
        else Nothing;
      var r :=
        if GoesRight(tree.row, cols, ranges, axis) then RunOf(tree.right, cols, ranges, axis', 2 * index + 2)
        else Nothing;
      ThenParts(Run([], [index]), Then(l, r));
      ThenParts(l, r);
      NoRepeatsConcat(l.visits, r.visits);
      NoRepeatsConcat([index], l.visits + r.visits);
    }
  }

  lemma NoVisits(index: nat)
    ensures NoRepeats(Nothing.visits) && NoRepeats([index]) && Nothing.visits == []
  {
  }

  lemma SlotsOfNode(tree: Kd, index: nat)
    requires tree.Node?
    ensures Slots(tree, index) == {index} + Slots(tree.left, 2 * index + 1) + Slots(tree.right, 2 * index + 2)
  {
  }

  /** Below a child that is not entered, no row passes. */
  lemma PrunedRowsFail(tree: Kd, cols: seq<nat>, ranges: seq<Range>, axis: nat, row: Row)
    requires axis < |ranges| == |cols| && tree.Node? && Ordered(tree, cols, axis) && Passes(row, cols, ranges)
    ensures row in Rows(tree.left) ==> GoesLeft(tree.row, cols, ranges, axis)
    ensures row in Rows(tree.right) ==> GoesRight(tree.row, cols, ranges, axis)
  {
    assert InRange(ranges[axis], Cell(row, cols[axis]));
  }

  lemma CountConcat<T>(a: seq<T>, b: seq<T>, x: T)
    ensures multiset(a + b)[x] == multiset(a)[x] + multiset(b)[x]
    ensures multiset(a)[x] > 0 <==> x in a
  {
  }

  /** Pruning loses no row and repeats none: a row is answered as often as the tree holds it, if it passes. */
  lemma {:induction false} AnswerCounts(tree: Kd, cols: seq<nat>, ranges: seq<Range>, axis: nat, index: nat, row: Row)
    requires axis < |ranges| == |cols| && Ordered(tree, cols, axis)
    ensures multiset(RunOf(tree, cols, ranges, axis, index).answer)[row]
         == if Passes(row, cols, ranges) then multiset(Rows(tree))[row] else 0
  {
    if tree.Node? {
      NodeParts(tree, cols, axis);
      AnswerCounts(tree.left, cols, ranges, NextAxis(cols, axis), 2 * index + 1, row);
      AnswerCounts(tree.right, cols, ranges, NextAxis(cols, axis), 2 * index + 2, row);
      hide *;
      AnswerCountsNode(tree, cols, ranges, axis, index, row);
    }
  }

  lemma AnswerCountsNode(tree: Kd, cols: seq<nat>, ranges: seq<Range>, axis: nat, index: nat, row: Row)
    requires axis < |ranges| == |cols| && Ordered(tree, cols, axis) && tree.Node?
    requires multiset(RunOf(tree.left, cols, ranges, NextAxis(cols, axis), 2 * index + 1).answer)[row]
          == if Passes(row, cols, ranges) then multiset(Rows(tree.left))[row] else 0
    requires multiset(RunOf(tree.right, cols, ranges, NextAxis(cols, axis), 2 * index + 2).answer)[row]
          == if Passes(row, cols, ranges) then multiset(Rows(tree.right))[row] else 0
    ensures multiset(RunOf(tree, cols, ranges, axis, index).answer)[row]
         == if Passes(row, cols, ranges) then multiset(Rows(tree))[row] else 0
  {
    hide *;
    NodeParts(tree, cols, axis);
    if Passes(row, cols, ranges) {
      PrunedRowsFail(tree, cols, ranges, axis, row);
    }
    var axis' := NextAxis(cols, axis);
    var runL :=
      if GoesLeft(tree.row, cols, ranges, axis) then RunOf(tree.left, cols, ranges, axis', 2 * index + 1)
      else Nothing;
    var runR :=
      if GoesRight(tree.row, cols, ranges, axis) then RunOf(tree.right, cols, ranges, axis', 2 * index + 2)
      else Nothing;
    RunOfNode(tree, cols, ranges, axis, index);
    ThenParts(Run([], [index]), Then(runL, runR));
    ThenParts(runL, runR);
    assert [] + (runL.answer + runR.answer) == runL.answer + runR.answer;
    CountConcat(runL.answer, runR.answer, row);
    CountConcat(Rows(tree.left), Rows(tree.right), row);
    CountConcat(Rows(tree.right), Rows(tree.left), row);
  }

  lemma NodeParts(tree: Kd, cols: seq<nat>, axis: nat)
    requires axis < |cols| && tree.Node? && Ordered(tree, cols, axis)
    ensures NextAxis(cols, axis) < |cols|
    ensures Ordered(tree.left, cols, NextAxis(cols, axis)) && Ordered(tree.right, cols, NextAxis(cols, axis))
    ensures Rows(tree) == Rows(tree.left) + Rows(tree.right)
  {
  }

  lemma ThenParts(a: Run, b: Run)
    ensures Then(a, b).answer == a.answer + b.answer
    ensures Then(a, b).visits == a.visits + b.visits
    ensures Nothing.answer == []
  {
  }

  /** The pruned search answers what a scan of the table answers. */
  lemma AnswerIsScan(tree: Kd, cols: seq<nat>, ranges: seq<Range>, cs: seq<Constraint>, args: seq<real>)
    requires 0 < |cols| == |ranges| && |cs| <= |args| && Ordered(tree, cols, 0)
    requires forall row :: row in Rows(tree) ==> (Passes(row, cols, ranges) <==> Keeps(row, cols, cs, args))
    ensures multiset(RunOf(tree, cols, ranges, 0, 0).answer) == multiset(LinearScan(Rows(tree), cols, cs, args))
  {
    forall row
      ensures multiset(RunOf(tree, cols, ranges, 0, 0).answer)[row] ==
                multiset(LinearScan(Rows(tree), cols, cs, args))[row]
    {
      AnswerCounts(tree, cols, ranges, 0, 0, row);
      LinearScanCounts(Rows(tree), cols, cs, args, row);
      assert multiset(Rows(tree))[row] > 0 <==> row in Rows(tree);
    }
  }

  // ----- The leaf test

  /** How `query` tells a leaf: its left child would be outside the array, or is an empty slot past `n`. */
  predicate LooksLikeLeaf(t: seq<Option<Row>>, n: nat, leftIndex: nat) {
    leftIndex > |t| || (leftIndex >= n && leftIndex < |t| && t[leftIndex] == None)
  }

  /** `tree` sits at `index`, `depth` levels down in an index over `n` rows of height `height`. */
  ghost predicate Placed(t: seq<Option<Row>>, n: nat, height: nat, tree: Kd, index: nat, depth: nat) {
    && Holds(t, tree, index) && Balanced(tree)
    && |t| == Pow2(height + 1)
    && depth <= height && |Rows(tree)| <= Pow2(height - depth)
    && index + 1 >= Pow2(depth)
    && (|Rows(tree)| + 1) * Pow2(depth) > n
  }

  lemma ChildrenPlaced(t: seq<Option<Row>>, n: nat, height: nat, tree: Kd, index: nat, depth: nat)
    requires tree.Node? && Placed(t, n, height, tree, index, depth)
    ensures Placed(t, n, height, tree.left, 2 * index + 1, depth + 1)
    ensures Placed(t, n, height, tree.right, 2 * index + 2, depth + 1)
  {
    HalfStaysLarge(|Rows(tree)|, |Rows(tree.left)|, Pow2(depth), n);
    HalfStaysLarge(|Rows(tree)|, |Rows(tree.right)|, Pow2(depth), n);
  }

  /** The test is true exactly on leaves, since leaves lie only at the two lowest levels. */
  lemma LeafTestIsExact(t: seq<Option<Row>>, n: nat, height: nat, tree: Kd, index: nat, depth: nat)
    requires Placed(t, n, height, tree, index, depth)
    ensures LooksLikeLeaf(t, n, 2 * index + 1) <==> tree.Leaf?
  {
    assert |t| == 2 * Pow2(height);
    if tree.Node? {
      assert Holds(t, tree.left, 2 * index + 1);
    } else {
      assert 2 * Pow2(depth) > n;
    }
  }

  // ----- The search loop

  /** A pending subtree, with what the stack does not record: its rows and its depth. */
  datatype Pending = Pending(index: nat, axis: nat, tree: Kd, depth: nat)

  /** The runs of the subtrees on a stack, from the top down. */
  ghost function Todo(stack: seq<Pending>, cols: seq<nat>, ranges: seq<Range>): Run
    requires |ranges| == |cols| && forall p :: p in stack ==> p.axis < |cols|
  {
    if stack == [] then Nothing
    else
      var p := stack[|stack| - 1];
      Then(RunOf(p.tree, cols, ranges, p.axis, p.index), Todo(stack[..|stack| - 1], cols, ranges))
  }

  lemma PushedOnTop(stack: seq<Pending>, p: Pending, cols: seq<nat>, ranges: seq<Range>)
    requires |ranges| == |cols| && p.axis < |cols| && forall q :: q in stack ==> q.axis < |cols|
    ensures Todo(stack + [p], cols, ranges) ==
              Then(RunOf(p.tree, cols, ranges, p.axis, p.index), Todo(stack, cols, ranges))
  {
    assert (stack + [p])[..|stack|] == stack;
  }

  ghost predicate InPlace(p: Pending, t: seq<Option<Row>>, n: nat, height: nat, cols: seq<nat>) {
    && p.axis < |cols|
    && Placed(t, n, height, p.tree, p.index, p.depth)
    && Wide(Rows(p.tree), cols) && Ordered(p.tree, cols, p.axis)
  }

  /** Everything pending is in place, and nothing lies deeper in the stack than in the tree. */
  ghost predicate WorkOk(work: seq<Pending>, t: seq<Option<Row>>, n: nat, height: nat, cols: seq<nat>) {
    forall i :: 0 <= i < |work| ==> InPlace(work[i], t, n, height, cols) && work[i].depth >= i
  }

  function LeftChild(p: Pending, cols: seq<nat>): Pending
    requires p.tree.Node?
  {
    Pending(2 * p.index + 1, NextAxis(cols, p.axis), p.tree.left, p.depth + 1)
  }

  function RightChild(p: Pending, cols: seq<nat>): Pending
    requires p.tree.Node?
  {
    Pending(2 * p.index + 2, NextAxis(cols, p.axis), p.tree.right, p.depth + 1)
  }

  /** The children a visit to `p` calls for, the one to visit last first. */
  function Children(p: Pending, cols: seq<nat>, ranges: seq<Range>): seq<Pending>
    requires p.axis < |ranges| == |cols| && p.tree.Node?
  {
    (if GoesRight(p.tree.row, cols, ranges, p.axis) then [RightChild(p, cols)] else []) +
    (if GoesLeft(p.tree.row, cols, ranges, p.axis) then [LeftChild(p, cols)] else [])
  }

  /** Visiting an internal node reads its slot and leaves its children to do. */
  lemma VisitNode(stack: seq<Pending>, p: Pending, cols: seq<nat>, ranges: seq<Range>)
    requires p.axis < |ranges| == |cols| && p.tree.Node? && forall q :: q in stack ==> q.axis < |cols|
    ensures forall q :: q in Children(p, cols, ranges) ==> q.axis < |cols|
    ensures Todo(stack + [p], cols, ranges) ==
              Then(Run([], [p.index]), Todo(stack + Children(p, cols, ranges), cols, ranges))
  {
    hide *;
    var l, r := LeftChild(p, cols), RightChild(p, cols);
    ChildCases(stack, p, cols, ranges);
    ChildRuns(p, cols, ranges);
    PushedOnTop(stack, p, cols, ranges);
    PushedOnTop(stack, r, cols, ranges);
    PushedOnTop(stack, l, cols, ranges);
    PushedOnTop(stack + [r], l, cols, ranges);
    var goL, goR := GoesLeft(p.tree.row, cols, ranges, p.axis), GoesRight(p.tree.row, cols, ranges, p.axis);
    var runL := if goL then RunOf(l.tree, cols, ranges, l.axis, l.index) else Nothing;
    var runR := if goR then RunOf(r.tree, cols, ranges, r.axis, r.index) else Nothing;
    var rest := Todo(stack, cols, ranges);
    assert RunOf(p.tree, cols, ranges, p.axis, p.index) == Then(Run([], [p.index]), Then(runL, runR));
    ThenIsMonoid(Run([], [p.index]), Then(runL, runR), rest);
    ThenIsMonoid(runL, runR, rest);
    ThenIsMonoid(rest, rest, rest);
    ThenIsMonoid(Then(runR, rest), rest, rest);
  }

  lemma ChildRuns(p: Pending, cols: seq<nat>, ranges: seq<Range>)
    requires p.axis < |ranges| == |cols| && p.tree.Node?
    ensures var goL, goR := GoesLeft(p.tree.row, cols, ranges, p.axis), GoesRight(p.tree.row, cols, ranges, p.axis);
            var l, r := LeftChild(p, cols), RightChild(p, cols);
            && l.axis < |cols| && r.axis < |cols|
            && RunOf(p.tree, cols, ranges, p.axis, p.index) ==
               Then(Run([], [p.index]),
                    Then(if goL then RunOf(l.tree, cols, ranges, l.axis, l.index) else Nothing,
                         if goR then RunOf(r.tree, cols, ranges, r.axis, r.index) else Nothing))
  {
    hide RunOf;
    RunOfNode(p.tree, cols, ranges, p.axis, p.index);
  }

  lemma ChildCases(stack: seq<Pending>, p: Pending, cols: seq<nat>, ranges: seq<Range>)
    requires p.axis < |ranges| == |cols| && p.tree.Node? && forall q :: q in stack ==> q.axis < |cols|
    ensures var goL, goR := GoesLeft(p.tree.row, cols, ranges, p.axis), GoesRight(p.tree.row, cols, ranges, p.axis);
            var l, r := LeftChild(p, cols), RightChild(p, cols);
            && l.axis < |cols| && r.axis < |cols|
            && (forall q :: q in Children(p, cols, ranges) ==> q.axis < |cols|)
            && stack + Children(p, cols, ranges)
               == (if goR then if goL then stack + [r] + [l] else stack + [r] else if goL then stack + [l] else stack)
    ensures forall q :: q in stack + [RightChild(p, cols)] ==> q.axis < |cols|
  {
  }

  /** Visiting a leaf answers its row, if it passes. */
  lemma VisitLeaf(stack: seq<Pending>, p: Pending, cols: seq<nat>, ranges: seq<Range>)
    requires p.axis < |ranges| == |cols| && p.tree.Leaf? && forall q :: q in stack ==> q.axis < |cols|
    ensures Todo(stack + [p], cols, ranges)
         == Then(Run(if Passes(p.tree.row, cols, ranges) then [p.tree.row] else [], [p.index]),
           Todo(stack, cols, ranges))
  {
    PushedOnTop(stack, p, cols, ranges);
  }

  /** What the search may rely on at the node on top of its work. */
  lemma NodeFacts(work: seq<Pending>, t: seq<Option<Row>>, n: nat, height: nat, cols: seq<nat>)
    requires |work| >= 1 && WorkOk(work, t, n, height, cols)
    ensures var rest, p := work[..|work| - 1], work[|work| - 1];
            && work == rest + [p] && WorkOk(rest, t, n, height, cols)
            && (forall q :: q in rest ==> q.axis < |cols|)
            && p.axis < |cols| && p.index < |t| && t[p.index] == Some(p.tree.row)
            && (forall col :: col in cols ==> col < |p.tree.row|)
            && cols[p.axis] in cols
            && (if LooksLikeLeaf(t, n, 2 * p.index + 1) then p.tree.Leaf? else p.tree.Node?)
            && (p.tree.Node? ==> |work| <= height)
  {
    var p := work[|work| - 1];
    LeafTestIsExact(t, n, height, p.tree, p.index, p.depth);
    assert p.tree.row in Rows(p.tree);
    if p.tree.Node? {
      ChildrenPlaced(t, n, height, p.tree, p.index, p.depth);
    }
  }

  lemma ChildrenOk(rest: seq<Pending>, p: Pending, t: seq<Option<Row>>, n: nat, height: nat, cols: seq<nat>,
      ranges: seq<Range>)
    requires WorkOk(rest + [p], t, n, height, cols) && p.tree.Node? && |ranges| == |cols| && p.axis < |cols|
    ensures WorkOk(rest + Children(p, cols, ranges), t, n, height, cols)
    ensures forall q :: q in rest + Children(p, cols, ranges) ==> q.axis < |cols|
  {
    hide *;
    WorkParts(rest, p, t, n, height, cols);
    ChildrenInPlace(p, t, n, height, cols, ranges);
    WorkGrows(rest, p.depth, Children(p, cols, ranges), t, n, height, cols);
  }

  lemma WorkParts(rest: seq<Pending>, p: Pending, t: seq<Option<Row>>, n: nat, height: nat, cols: seq<nat>)
    requires WorkOk(rest + [p], t, n, height, cols)
    ensures WorkOk(rest, t, n, height, cols) && InPlace(p, t, n, height, cols) && p.depth >= |rest|
  {
    hide InPlace;
    assert (rest + [p])[|rest|] == p;
    assert forall i :: 0 <= i < |rest| ==> (rest + [p])[i] == rest[i];
  }

  lemma ChildrenInPlace(p: Pending, t: seq<Option<Row>>, n: nat, height: nat, cols: seq<nat>, ranges: seq<Range>)
    requires InPlace(p, t, n, height, cols) && p.tree.Node? && |ranges| == |cols| && p.axis < |cols|
    ensures var cs := Children(p, cols, ranges);
            |cs| <= 2 && forall q :: q in cs ==> InPlace(q, t, n, height, cols) && q.depth == p.depth + 1
  {
    hide Placed, GoesLeft, GoesRight;
    InPlaceParts(p, t, n, height, cols);
    ChildrenPlaced(t, n, height, p.tree, p.index, p.depth);
  }

  lemma InPlaceParts(p: Pending, t: seq<Option<Row>>, n: nat, height: nat, cols: seq<nat>)
    requires InPlace(p, t, n, height, cols)
    ensures Placed(t, n, height, p.tree, p.index, p.depth)
  {
  }

  lemma WorkGrows(rest: seq<Pending>, depth: nat, cs: seq<Pending>, t: seq<Option<Row>>, n: nat, height: nat,
      cols: seq<nat>)
    requires WorkOk(rest, t, n, height, cols) && |cs| <= 2 && depth >= |rest|
    requires forall q :: q in cs ==> InPlace(q, t, n, height, cols) && q.depth == depth + 1
    ensures WorkOk(rest + cs, t, n, height, cols) && forall q :: q in rest + cs ==> q.axis < |cols|
  {
    hide Placed, Wide, Ordered;
  }

  /** The variables of the loop say what work there is. */
  ghost predicate Mirrors(work: seq<Pending>, direct: bool, index: nat, axis: nat, toVisit: seq<(nat, nat)>) {
    && |work| == |toVisit| + (if direct then 1 else 0)
    && (forall i :: 0 <= i < |toVisit| ==> toVisit[i] == (work[i].index, work[i].axis))
    && (direct ==> index == work[|work| - 1].index && axis == work[|work| - 1].axis)
  }

  lemma MirrorsTop(work: seq<Pending>, direct: bool, index: nat, axis: nat, toVisit: seq<(nat, nat)>)
    requires Mirrors(work, direct, index, axis, toVisit) && (direct || |toVisit| != 0)
    ensures |work| >= 1 && |work| == |toVisit| + (if direct then 1 else 0)
    ensures var rest, p := work[..|work| - 1], work[|work| - 1];
            if direct then index == p.index && axis == p.axis && Mirrors(rest, false, p.index, p.axis, toVisit)
            else
              && toVisit[|toVisit| - 1] == (p.index, p.axis)
              && Mirrors(rest, false, p.index, p.axis, toVisit[..|toVisit| - 1])
  {
  }

  /** The two comparisons `query` makes at an internal node set its variables to its children to visit. */
  lemma MirrorsChildren(rest: seq<Pending>, p: Pending, cols: seq<nat>, ranges: seq<Range>, toVisit: seq<(nat, nat)>,
                        direct': bool, index': nat, axis': nat, toVisit': seq<(nat, nat)>)
    requires p.axis < |ranges| == |cols| && cols[p.axis] < |p.tree.row| && p.tree.Node?
    requires Mirrors(rest, false, p.index, p.axis, toVisit)
    requires axis' == if p.axis + 1 == |cols| then 0 else p.axis + 1
    requires var middle := At(p.tree.row[cols[p.axis]], Left);
             var goL, goR := AtMost(ranges[p.axis].lo, middle), Less(middle, ranges[p.axis].hi);
             && (direct' <==> goL || goR)
             && (goL ==> index' == 2 * p.index + 1)
             && (goR && !goL ==> index' == 2 * p.index + 2)
             && toVisit' == if goL && goR then toVisit + [(2 * p.index + 2, axis')] else toVisit
    ensures Mirrors(rest + Children(p, cols, ranges), direct', index', axis', toVisit')
  {
  }

  lemma RootOk(tree: Tree)
    requires tree.Valid()
    ensures tree.numberOfData >= 1 && |tree.columns| >= 1
    ensures WorkOk([Pending(0, 0, tree.kd, 0)], tree.data[..], tree.numberOfData,
              CeilLog2(tree.numberOfData), tree.columns)
  {
  }

  method LeafPasses(row: Row, columns: seq<nat>, ranges: seq<Range>) returns (passes: bool)
    requires |ranges| == |columns| && forall col :: col in columns ==> col < |row|
    ensures passes <==> Passes(row, columns, ranges)
  {
    passes := true;
    for i := 0 to |columns|
      invariant passes
      invariant forall j :: 0 <= j < i ==> InRange(ranges[j], Cell(row, columns[j]))
    {
      assert columns[i] in columns;
      if !InRange(ranges[i], row[columns[i]]) {
        passes := false;
        break;
      }
    }
  }

  lemma Started(kd: Kd, cols: seq<nat>, ranges: seq<Range>)
    requires 0 < |cols| == |ranges|
    ensures Mirrors([Pending(0, 0, kd, 0)], true, 0, 0, [])
    ensures Then(Run([], []), Todo([Pending(0, 0, kd, 0)], cols, ranges)) == RunOf(kd, cols, ranges, 0, 0)
  {
    PushedOnTop([], Pending(0, 0, kd, 0), cols, ranges);
    assert [] + [Pending(0, 0, kd, 0)] == [Pending(0, 0, kd, 0)];
    ThenIsMonoid(RunOf(kd, cols, ranges, 0, 0), Nothing, Nothing);
  }

  lemma Finished(work: seq<Pending>, toVisit: seq<(nat, nat)>, index: nat, axis: nat, done: Run,
      cols: seq<nat>, ranges: seq<Range>)
    requires |ranges| == |cols| && (forall p :: p in work ==> p.axis < |cols|)
    requires Mirrors(work, false, index, axis, toVisit) && |toVisit| == 0
    ensures Then(done, Todo(work, cols, ranges)) == done
  {
    ThenIsMonoid(done, Nothing, Nothing);
  }

  lemma AfterNode(out: seq<Row>, visited: seq<nat>, index: nat, rest: Run)
    ensures Then(Run(out, visited), Then(Run([], [index]), rest)) == Then(Run(out, visited + [index]), rest)
  {
    ThenIsMonoid(Run(out, visited), Run([], [index]), rest);
    assert out + [] == out;
  }

  lemma AfterLeaf(out: seq<Row>, visited: seq<nat>, row: Row, passes: bool, index: nat, rest: Run)
    ensures Then(Run(out, visited), Then(Run(if passes then [row] else [], [index]), rest))
         == Then(Run(if passes then out + [row] else out, visited + [index]), rest)
  {
    ThenIsMonoid(Run(out, visited), Run(if passes then [row] else [], [index]), rest);
    assert out + [] == out;
  }

  /** The search itself, over a tree whose ranges are already combined. */
  method Search(tree: Tree, ranges: seq<Range>) returns (out: seq<Row>, ghost visited: seq<nat>, ghost peak: nat)
    requires tree.Valid() && |ranges| == |tree.columns|
    ensures out == RunOf(tree.kd, tree.columns, ranges, 0, 0).answer
    ensures Run(out, visited) == RunOf(tree.kd, tree.columns, ranges, 0, 0)
    ensures peak <= CeilLog2(tree.numberOfData)
  {
    hide *;
    RootOk(tree);
    var columns := tree.columns;
    var numberOfData := tree.numberOfData;
    var k := |columns|;
    var toVisit: seq<(nat, nat)> := [];
    var direct := true;
    var index: nat, axis: nat := 0, 0;
    ghost var height := CeilLog2(numberOfData);
    ghost var t := tree.data[..];
    ghost var work := [Pending(0, 0, tree.kd, 0)];
    ghost var total := RunOf(tree.kd, columns, ranges, 0, 0);
    out, visited, peak := [], [], 0;
    Started(tree.kd, columns, ranges);
    while direct || |toVisit| != 0
      invariant WorkOk(work, t, numberOfData, height, columns)
      invariant forall p :: p in work ==> p.axis < |columns|
      invariant Mirrors(work, direct, index, axis, toVisit)
      invariant peak <= height && t == tree.data[..]
      invariant Then(Run(out, visited), Todo(work, columns, ranges)) == total
      decreases |total.visits| - |visited|
    {
      ThenParts(Run(out, visited), Todo(work, columns, ranges));
      MirrorsTop(work, direct, index, axis, toVisit);
      NodeFacts(work, t, numberOfData, height, columns);
      ghost var rest, node := work[..|work| - 1], work[|work| - 1];
      if !direct {
        index, axis := toVisit[|toVisit| - 1].0, toVisit[|toVisit| - 1].1;
        toVisit := toVisit[..|toVisit| - 1];
      } else {
        direct := false;
      }
      assert index == node.index && axis == node.axis && Mirrors(rest, false, index, axis, toVisit) &&
        |toVisit| + 1 == |work|;
      ghost var pending := toVisit;
      var row := tree.data[index].value;
      var leftIndex := 2 * index + 1;
      if LooksLikeLeaf(tree.data[..], numberOfData, leftIndex) {
        VisitLeaf(rest, node, columns, ranges);
        var passes := LeafPasses(row, columns, ranges);
        AfterLeaf(out, visited, row, passes, index, Todo(rest, columns, ranges));
        if passes {
          out := out + [row];
        }
        visited := visited + [index];
        work := rest;
        continue;
      }
      VisitNode(rest, node, columns, ranges);
      ChildrenOk(rest, node, t, numberOfData, height, columns, ranges);
      work := rest + Children(node, columns, ranges);
      AfterNode(out, visited, index, Todo(work, columns, ranges));
      visited := visited + [index];
      var middle := row[columns[axis]];
      var newAxis := axis + 1;
      if newAxis == k {
        newAxis := 0;
      }
      if Less(At(middle, Left), ranges[axis].hi) {
        index := leftIndex + 1;
        direct := true;
      }
      if AtMost(ranges[axis].lo, At(middle, Left)) {
        if direct {
          toVisit := toVisit + [(index, newAxis)];
          peak := if |toVisit| > peak then |toVisit| else peak;
        } else {
          direct := true;
        }
        index := leftIndex;
      }
      axis := newAxis;
      MirrorsChildren(rest, node, columns, ranges, pending, direct, index, axis, toVisit);
    }
    Finished(work, toVisit, index, axis, Run(out, visited), columns, ranges);
  }

  // ----- The query

  /** `query` either yields rows or, on contradictory constraints, raises: it looks into the missing dictionary. */
  datatype Outcome = Yields(rows: seq<Row>) | TypeError

  /** Constraints count only when both the list and its arguments are given. */
  function Given(constraints: Option<seq<Constraint>>, consArgs: Option<seq<real>>): (seq<Constraint>, seq<real>) {
    if constraints.Some? && consArgs.Some? then (constraints.value, consArgs.value) else ([], [])
  }

  lemma RangesMeanConstraints(dict: map<nat, Range>, cols: seq<nat>, ranges: seq<Range>, cs: seq<Constraint>,
      args: seq<real>, row: Row)
    requires |cs| <= |args| && Combines(dict, cs, args) && |ranges| == |cols|
    requires forall i :: 0 <= i < |cols| ==> ranges[i] == if cols[i] in dict then dict[cols[i]] else EntireRange
    ensures Passes(row, cols, ranges) <==> Keeps(row, cols, cs, args)
  {
    if Passes(row, cols, ranges) {
      forall j | 0 <= j < |cs| && cs[j].column in cols
        ensures Meets(cs[j].consType, args[j], Cell(row, cs[j].column))
      {
        var i :| 0 <= i < |cols| && cols[i] == cs[j].column;
        assert Constrains(cs, cols[i]);
        assert MeetsAll(cs, args, cols[i], Cell(row, cols[i]));
      }
    }
    if Keeps(row, cols, cs, args) {
      forall i | 0 <= i < |cols|
        ensures InRange(ranges[i], Cell(row, cols[i]))
      {
        assert MeetsAll(cs, args, cols[i], Cell(row, cols[i]));
      }
    }
  }

  /** The row has what the codes ask of every indexed column. */
  predicate Wanted(row: Row, cols: seq<nat>, cs: seq<Constraint>, args: seq<real>)
    requires |cs| <= |args|
  {
    forall i :: 0 <= i < |cs| && cs[i].column in cols ==>
      cs[i].column < |row| && Asked(cs[i].consType, args[i], row[cs[i].column])
  }

  lemma KeepsIsWanted(row: Row, cols: seq<nat>, cs: seq<Constraint>, args: seq<real>)
    requires WellTyped(cs, args) && forall col :: col in cols ==> col < |row|
    ensures Keeps(row, cols, cs, args) <==> Wanted(row, cols, cs, args)
  {
    forall i | 0 <= i < |cs|
      ensures Meets(cs[i].consType, args[i], Cell(row, cs[i].column))
        <==> Asked(cs[i].consType, args[i], Cell(row, cs[i].column))
    {
      CodesMean(cs[i].column, cs[i].consType, args[i], Cell(row, cs[i].column));
    }
  }

  lemma ScanIsWanted(data: seq<Row>, cols: seq<nat>, cs: seq<Constraint>, args: seq<real>, row: Row)
    requires WellTyped(cs, args) && Wide(data, cols)
    ensures multiset(LinearScan(data, cols, cs, args))[row] ==
              if Wanted(row, cols, cs, args) then multiset(data)[row] else 0
  {
    LinearScanCounts(data, cols, cs, args, row);
    if row in data {
      KeepsIsWanted(row, cols, cs, args);
    }
  }

  lemma {:induction false} UnaskedScan(data: seq<Row>, cols: seq<nat>)
    ensures LinearScan(data, cols, [], []) == data
  {
    if data != [] {
      UnaskedScan(data[1..], cols);
    }
  }

  /** The index answers as a scan of the table does, or raises exactly on contradictory constraints. */
  method Query(tree: Tree?, constraints: Option<seq<Constraint>>, consArgs: Option<seq<real>>) returns (r: Outcome)
    requires tree != null ==> tree.Valid()
    requires var (cs, args) := Given(constraints, consArgs); WellTyped(cs, args)
    ensures tree == null ==> r == Yields([])
    ensures tree != null ==>
              var (cs, args) := Given(constraints, consArgs);
              && (r.TypeError? <==> Contradictory(cs, args))
              && (r.Yields? ==> multiset(r.rows) == multiset(LinearScan(Rows(tree.kd), tree.columns, cs, args)))
              && (r.Yields? ==>
                    forall row ::
                      multiset(r.rows)[row] ==
                        if Wanted(row, tree.columns, cs, args) then multiset(Rows(tree.kd))[row] else 0)
    ensures tree != null && (constraints.None? || consArgs.None?) ==>
              r.Yields? && multiset(r.rows) == multiset(Rows(tree.kd))
  {
    if tree == null {
      return Yields([]);
    }
    ghost var (cs, args) := Given(constraints, consArgs);
    var columns := tree.columns;
    var cc: Option<map<nat, Range>> := Some(map[]);
    if constraints.Some? && consArgs.Some? {
      cc := CombineConstraints(constraints.value, consArgs.value);
    } else {
      forall col: nat
        ensures Satisfiable(cs, args, col)
      {
        assert MeetsAll(cs, args, col, 0.0);
      }
    }
    if cc.None? {
      return TypeError;
    }
    var ranges: seq<Range> := [];
    for i := 0 to |columns|
      invariant |ranges| == i
      invariant forall j :: 0 <= j < i ==>
                  ranges[j] == if columns[j] in cc.value then cc.value[columns[j]] else EntireRange
    {
      ranges := ranges + [if columns[i] !in cc.value then EntireRange else cc.value[columns[i]]];
    }
    var out, _, _ := Search(tree, ranges);
    forall row
      ensures Passes(row, columns, ranges) <==> Keeps(row, columns, cs, args)
    {
      RangesMeanConstraints(cc.value, columns, ranges, cs, args, row);
    }
    AnswerIsScan(tree.kd, columns, ranges, cs, args);
    forall row
      ensures multiset(LinearScan(Rows(tree.kd), columns, cs, args))[row] ==
                if Wanted(row, columns, cs, args) then multiset(Rows(tree.kd))[row] else 0
    {
      ScanIsWanted(Rows(tree.kd), columns, cs, args, row);
    }
    UnaskedScan(Rows(tree.kd), columns);
    return Yields(out);
  }

  /** The columns that are indexed: those asked for, or all. */
  lemma IndexedColumns(data: seq<Row>, cols: seq<nat>)
    requires data != []
    ensures cols != [] ==> ColumnsOrAll(data, cols) == cols
    ensures cols == [] ==>
              var all := ColumnsOrAll(data, cols);
              |all| == |data[0]| && forall i :: 0 <= i < |all| ==> all[i] == i
  {
  }

  /**
   Building an index and asking it is the same as scanning the rows it was built from: each row is
   answered as often as the data hold it, if it has what is asked, and otherwise not at all.
   */
  method BuildAndQuery(data: seq<Row>, cols: seq<nat>, constraints: seq<Constraint>, consArgs: seq<real>)
    returns (r: Outcome)
    requires data != [] ==> ColumnsOrAll(data, cols) != [] && Wide(data, ColumnsOrAll(data, cols))
    requires WellTyped(constraints, consArgs)
    ensures r.TypeError? <==> data != [] && Contradictory(constraints, consArgs)
    ensures r.Yields? && data == [] ==> r.rows == []
    ensures r.Yields? && data != [] ==>
              multiset(r.rows) == multiset(LinearScan(data, ColumnsOrAll(data, cols), constraints, consArgs))
    ensures r.Yields? && data != [] ==>
              forall row ::
                multiset(r.rows)[row] ==
                  if Wanted(row, ColumnsOrAll(data, cols), constraints, consArgs) then multiset(data)[row] else 0
  {
    var tree := Build(data, cols);
    r := Query(tree, Some(constraints), Some(consArgs));
    if tree != null {
      hide *;
      LinearScanOrder(Rows(tree.kd), data, tree.columns, constraints, consArgs);
      forall row
        ensures multiset(LinearScan(data, tree.columns, constraints, consArgs))[row] ==
                  if Wanted(row, tree.columns, constraints, consArgs) then multiset(data)[row] else 0
      {
        ScanIsWanted(data, tree.columns, constraints, consArgs, row);
      }
    }
  }

  /** One constraint on an indexed column never raises; what is answered is what its code asks for. */
  method AskOne(data: seq<Row>, cols: seq<nat>, column: nat, code: int, arg: real) returns (rows: seq<Row>)
    requires data != [] ==> ColumnsOrAll(data, cols) != [] && Wide(data, ColumnsOrAll(data, cols))
    requires data != [] ==> column in ColumnsOrAll(data, cols)
    requires code == 2 || code == 4 || code == 8 || code == 16 || code == 32
    ensures forall row :: multiset(rows)[row] ==
              if column < |row| && (|| (code == 2 && row[column] == arg)
                                    || (code == 4 && row[column] > arg)
                                    || (code == 8 && row[column] <= arg)
                                    || (code == 16 && row[column] < arg)
                                    || (code == 32 && row[column] >= arg))
              then multiset(data)[row] else 0
  {
    var cs, args := [Constraint(column, code)], [arg];
    CodesMean(column, code, arg, arg);
    OneIsSatisfiable(cs, args);
    var r := BuildAndQuery(data, cols, cs, args);
    rows := r.rows;
    hide *;
    forall row
      ensures multiset(rows)[row] ==
                if column < |row| && (|| (code == 2 && row[column] == arg)
                                      || (code == 4 && row[column] > arg)
                                      || (code == 8 && row[column] <= arg)
                                      || (code == 16 && row[column] < arg)
                                      || (code == 32 && row[column] >= arg))
                then multiset(data)[row] else 0
    {
      if data == [] {
        assert multiset(data)[row] == 0;
      } else {
        OneWanted(row, ColumnsOrAll(data, cols), cs, args);
      }
    }
  }

  lemma OneIsSatisfiable(cs: seq<Constraint>, args: seq<real>)
    requires WellTyped(cs, args) && |cs| == 1
    ensures !Contradictory(cs, args)
  {
    var code, arg := cs[0].consType, args[0];
    var v := if code == CONSTRAINT_GT then arg + 1.0 else if code == CONSTRAINT_LT then arg - 1.0 else arg;
    forall col: nat
      ensures Satisfiable(cs, args, col)
    {
      assert MeetsAll(cs, args, col, v);
    }
  }

  lemma OneWanted(row: Row, cols: seq<nat>, cs: seq<Constraint>, args: seq<real>)
    requires |cs| == |args| == 1 && cs[0].column in cols
    ensures var column, code, arg := cs[0].column, cs[0].consType, args[0];
            Wanted(row, cols, cs, args) <==>
              column < |row| && (|| (code == 2 && row[column] == arg)
                                 || (code == 4 && row[column] > arg)
                                 || (code == 8 && row[column] <= arg)
                                 || (code == 16 && row[column] < arg)
                                 || (code == 32 && row[column] >= arg))
  {
  }
}
