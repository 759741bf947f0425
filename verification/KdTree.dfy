/**
 The kd-tree index of `kdtree.py`: a balanced tree of rows laid out in one array, the
 children of slot `i` in slots `2i + 1` and `2i + 2`.  Internal slots repeat a row that
 splits the rows below; every row sits in exactly one leaf.
 */
module KdTree {
  import opened Wrappers
  import opened Powers
  import opened Sorting

  type Row = seq<real>

  /** The cell of a row; rows are always wide enough where the cell is used (`Wide`). */
  function Cell(row: Row, col: nat): real {
    if col < |row| then row[col] else 0.0
  }

  /** Every row has every indexed column, as `itemgetter` demands. */
  predicate Wide(data: seq<Row>, cols: seq<nat>) {
    forall row, col :: row in data && col in cols ==> col < |row|
  }

  function RowOrder(col: nat): (Row, Row) -> bool {
    (a: Row, b: Row) => Cell(a, col) <= Cell(b, col)
  }

  lemma RowOrderIsPreorder(col: nat)
    ensures TotalPreorder(RowOrder(col))
  {
  }

  // ----- The tree the array stands for

  datatype Kd = Leaf(row: Row) | Node(row: Row, left: Kd, right: Kd)

  function Rows(tree: Kd): (rows: seq<Row>)
    ensures |rows| >= 1
    ensures |rows| == 1 <==> tree.Leaf?
  {
    match tree
    case Leaf(row) => [row]
    case Node(_, left, right) => Rows(left) + Rows(right)
  }

  function NextAxis(cols: seq<nat>, axis: nat): nat {
    if axis + 1 == |cols| then 0 else axis + 1
  }

  lemma AxisInRange(cols: seq<nat>, axis: nat)
    requires axis < |cols|
    ensures NextAxis(cols, axis) < |cols|
  {
  }

  /** At every internal node: left cells <= node cell <= right cells, on the node's own column. */
  ghost predicate Ordered(tree: Kd, cols: seq<nat>, axis: nat)
    requires axis < |cols|
  {
    match tree
    case Leaf(row) => true
    case Node(row, left, right) =>
      && row in Rows(right)
      && (forall r :: r in Rows(left) ==> Cell(r, cols[axis]) <= Cell(row, cols[axis]))
      && (forall r :: r in Rows(right) ==> Cell(row, cols[axis]) <= Cell(r, cols[axis]))
      && Ordered(left, cols, NextAxis(cols, axis))
      && Ordered(right, cols, NextAxis(cols, axis))
  }

  /** All the way down the rows are halved, give or take one. */
  predicate Balanced(tree: Kd) {
    match tree
    case Leaf(_) => true
    case Node(_, left, right) =>
      && |Rows(left)| <= |Rows(right)| <= |Rows(left)| + 1
      && Balanced(left) && Balanced(right)
  }

  /** All leaves lie at depth `floor(log2 n)` or `ceil(log2 n)`. */
  predicate LeafDepths(tree: Kd, n: nat, depth: nat) {
    match tree
    case Leaf(_) => 2 * Pow2(depth) > n && (depth > 0 ==> Pow2(depth - 1) < n)
    case Node(_, left, right) => LeafDepths(left, n, depth + 1) && LeafDepths(right, n, depth + 1)
  }

  lemma Times(x: int, y: int, p: nat)
    requires x <= y
    ensures x * p <= y * p
  {
  }

  lemma Double(x: int, p: nat)
    ensures x * (2 * p) == (2 * x) * p
  {
  }

  lemma HalfStaysLarge(rows: nat, half: nat, p: nat, n: nat)
    requires (rows + 1) * p > n && 2 * (half + 1) >= rows + 1
    ensures (half + 1) * (2 * p) > n
  {
    Double(half + 1, p);
    Times(rows + 1, 2 * (half + 1), p);
  }

  lemma HalfStaysSmall(rows: nat, half: nat, p: nat, n: nat)
    requires rows > 1 && (rows - 1) * p < n && 2 * (half - 1) <= rows - 1
    ensures (half - 1) * (2 * p) < n && p < n
  {
    Double(half - 1, p);
    Times(2 * (half - 1), rows - 1, p);
    Times(1, rows - 1, p);
  }

  /** How many rows a subtree `depth` levels down can have. */
  predicate Level(rows: nat, n: nat, depth: nat) {
    && (rows + 1) * Pow2(depth) > n && (rows - 1) * Pow2(depth) < n
    && (depth > 0 ==> Pow2(depth - 1) < n)
  }

  lemma ChildLevel(rows: nat, half: nat, n: nat, depth: nat)
    requires Level(rows, n, depth) && rows > 1 && rows - 1 <= 2 * half <= rows + 1
    ensures Level(half, n, depth + 1)
  {
    HalfStaysLarge(rows, half, Pow2(depth), n);
    HalfStaysSmall(rows, half, Pow2(depth), n);
    var p := Pow2(depth);
    assert Pow2(depth + 1) == 2 * p;
  }

  lemma ChildSizes(tree: Kd)
    requires Balanced(tree) && tree.Node?
    ensures Balanced(tree.left) && Balanced(tree.right)
    ensures var rows, l, r := |Rows(tree)|, |Rows(tree.left)|, |Rows(tree.right)|; rows == l + r > 1 && l <= r <= l + 1
  {
  }

  lemma {:induction false} BalancedBelow(tree: Kd, n: nat, depth: nat)
    requires Balanced(tree) && Level(|Rows(tree)|, n, depth)
    ensures LeafDepths(tree, n, depth)
  {
    if tree.Node? {
      hide Rows, Balanced, Level, Pow2;
      ChildSizes(tree);
      ChildLevel(|Rows(tree)|, |Rows(tree.left)|, n, depth);
      ChildLevel(|Rows(tree)|, |Rows(tree.right)|, n, depth);
      BalancedBelow(tree.left, n, depth + 1);
      BalancedBelow(tree.right, n, depth + 1);
    }
  }

  /** So a tree over `n` rows has its leaves at the two lowest levels. */
  lemma LeavesAreLow(tree: Kd)
    requires Balanced(tree)
    ensures LeafDepths(tree, |Rows(tree)|, 0)
  {
    BalancedBelow(tree, |Rows(tree)|, 0);
  }

  // ----- Its layout in the array

  /** Slot `i` is `root` or lies below it. */
  predicate Under(i: nat, root: nat) {
    i == root || (i > root && Under((i - 1) / 2, root))
  }

  lemma {:induction false} UnderChild(i: nat, root: nat)
    ensures Under(i, root) <==> i == root || Under(i, 2 * root + 1) || Under(i, 2 * root + 2)
  {
    if i > root {
      UnderChild((i - 1) / 2, root);
    }
  }

  lemma {:induction false} ChildrenDisjoint(i: nat, root: nat)
    ensures !(Under(i, 2 * root + 1) && Under(i, 2 * root + 2))
    ensures !Under(root, 2 * root + 1) && !Under(root, 2 * root + 2)
  {
    if i > 2 * root + 2 {
      ChildrenDisjoint((i - 1) / 2, root);
    }
  }

  lemma {:induction false} UnderRoot(i: nat)
    ensures Under(i, 0)
  {
    if i > 0 {
      UnderRoot((i - 1) / 2);
    }
  }

  /** The slots a tree rooted at `index` occupies. */
  ghost function Slots(tree: Kd, index: nat): set<nat> {
    match tree
    case Leaf(_) => {index}
    case Node(_, left, right) => {index} + Slots(left, 2 * index + 1) + Slots(right, 2 * index + 2)
  }

  lemma {:induction false} SlotsUnder(tree: Kd, index: nat)
    ensures forall i :: i in Slots(tree, index) ==> Under(i, index)
  {
    if tree.Node? {
      SlotsUnder(tree.left, 2 * index + 1);
      SlotsUnder(tree.right, 2 * index + 2);
      forall i | i in Slots(tree, index)
        ensures Under(i, index)
      {
        UnderChild(i, index);
      }
    }
  }

  lemma SlotsApart(left: Kd, right: Kd, index: nat)
    ensures Slots(left, 2 * index + 1) !! Slots(right, 2 * index + 2)
    ensures index !in Slots(left, 2 * index + 1) && index !in Slots(right, 2 * index + 2)
  {
    SlotsUnder(left, 2 * index + 1);
    SlotsUnder(right, 2 * index + 2);
    ChildrenDisjoint(index, index);
    var l, r := 2 * index + 1, 2 * index + 2;
    forall i: nat
      ensures !(Under(i, l) && Under(i, r))
    {
      ChildrenDisjoint(i, index);
    }
  }

  /** `n` rows make `2n - 1` nodes. */
  lemma {:induction false} SlotCount(tree: Kd, index: nat)
    ensures |Slots(tree, index)| == 2 * |Rows(tree)| - 1
  {
    match tree
    case Leaf(_) =>
    case Node(_, left, right) =>
      SlotCount(left, 2 * index + 1);
      SlotCount(right, 2 * index + 2);
      SlotsApart(left, right, index);
      assert |{index} + Slots(left, 2 * index + 1)| == 1 + |Slots(left, 2 * index + 1)|;
  }

  /** The array `t` holds `tree` at `index`, and nothing where a leaf would have its left child. */
  ghost predicate Holds(t: seq<Option<Row>>, tree: Kd, index: nat) {
    && index < |t|
    && t[index] == Some(tree.row)
    && match tree
       case Leaf(_) => 2 * index + 1 < |t| ==> t[2 * index + 1].None?
       case Node(_, left, right) => Holds(t, left, 2 * index + 1) && Holds(t, right, 2 * index + 2)
  }

  lemma {:induction false} HoldsInside(t: seq<Option<Row>>, tree: Kd, index: nat)
    requires Holds(t, tree, index)
    ensures forall i :: i in Slots(tree, index) ==> i < |t|
  {
    if tree.Node? {
      HoldsInside(t, tree.left, 2 * index + 1);
      HoldsInside(t, tree.right, 2 * index + 2);
    }
  }

  /** Whether `t` holds a tree at `index` depends on the slots at and below `index` alone. */
  lemma {:induction false} HoldsFrame(t: seq<Option<Row>>, t': seq<Option<Row>>, tree: Kd, index: nat)
    requires |t| == |t'| && Holds(t, tree, index)
    requires forall i: nat :: i < |t| && Under(i, index) ==> t'[i] == t[i]
    ensures Holds(t', tree, index)
  {
    UnderChild(2 * index + 1, index);
    if tree.Node? {
      forall i: nat | i < |t|
        ensures Under(i, 2 * index + 1) || Under(i, 2 * index + 2) ==> t'[i] == t[i]
      {
        UnderChild(i, index);
      }
      HoldsFrame(t, t', tree.left, 2 * index + 1);
      HoldsFrame(t, t', tree.right, 2 * index + 2);
    }
  }

  /** Of the slots at and below `index`, exactly those of the tree are filled. */
  ghost predicate Fills(t: seq<Option<Row>>, tree: Kd, index: nat) {
    forall i: nat :: i < |t| && Under(i, index) ==> (t[i].Some? <==> i in Slots(tree, index))
  }

  /** `t'` differs from `t` at most in the slots at and below `index`. */
  ghost predicate ChangesOnlyUnder(t: seq<Option<Row>>, t': seq<Option<Row>>, index: nat) {
    && |t| == |t'|
    && forall i: nat :: i < |t| && !Under(i, index) ==> t'[i] == t[i]
  }

  ghost predicate VacantUnder(t: seq<Option<Row>>, index: nat) {
    forall i: nat :: i < |t| && Under(i, index) ==> t[i].None?
  }

  lemma LeafWritten(t: seq<Option<Row>>, row: Row, index: nat)
    requires index < |t| && VacantUnder(t, index)
    ensures Holds(t[index := Some(row)], Leaf(row), index)
    ensures Fills(t[index := Some(row)], Leaf(row), index)
    ensures ChangesOnlyUnder(t, t[index := Some(row)], index)
  {
    UnderChild(2 * index + 1, index);
  }

  lemma VacantBelow(t: seq<Option<Row>>, t1: seq<Option<Row>>, row: Row, index: nat)
    requires index < |t| && VacantUnder(t, index) && t1 == t[index := Some(row)]
    ensures VacantUnder(t1, 2 * index + 1) && VacantUnder(t1, 2 * index + 2)
  {
    forall i: nat | i < |t|
      ensures Under(i, 2 * index + 1) || Under(i, 2 * index + 2) ==> t1[i].None?
    {
      UnderChild(i, index);
      ChildrenDisjoint(i, index);
    }
  }

  lemma VacantElsewhere(t: seq<Option<Row>>, t': seq<Option<Row>>, index: nat)
    requires VacantUnder(t, 2 * index + 2) && ChangesOnlyUnder(t, t', 2 * index + 1)
    ensures VacantUnder(t', 2 * index + 2)
  {
    forall i: nat | i < |t| && Under(i, 2 * index + 2)
      ensures t'[i].None?
    {
      ChildrenDisjoint(i, index);
    }
  }

  /** Writing a node (`t1`), then its left (`t2`), then its right subtree (`t3`) lays out the whole tree. */
  lemma NodeWritten(t0: seq<Option<Row>>, t1: seq<Option<Row>>, t2: seq<Option<Row>>, t3: seq<Option<Row>>,
      tree: Kd, index: nat)
    requires tree.Node? && index < |t0| && t1 == t0[index := Some(tree.row)]
    requires ChangesOnlyUnder(t1, t2, 2 * index + 1) && ChangesOnlyUnder(t2, t3, 2 * index + 2)
    requires Holds(t2, tree.left, 2 * index + 1) && Fills(t2, tree.left, 2 * index + 1)
    requires Holds(t3, tree.right, 2 * index + 2) && Fills(t3, tree.right, 2 * index + 2)
    ensures Holds(t3, tree, index)
    ensures Fills(t3, tree, index)
    ensures ChangesOnlyUnder(t0, t3, index)
  {
    hide *;
    NodeChanges(t0, t1, t2, t3, tree, index);
    HoldsFrame(t2, t3, tree.left, 2 * index + 1);
    NodeHolds(t3, tree, index);
    NodeFills(t2, t3, tree, index);
  }

  lemma NodeChanges(t0: seq<Option<Row>>, t1: seq<Option<Row>>, t2: seq<Option<Row>>, t3: seq<Option<Row>>,
      tree: Kd, index: nat)
    requires tree.Node? && index < |t0| && t1 == t0[index := Some(tree.row)]
    requires ChangesOnlyUnder(t1, t2, 2 * index + 1) && ChangesOnlyUnder(t2, t3, 2 * index + 2)
    ensures ChangesOnlyUnder(t0, t3, index) && |t2| == |t3|
    ensures index < |t3| && t3[index] == Some(tree.row)
    ensures forall i: nat :: i < |t3| && Under(i, 2 * index + 1) ==> t3[i] == t2[i]
  {
    hide Under;
    ChildrenDisjoint(index, index);
    forall i: nat | i < |t0|
      ensures Under(i, 2 * index + 1) ==> t3[i] == t2[i]
      ensures !Under(i, index) ==> t3[i] == t0[i]
    {
      UnderChild(i, index);
      ChildrenDisjoint(i, index);
    }
  }

  lemma NodeHolds(t: seq<Option<Row>>, tree: Kd, index: nat)
    requires tree.Node? && index < |t| && t[index] == Some(tree.row)
    requires Holds(t, tree.left, 2 * index + 1) && Holds(t, tree.right, 2 * index + 2)
    ensures Holds(t, tree, index)
  {
  }

  lemma NodeFills(t2: seq<Option<Row>>, t3: seq<Option<Row>>, tree: Kd, index: nat)
    requires tree.Node? && |t2| == |t3| && index < |t3| && t3[index] == Some(tree.row)
    requires Fills(t2, tree.left, 2 * index + 1) && Fills(t3, tree.right, 2 * index + 2)
    requires forall i: nat :: i < |t3| && Under(i, 2 * index + 1) ==> t3[i] == t2[i]
    ensures Fills(t3, tree, index)
  {
    hide Under;
    SlotsUnder(tree.left, 2 * index + 1);
    SlotsUnder(tree.right, 2 * index + 2);
    forall i: nat | i < |t3| && Under(i, index)
      ensures t3[i].Some? <==> i in Slots(tree, index)
    {
      UnderChild(i, index);
      ChildrenDisjoint(i, index);
    }
  }

  // ----- The build

  /** The rows at a node in the order they are split: a one-column index is sorted once, up front. */
  function Arranged(data: seq<Row>, cols: seq<nat>, axis: nat): (s: seq<Row>)
    requires axis < |cols|
    ensures |s| == |data|
  {
    if |cols| != 1 then Sort(RowOrder(cols[axis]), data) else data
  }

  lemma ArrangedIs(data: seq<Row>, cols: seq<nat>, axis: nat)
    requires axis < |cols|
    ensures Arranged(data, cols, axis) == if |cols| == 1 then data else Sort(RowOrder(cols[axis]), data)
    ensures NextAxis(cols, axis) == if axis + 1 == |cols| then 0 else axis + 1
    ensures NextAxis(cols, axis) < |cols|
  {
  }

  ghost predicate Presorted(data: seq<Row>, cols: seq<nat>) {
    |cols| == 1 ==> SortedBy(RowOrder(cols[0]), data)
  }

  lemma ArrangedIsSorted(data: seq<Row>, cols: seq<nat>, axis: nat)
    requires axis < |cols| && Presorted(data, cols)
    ensures SortedBy(RowOrder(cols[axis]), Arranged(data, cols, axis))
    ensures multiset(Arranged(data, cols, axis)) == multiset(data)
    ensures forall row :: row in Arranged(data, cols, axis) <==> row in data
  {
    RowOrderIsPreorder(cols[axis]);
    SortIsSorted(RowOrder(cols[axis]), data);
    SortPermutes(RowOrder(cols[axis]), data);
    SortKeepsElements(RowOrder(cols[axis]), data);
  }

  /** What splitting the arranged rows at the median hands to the two children. */
  lemma HalvesReady(data: seq<Row>, cols: seq<nat>, axis: nat)
    requires axis < |cols| && Wide(data, cols) && Presorted(data, cols)
    ensures var s := Arranged(data, cols, axis); var m := |data| / 2;
            && Wide(s[..m], cols) && Wide(s[m..], cols)
            && Presorted(s[..m], cols) && Presorted(s[m..], cols)
            && multiset(s[..m]) + multiset(s[m..]) == multiset(data)
  {
    ArrangedIsSorted(data, cols, axis);
    var s, m := Arranged(data, cols, axis), |data| / 2;
    assert s == s[..m] + s[m..];
  }

  /** `tree` is a balanced search tree over exactly the rows `data`, whose root splits on `axis`. */
  ghost predicate Indexes(tree: Kd, data: seq<Row>, cols: seq<nat>, axis: nat)
    requires axis < |cols|
  {
    && multiset(Rows(tree)) == multiset(data) && |Rows(tree)| == |data|
    && Balanced(tree) && Ordered(tree, cols, axis)
  }

  lemma SingleRowIndexes(data: seq<Row>, cols: seq<nat>, axis: nat)
    requires axis < |cols| && |data| == 1
    ensures Indexes(Leaf(Arranged(data, cols, axis)[0]), data, cols, axis)
  {
    assert data == [data[0]];
  }

  lemma MedianNodeIndexes(data: seq<Row>, cols: seq<nat>, axis: nat, left: Kd, right: Kd)
    requires axis < |cols| && |data| > 1 && Wide(data, cols) && Presorted(data, cols)
    requires Indexes(left, Arranged(data, cols, axis)[..|data| / 2], cols, NextAxis(cols, axis))
    requires Indexes(right, Arranged(data, cols, axis)[|data| / 2..], cols, NextAxis(cols, axis))
    ensures Indexes(Node(Arranged(data, cols, axis)[|data| / 2], left, right), data, cols, axis)
  {
    HalvesReady(data, cols, axis);
    ArrangedIsSorted(data, cols, axis);
    var s, m := Arranged(data, cols, axis), |data| / 2;
    MedianSplits(s, m, cols[axis], Rows(left), Rows(right));
    JoinedHalves(Node(s[m], left, right), cols, axis);
  }

  /** A node is a search tree when its halves are, and the median row separates them. */
  lemma JoinedHalves(tree: Kd, cols: seq<nat>, axis: nat)
    requires axis < |cols| && tree.Node?
    requires |Rows(tree.left)| <= |Rows(tree.right)| <= |Rows(tree.left)| + 1
    requires Balanced(tree.left) && Balanced(tree.right)
    requires Ordered(tree.left, cols, NextAxis(cols, axis)) && Ordered(tree.right, cols, NextAxis(cols, axis))
    requires tree.row in Rows(tree.right)
    requires forall r :: r in Rows(tree.left) ==> Cell(r, cols[axis]) <= Cell(tree.row, cols[axis])
    requires forall r :: r in Rows(tree.right) ==> Cell(tree.row, cols[axis]) <= Cell(r, cols[axis])
    ensures Balanced(tree) && Ordered(tree, cols, axis)
    ensures multiset(Rows(tree)) == multiset(Rows(tree.left)) + multiset(Rows(tree.right))
  {
  }

  lemma MedianSplits(s: seq<Row>, m: nat, col: nat, left: seq<Row>, right: seq<Row>)
    requires m < |s| && SortedBy(RowOrder(col), s)
    requires multiset(left) == multiset(s[..m]) && multiset(right) == multiset(s[m..])
    ensures forall r :: r in left ==> Cell(r, col) <= Cell(s[m], col)
    ensures forall r :: r in right ==> Cell(s[m], col) <= Cell(r, col)
    ensures s[m] in right
  {
    assert s[m..][0] in multiset(right);
    forall r | r in left
      ensures Cell(r, col) <= Cell(s[m], col)
    {
      assert r in multiset(left);
      var i :| 0 <= i < m && s[i] == r;
      assert RowOrder(col)(s[i], s[m]);
    }
    forall r | r in right
      ensures Cell(s[m], col) <= Cell(r, col)
    {
      assert r in multiset(right);
      var i :| m <= i < |s| && s[i] == r;
      assert i == m || RowOrder(col)(s[m], s[i]);
    }
  }

  /** A node at `depth` with `n` rows has room for its tree in an array of `2^(depth + height + 1)` slots. */
  ghost predicate Fits(n: nat, index: nat, depth: nat, height: nat, length: nat) {
    && 1 <= n <= Pow2(height)
    && index + 2 <= Pow2(depth + 1)
    && length == Pow2(depth + height + 1)
  }

  lemma ChildrenFit(n: nat, index: nat, depth: nat, height: nat, length: nat)
    requires Fits(n, index, depth, height, length)
    ensures index < length
    ensures n > 1 ==>
              && height >= 1
              && Fits(n / 2, 2 * index + 1, depth + 1, height - 1, length)
              && Fits(n - n / 2, (index + 1) * 2, depth + 1, height - 1, length)
  {
    Pow2Monotone(depth + 1, depth + height + 1);
  }

  /** Lays out the index of `data` at and below slot `index`, writing nowhere else. */
  method KdTreeRec(data: seq<Row>, treeData: array<Option<Row>>, cols: seq<nat>, axis: nat, index: nat,
                   ghost depth: nat, ghost height: nat) returns (ghost tree: Kd)
    requires |data| >= 1 && axis < |cols| && Wide(data, cols) && Presorted(data, cols)
    requires Fits(|data|, index, depth, height, treeData.Length)
    requires VacantUnder(treeData[..], index)
    modifies treeData
    ensures Indexes(tree, data, cols, axis)
    ensures Holds(treeData[..], tree, index) && Fills(treeData[..], tree, index)
    ensures ChangesOnlyUnder(old(treeData[..]), treeData[..], index)
    decreases |data|
  {
    hide *;
    var median := |data| / 2;
    var k := |cols|;
    var rows := data;
    if k != 1 {
      rows := Sort(RowOrder(cols[axis]), data);
    }
    ArrangedIs(data, cols, axis);
    HalvesReady(data, cols, axis);
    ChildrenFit(|data|, index, depth, height, treeData.Length);
    ghost var t0 := treeData[..];
    treeData[index] := Some(rows[median]);
    ghost var t1 := treeData[..];
    var axis' := axis + 1;
    if axis' == k {
      axis' := 0;
    }
    if |data| != 1 {
      VacantBelow(t0, t1, rows[median], index);
      ghost var left := KdTreeRec(rows[..median], treeData, cols, axis', 2 * index + 1, depth + 1, height - 1);
      ghost var t2 := treeData[..];
      VacantElsewhere(t1, t2, index);
      ghost var right := KdTreeRec(rows[median..], treeData, cols, axis', (index + 1) * 2, depth + 1, height - 1);
      tree := Node(rows[median], left, right);
      NodeWritten(t0, t1, t2, treeData[..], tree, index);
      MedianNodeIndexes(data, cols, axis, left, right);
    } else {
      tree := Leaf(rows[median]);
      LeafWritten(t0, rows[median], index);
      SingleRowIndexes(data, cols, axis);
    }
  }

  class Tree {
    var columns: seq<nat>
    var data: array<Option<Row>>
    var numberOfData: nat
    ghost var kd: Kd  // the tree the array holds

    ghost predicate Valid()
      reads this, data
    {
      && |columns| >= 1
      && numberOfData == |Rows(kd)| && Wide(Rows(kd), columns)
      && Balanced(kd) && Ordered(kd, columns, 0)
      && data.Length == Pow2(CeilLog2(|Rows(kd)|) + 1)
      && Holds(data[..], kd, 0) && Fills(data[..], kd, 0)
    }

    constructor (columns: seq<nat>, data: array<Option<Row>>, numberOfData: nat, ghost kd: Kd)
      ensures this.columns == columns && this.data == data && this.numberOfData == numberOfData && this.kd == kd
    {
      this.columns := columns;
      this.data := data;
      this.numberOfData := numberOfData;
      this.kd := kd;
    }
  }

  /** `cols=None` and `cols=[]` both ask for every column of the first row. */
  function ColumnsOrAll(data: seq<Row>, cols: seq<nat>): seq<nat>
    requires |data| >= 1
  {
    if cols == [] then seq(|data[0]|, i => i) else cols
  }

  method Build(data: seq<Row>, cols: seq<nat>) returns (tree: Tree?)
    requires data != [] ==> ColumnsOrAll(data, cols) != [] && Wide(data, ColumnsOrAll(data, cols))
    ensures tree == null <==> data == []
    ensures tree != null ==> fresh(tree) && fresh(tree.data) && tree.Valid()
    ensures tree != null ==> tree.columns == ColumnsOrAll(data, cols) && multiset(Rows(tree.kd)) == multiset(data)
  {
    hide *;
    if |data| == 0 {
      return null;
    }
    var columns := if cols == [] then seq(|data[0]|, i => i) else cols;
    ColumnsAre(data, cols);
    var k := |columns|;
    var rows := data;
    if k == 1 {
      rows := Sort(RowOrder(columns[0]), data);
    }
    RowsReady(data, rows, columns);
    var treeData := new Option<Row>[Pow2(CeilLog2(|data|) + 1)](_ => None);
    NothingFilled(treeData[..]);
    ghost var kd := KdTreeRec(rows, treeData, columns, 0, 0, 0, CeilLog2(|data|));
    IndexedRows(kd, data, rows, columns);
    tree := new Tree(columns, treeData, |data|, kd);
    TreeIsValid(tree);
  }

  lemma ColumnsAre(data: seq<Row>, cols: seq<nat>)
    requires |data| >= 1
    ensures ColumnsOrAll(data, cols) == if cols == [] then seq(|data[0]|, i => i) else cols
  {
  }

  lemma RowsReady(data: seq<Row>, rows: seq<Row>, columns: seq<nat>)
    requires |data| >= 1 && |columns| >= 1 && Wide(data, columns)
    requires rows == if |columns| == 1 then Sort(RowOrder(columns[0]), data) else data
    ensures |rows| == |data| && multiset(rows) == multiset(data)
    ensures Wide(rows, columns) && Presorted(rows, columns)
    ensures Fits(|rows|, 0, 0, CeilLog2(|data|), Pow2(CeilLog2(|data|) + 1))
  {
    if |columns| == 1 {
      RowOrderIsPreorder(columns[0]);
      SortIsSorted(RowOrder(columns[0]), data);
      SortPermutes(RowOrder(columns[0]), data);
      SortKeepsElements(RowOrder(columns[0]), data);
    }
  }

  lemma NothingFilled(s: seq<Option<Row>>)
    requires forall i :: 0 <= i < |s| ==> s[i] == None
    ensures VacantUnder(s, 0)
  {
  }

  lemma IndexedRows(kd: Kd, data: seq<Row>, rows: seq<Row>, columns: seq<nat>)
    requires |columns| >= 1 && Indexes(kd, rows, columns, 0)
    requires multiset(rows) == multiset(data) && |rows| == |data| && Wide(rows, columns)
    ensures Balanced(kd) && Ordered(kd, columns, 0) && |Rows(kd)| == |data| && Wide(Rows(kd), columns)
    ensures multiset(Rows(kd)) == multiset(data)
  {
    hide Balanced, Ordered;
    forall row | row in Rows(kd)
      ensures row in rows
    {
      assert row in multiset(Rows(kd));
    }
  }

  lemma TreeIsValid(tree: Tree)
    requires |tree.columns| >= 1 && tree.numberOfData == |Rows(tree.kd)| && Wide(Rows(tree.kd), tree.columns)
    requires Balanced(tree.kd) && Ordered(tree.kd, tree.columns, 0)
    requires tree.data.Length == Pow2(CeilLog2(|Rows(tree.kd)|) + 1)
    requires Holds(tree.data[..], tree.kd, 0) && Fills(tree.data[..], tree.kd, 0)
    ensures tree.Valid()
  {
  }

  /** The array has exactly one filled slot per node: `n` leaves and `n - 1` splitting rows. */
  lemma FilledSlots(tree: Tree)
    requires tree.Valid()
    ensures |set i: nat | i < tree.data.Length && tree.data[i].Some?| == 2 * tree.numberOfData - 1
  {
    var filled := set i: nat | i < tree.data.Length && tree.data[i].Some?;
    HoldsInside(tree.data[..], tree.kd, 0);
    forall i: nat
      ensures i in filled <==> i in Slots(tree.kd, 0)
    {
      UnderRoot(i);
    }
    assert filled == Slots(tree.kd, 0);
    SlotCount(tree.kd, 0);
  }
}
