/**
 When a list of CIDR blocks is the best one for the addresses it covers: ascending,
 disjoint, with no two siblings left unmerged.  Such a list is unique, its blocks are the
 maximal ones, and no list covering the same addresses is shorter.
 */
module Canonical {
  import opened Powers
  import opened Alignment

  /** The addresses from `lo` up to but not including `lo + 2^k`, with `lo` a multiple of `2^k`. */
  datatype Block = Block(lo: nat, k: nat)

  function End(b: Block): nat {
    b.lo + Pow2(b.k)
  }

  predicate In(b: Block, x: nat) {
    b.lo <= x < End(b)
  }

  ghost predicate Covers(list: seq<Block>, x: nat) {
    exists i :: 0 <= i < |list| && In(list[i], x)
  }

  ghost predicate SameCoverage(a: seq<Block>, b: seq<Block>) {
    forall x: nat :: Covers(a, x) <==> Covers(b, x)
  }

  ghost predicate Blocks(list: seq<Block>) {
    forall i :: 0 <= i < |list| ==> Aligned(list[i].lo, list[i].k)
  }

  ghost predicate Ascending(list: seq<Block>) {
    forall i, j :: 0 <= i < j < |list| ==> End(list[i]) <= list[j].lo
  }

  /** `a` and `b` are the lower and the upper half of one block. */
  predicate Siblings(a: Block, b: Block) {
    a.k == b.k && End(a) == b.lo && Aligned(a.lo, a.k + 1)
  }

  ghost predicate Canonical(list: seq<Block>) {
    && Blocks(list)
    && Ascending(list)
    && forall i :: 0 <= i < |list| - 1 ==> !Siblings(list[i], list[i + 1])
  }

  predicate Within(a: Block, b: Block) {
    b.lo <= a.lo && End(a) <= End(b)
  }

  lemma EndFacts(b: Block)
    ensures End(b) == b.lo + Pow2(b.k) && b.lo < End(b) && In(b, b.lo)
    ensures forall x: nat :: In(b, x) <==> b.lo <= x < End(b)
  {
  }

  lemma LargerContains(a: Block, b: Block, x: nat)
    requires Aligned(a.lo, a.k) && Aligned(b.lo, b.k) && a.k <= b.k && In(a, x) && In(b, x)
    ensures Within(a, b)
  {
    Nested(b.lo, b.k, a.lo, a.k);
  }

  lemma WithinSmaller(a: Block, b: Block)
    requires Within(a, b) && b.k <= a.k
    ensures a == b
  {
    Pow2Monotone(b.k, a.k);
  }

  lemma Halves(b: Block)
    requires b.k > 0 && Aligned(b.lo, b.k)
    ensures var l, r := Block(b.lo, b.k - 1), Block(b.lo + Pow2(b.k - 1), b.k - 1);
            && Aligned(l.lo, l.k) && Aligned(r.lo, r.k) && End(l) == r.lo && End(r) == End(b) && End(l) <= End(b)
  {
    AlignedDown(b.lo, b.k, b.k - 1);
    AlignedStep(b.lo, b.k - 1);
  }

  /** Nothing fits between two adjoining blocks of an ascending list. */
  lemma Adjoining(list: seq<Block>, i: nat, j: nat)
    requires Ascending(list) && i < |list| && j < |list| && End(list[i]) == list[j].lo
    ensures j == i + 1
  {
    EndFacts(list[i]);
    EndFacts(list[j]);
    if i + 1 < |list| {
      EndFacts(list[i + 1]);
    }
  }

  /** The blocks of a canonical list are the maximal ones: any block it covers lies inside one of them. */
  lemma {:induction false} CoveredBlockInside(list: seq<Block>, b: Block) returns (i: nat)
    requires Canonical(list) && Aligned(b.lo, b.k)
    requires forall x: nat :: In(b, x) ==> Covers(list, x)
    ensures i < |list| && Within(b, list[i])
    decreases b.k
  {
    EndFacts(b);
    if b.k == 0 {
      assert Covers(list, b.lo);
      i :| 0 <= i < |list| && In(list[i], b.lo);
    } else {
      Halves(b);
      var l, r := Block(b.lo, b.k - 1), Block(b.lo + Pow2(b.k - 1), b.k - 1);
      EndFacts(l);
      EndFacts(r);
      hide *;
      var i0 := CoveredBlockInside(list, l);
      var i1 := CoveredBlockInside(list, r);
      i := HalvesJoin(list, b, l, r, i0, i1);
    }
  }

  lemma HalvesJoin(list: seq<Block>, b: Block, l: Block, r: Block, i0: nat, i1: nat) returns (i: nat)
    requires Canonical(list) && Aligned(b.lo, b.k) && b.k > 0
    requires l == Block(b.lo, b.k - 1) && r.k == b.k - 1 && End(l) == r.lo
    requires End(r) == End(b) && End(l) <= End(b) && Aligned(r.lo, r.k)
    requires i0 < |list| && i1 < |list| && Within(l, list[i0]) && Within(r, list[i1])
    ensures i < |list| && Within(b, list[i])
  {
    EndFacts(l);
    EndFacts(r);
    EndFacts(b);
    EndFacts(list[i0]);
    EndFacts(list[i1]);
    if list[i0].k >= b.k {
      LargerContains(b, list[i0], l.lo);
      return i0;
    } else if list[i1].k >= b.k {
      LargerContains(b, list[i1], r.lo);
      return i1;
    } else {
      hide Aligned, Pow2;
      WithinSmaller(l, list[i0]);
      WithinSmaller(r, list[i1]);
      Adjoining(list, i0, i1);
      assert false;
    }
  }

  lemma OneBlockPerAddress(list: seq<Block>, i: nat, j: nat, x: nat)
    requires Ascending(list) && i < |list| && j < |list|
    ensures In(list[i], x) && In(list[j], x) ==> i == j
  {
  }

  ghost predicate Subset(a: seq<Block>, b: seq<Block>) {
    forall x :: x in a ==> x in b
  }

  lemma FirstIsFirst(a: seq<Block>, b: seq<Block>)
    requires Ascending(a) && Ascending(b) && |a| > 0 && |b| > 0 && a[0] in b && b[0] in a
    ensures a[0] == b[0]
  {
    var j :| 0 <= j < |b| && b[j] == a[0];
    var i :| 0 <= i < |a| && a[i] == b[0];
    EndFacts(b[0]);
    EndFacts(a[0]);
  }

  lemma RestSubset(a: seq<Block>, b: seq<Block>)
    requires Ascending(a) && |a| > 0 && |b| > 0 && a[0] == b[0] && Subset(a, b)
    ensures Subset(a[1..], b[1..])
  {
    EndFacts(a[0]);
    forall x | x in a[1..]
      ensures x in b[1..]
    {
      var i :| 0 < i < |a| && a[i] == x;
      assert x != a[0];
      assert x in a;
    }
  }

  lemma {:induction false} SameBlocks(a: seq<Block>, b: seq<Block>)
    requires Ascending(a) && Ascending(b) && Subset(a, b) && Subset(b, a)
    ensures a == b
    decreases |a|
  {
    assert |b| > 0 ==> b[0] in b;
    if |a| > 0 {
      assert a[0] in a;
      FirstIsFirst(a, b);
      RestSubset(a, b);
      RestSubset(b, a);
      SameBlocks(a[1..], b[1..]);
    }
  }

  /** Each block of one canonical list is a block of any other that covers the same addresses. */
  lemma SharedBlock(a: seq<Block>, b: seq<Block>, i: nat)
    requires Canonical(a) && Canonical(b) && SameCoverage(a, b) && i < |a|
    ensures a[i] in b
  {
    forall x: nat | In(a[i], x)
      ensures Covers(b, x)
    {
      assert Covers(a, x);
    }
    var j := CoveredBlockInside(b, a[i]);
    forall x: nat | In(b[j], x)
      ensures Covers(a, x)
    {
      assert Covers(b, x);
    }
    var i' := CoveredBlockInside(a, b[j]);
    EndFacts(a[i]);
    OneBlockPerAddress(a, i, i', a[i].lo);
    Extent(a[i], b[j]);
  }

  lemma Extent(a: Block, b: Block)
    requires a.lo == b.lo && End(a) == End(b)
    ensures a == b
  {
    if a.k < b.k {
      Pow2Monotone(a.k, b.k);
    } else if b.k < a.k {
      Pow2Monotone(b.k, a.k);
    }
  }

  /** There is only one canonical list for a set of addresses. */
  lemma CanonicalIsUnique(a: seq<Block>, b: seq<Block>)
    requires Canonical(a) && Canonical(b) && SameCoverage(a, b)
    ensures a == b
  {
    forall i | 0 <= i < |a|
      ensures a[i] in b
    {
      SharedBlock(a, b, i);
    }
    forall j | 0 <= j < |b|
      ensures b[j] in a
    {
      SharedBlock(b, a, j);
    }
    SameBlocks(a, b);
  }

  /** The list with two neighbours replaced by their union. */
  function Merged(list: seq<Block>, i: nat): seq<Block>
    requires i + 1 < |list|
  {
    list[..i] + [Block(list[i].lo, list[i].k + 1)] + list[i + 2..]
  }

  lemma UnionOf(a: Block, b: Block)
    requires Siblings(a, b)
    ensures var u := Block(a.lo, a.k + 1);
            Aligned(u.lo, u.k) && End(u) == End(b) && forall x: nat :: In(u, x) <==> In(a, x) || In(b, x)
  {
    assert Pow2(a.k + 1) == 2 * Pow2(a.k);
  }

  lemma MergedCovers(list: seq<Block>, i: nat, x: nat)
    requires i + 1 < |list| && Siblings(list[i], list[i + 1])
    ensures Covers(Merged(list, i), x) <==> Covers(list, x)
  {
    hide Siblings, In, End;
    UnionOf(list[i], list[i + 1]);
    var other := Merged(list, i);
    assert other[i] == Block(list[i].lo, list[i].k + 1);
    if Covers(list, x) {
      var j :| 0 <= j < |list| && In(list[j], x);
      assert In(other[if j <= i then j else j - 1], x);
    }
    if Covers(other, x) {
      var j :| 0 <= j < |other| && In(other[j], x);
      if j == i {
        assert In(list[i], x) || In(list[i + 1], x);
      } else {
        assert In(list[if j < i then j else j + 1], x);
      }
    }
  }

  /** A list in order that is not canonical is not shortest: its siblings can be merged. */
  lemma NotShortest(list: seq<Block>, limit: nat) returns (other: seq<Block>)
    requires Blocks(list) && Ascending(list) && !Canonical(list)
    requires forall i :: 0 <= i < |list| ==> End(list[i]) <= limit
    ensures Blocks(other) && SameCoverage(list, other) && |other| == |list| - 1
    ensures forall i :: 0 <= i < |other| ==> End(other[i]) <= limit
  {
    var i: nat :| 0 <= i < |list| - 1 && Siblings(list[i], list[i + 1]);
    other := Merged(list, i);
    UnionOf(list[i], list[i + 1]);
    hide Siblings, Aligned, End;
    forall j | 0 <= j < |other|
      ensures Aligned(other[j].lo, other[j].k) && End(other[j]) <= limit
    {
      if j != i {
        assert other[j] == list[if j < i then j else j + 1];
      }
    }
    forall x: nat
      ensures Covers(list, x) <==> Covers(other, x)
    {
      MergedCovers(list, i, x);
    }
  }

  lemma {:induction false} Pigeonhole(s: seq<nat>, n: nat)
    requires forall i :: 0 <= i < |s| ==> s[i] < n
    requires forall i, j :: 0 <= i < j < |s| ==> s[i] != s[j]
    ensures |s| <= n
    decreases n
  {
    if |s| > 0 {
      assert s[0] < n;
      if n - 1 in s {
        var i :| 0 <= i < |s| && s[i] == n - 1;
        var t := s[..i] + s[i + 1..];
        assert forall j {:trigger t[j]} :: 0 <= j < |t| ==> t[j] == s[if j < i then j else j + 1];
        Pigeonhole(t, n - 1);
      } else {
        assert forall i :: 0 <= i < |s| ==> s[i] in s;
        Pigeonhole(s, n - 1);
      }
    }
  }

  /** The block of `other` that covers the first address of `list[i]`, for each `i`: all different. */
  lemma {:induction false} Representatives(list: seq<Block>, other: seq<Block>, n: nat) returns (reps: seq<nat>)
    requires Canonical(list) && Blocks(other) && SameCoverage(list, other) && n <= |list|
    ensures |reps| == n
    ensures forall i :: 0 <= i < n ==> reps[i] < |other| && In(other[reps[i]], list[i].lo)
  {
    reps := [];
    if n > 0 {
      reps := Representatives(list, other, n - 1);
      EndFacts(list[n - 1]);
      assert Covers(list, list[n - 1].lo);
      assert Covers(other, list[n - 1].lo);
      var r :| 0 <= r < |other| && In(other[r], list[n - 1].lo);
      reps := reps + [r];
    }
  }

  /** No list of blocks covering the same addresses is shorter, whatever its order and its overlaps. */
  lemma CanonicalIsShortest(list: seq<Block>, other: seq<Block>)
    requires Canonical(list) && Blocks(other) && SameCoverage(list, other)
    ensures |list| <= |other|
  {
    var reps := Representatives(list, other, |list|);
    forall i, j | 0 <= i < j < |list|
      ensures reps[i] != reps[j]
    {
      var b := other[reps[i]];
      forall x: nat | In(b, x)
        ensures Covers(list, x)
      {
        assert Covers(other, x);
      }
      var g := CoveredBlockInside(list, b);
      EndFacts(list[i]);
      EndFacts(list[j]);
      OneBlockPerAddress(list, i, g, list[i].lo);
      OneBlockPerAddress(list, j, g, list[j].lo);
    }
    Pigeonhole(reps, |other|);
  }
}
