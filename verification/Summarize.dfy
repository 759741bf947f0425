/** `summarize_address_range` of `ipaddr.py`: the fewest networks that cover a range of addresses. */
module Summarize {
  import opened Wrappers
  import opened Powers
  import opened Bits
  import opened Alignment
  import opened Networks
  import opened Canonical

  datatype Error = ValueError

  function BlockOf(n: Net): Block
    requires Valid(n)
  {
    Block(Network(n), n.bits - n.prefix)
  }

  function BlocksOf(bits: nat, nets: seq<Net>): (blocks: seq<Block>)
    requires AllValid(bits, nets)
    ensures |blocks| == |nets|
    ensures forall i :: 0 <= i < |nets| ==> blocks[i] == BlockOf(nets[i])
  {
    if nets == [] then [] else [BlockOf(nets[0])] + BlocksOf(bits, nets[1..])
  }

  // ----- The bit counts

  /** `_count_righthand_zero_bits`, for a number of at most `bits` bits. */
  method CountRighthandZeroBits(number: nat, bits: nat) returns (r: nat)
    requires number < Pow2(bits)
    ensures r <= bits && Aligned(number, r)
    ensures if number == 0 then r == bits else !Aligned(number, r + 1)
  {
    hide *;
    if number == 0 {
      ZeroAligned(bits);
      return bits;
    }
    ZeroAligned(0);
    LowBit(number);
    for i := 0 to bits
      invariant Aligned(number, i)
    {
      ShrAligned(number, i);
      if Shr(number, i) % 2 != 0 {
        return i;
      }
    }
    AlignedZeroOnly(number, bits);
    assert false;
    return bits;
  }

  lemma ZeroAligned(k: nat)
    ensures Aligned(0, k)
  {
    AlignedIs(0, 0, k);
  }

  /** `_get_prefix_length`: how many of the first `bits` bits two numbers share. */
  method GetPrefixLength(number1: nat, number2: nat, bits: nat) returns (r: nat)
    ensures r <= bits
    ensures r > 0 ==> Shr(number1, bits - r) == Shr(number2, bits - r)
    ensures r < bits ==> Shr(number1, bits - r - 1) != Shr(number2, bits - r - 1)
  {
    for i := 0 to bits
      invariant i > 0 ==> Shr(number1, i - 1) != Shr(number2, i - 1)
    {
      if Shr(number1, i) == Shr(number2, i) {
        return bits - i;
      }
    }
    return 0;
  }

  /** The first and the last address of a block share exactly its prefix. */
  lemma BlockPrefix(lo: nat, k: nat, bits: nat, r: nat)
    requires Aligned(lo, k) && k <= bits && r <= bits && lo + Pow2(k) <= Pow2(bits)
    requires r > 0 ==> Shr(lo, bits - r) == Shr(lo + Pow2(k) - 1, bits - r)
    requires r < bits ==> Shr(lo, bits - r - 1) != Shr(lo + Pow2(k) - 1, bits - r - 1)
    ensures r == bits - k
  {
    hide *;
    var last := lo + Pow2(k) - 1;
    Pow2Step(k);
    if r < bits - k {
      SharedAbove(lo, k, bits - r - 1);
    } else if r > bits - k {
      DifferBelow(lo, k, bits - r);
    }
  }

  lemma SharedAbove(lo: nat, k: nat, j: nat)
    requires Aligned(lo, k) && k <= j
    ensures Shr(lo, j) == Shr(lo + Pow2(k) - 1, j)
    decreases j
  {
    hide *;
    Pow2Step(k);
    if j == k {
      ShrDivides(lo, k);
      ShrDivides(lo + Pow2(k) - 1, k);
      var q := Quotient(lo, k);
      DivisionIsUnique(lo, q, 0, Pow2(k));
      DivisionIsUnique(lo + Pow2(k) - 1, q, Pow2(k) - 1, Pow2(k));
    } else {
      SharedAbove(lo, k, j - 1);
      ShrStep(lo, j - 1);
      ShrStep(lo + Pow2(k) - 1, j - 1);
    }
  }

  lemma DifferBelow(lo: nat, k: nat, j: nat)
    requires Aligned(lo, k) && j < k
    ensures Shr(lo, j) != Shr(lo + Pow2(k) - 1, j)
    decreases k - j
  {
    hide *;
    Pow2Step(k - 1);
    if j == k - 1 {
      AlignedDown(lo, k, k - 1);
      var q := Quotient(lo, k - 1);
      var p := Pow2(k - 1);
      ShrDivides(lo, k - 1);
      ShrDivides(lo + Pow2(k) - 1, k - 1);
      MulAdds(q, 1, p);
      DivisionIsUnique(lo, q, 0, p);
      DivisionIsUnique(lo + Pow2(k) - 1, q + 1, p - 1, p);
    } else {
      DifferBelow(lo, k, j + 1);
      ShrStep(lo, j);
      ShrStep(lo + Pow2(k) - 1, j);
    }
  }

  // ----- What the loop builds

  /** The blocks follow each other without gap or overlap, from `from` up to but not including `to`. */
  ghost predicate Tiles(blocks: seq<Block>, from: nat, to: nat) {
    && (blocks == [] ==> from == to)
    && (blocks != [] ==> blocks[0].lo == from && End(blocks[|blocks| - 1]) == to)
    && forall i :: 0 <= i < |blocks| - 1 ==> End(blocks[i]) == blocks[i + 1].lo
  }

  /** The block ends by `last`, and the block of twice its size that starts where it does would not. */
  ghost predicate Greedy(b: Block, last: nat) {
    && Aligned(b.lo, b.k)
    && End(b) <= last + 1
    && (Aligned(b.lo, b.k + 1) ==> b.lo + 2 * Pow2(b.k) > last + 1)
  }

  ghost predicate AllGreedy(blocks: seq<Block>, last: nat) {
    forall i :: 0 <= i < |blocks| ==> Greedy(blocks[i], last)
  }

  lemma {:induction false} TilesAscend(blocks: seq<Block>, from: nat, to: nat, i: nat, j: nat)
    requires Tiles(blocks, from, to) && i < j < |blocks|
    ensures End(blocks[i]) <= blocks[j].lo
    decreases j
  {
    EndFacts(blocks[j - 1]);
    if i < j - 1 {
      TilesAscend(blocks, from, to, i, j - 1);
    }
  }

  lemma {:induction false} TilesCover(blocks: seq<Block>, from: nat, to: nat, x: nat)
    requires Tiles(blocks, from, to)
    ensures Covers(blocks, x) <==> from <= x < to
    decreases |blocks|
  {
    if |blocks| > 0 {
      hide Pow2, End;
      var n := |blocks| - 1;
      var init := blocks[..n];
      EndFacts(blocks[n]);
      assert Tiles(init, from, blocks[n].lo);
      TilesCover(init, from, blocks[n].lo, x);
      if Covers(init, x) {
        var i :| 0 <= i < |init| && In(init[i], x);
        assert In(blocks[i], x);
      }
      if Covers(blocks, x) && !In(blocks[n], x) {
        var i :| 0 <= i < |blocks| && In(blocks[i], x);
        assert In(init[i], x);
      }
      TilesGrow(init, from, blocks[n].lo);
    }
  }

  lemma {:induction false} TilesGrow(blocks: seq<Block>, from: nat, to: nat)
    requires Tiles(blocks, from, to)
    ensures from <= to
  {
    if |blocks| > 0 {
      EndFacts(blocks[|blocks| - 1]);
      EndFacts(blocks[0]);
      if |blocks| > 1 {
        TilesAscend(blocks, from, to, 0, |blocks| - 1);
      }
    }
  }

  /** A greedy tiling of a range is its canonical list. */
  lemma GreedyTilesAreCanonical(blocks: seq<Block>, first: nat, last: nat)
    requires Tiles(blocks, first, last + 1) && AllGreedy(blocks, last)
    ensures Canonical.Canonical(blocks)
  {
    hide Pow2, End, Aligned;
    forall i, j | 0 <= i < j < |blocks|
      ensures End(blocks[i]) <= blocks[j].lo
    {
      TilesAscend(blocks, first, last + 1, i, j);
    }
    forall i | 0 <= i < |blocks| - 1
      ensures !Siblings(blocks[i], blocks[i + 1])
    {
      EndFacts(blocks[i]);
      EndFacts(blocks[i + 1]);
    }
  }

  // ----- How many blocks there can be

  lemma TilesTail(blocks: seq<Block>, from: nat, to: nat)
    requires Tiles(blocks, from, to) && |blocks| > 0
    ensures blocks[0].lo == from && from < End(blocks[0]) <= to
    ensures Tiles(blocks[1..], End(blocks[0]), to)
    ensures forall last :: AllGreedy(blocks, last) ==> Greedy(blocks[0], last) && AllGreedy(blocks[1..], last)
  {
    EndFacts(blocks[0]);
    TilesGrow(blocks[1..], End(blocks[0]), to);
  }

  /** Less than a block of `2^a` takes at most `a` blocks, from an address aligned to it. */
  lemma {:induction false} ShrinkingCount(blocks: seq<Block>, from: nat, last: nat, a: nat)
    requires Tiles(blocks, from, last + 1) && AllGreedy(blocks, last)
    requires Aligned(from, a) && last + 1 < from + Pow2(a)
    ensures |blocks| <= a
    decreases |blocks|
  {
    if |blocks| > 0 {
      hide *;
      TilesTail(blocks, from, last + 1);
      var e := blocks[0].k;
      EndFacts(blocks[0]);
      GreedyFacts(blocks[0], last);
      Pow2Step(e);
      if e >= a {
        Pow2Monotone(a, e);
      } else {
        AlignedDown(from, a, e + 1);
        AlignedStep(from, e);
        ShrinkingCount(blocks[1..], End(blocks[0]), last, e);
      }
    }
  }

  lemma GreedyFacts(b: Block, last: nat)
    requires Greedy(b, last)
    ensures Aligned(b.lo, b.k) && End(b) <= last + 1
    ensures Aligned(b.lo, b.k + 1) ==> b.lo + 2 * Pow2(b.k) > last + 1
  {
  }

  /** Past an address aligned to `2^a`, other than zero, the blocks first grow and then shrink. */
  lemma {:induction false} GrowingCount(blocks: seq<Block>, from: nat, last: nat, a: nat, bits: nat)
    requires Tiles(blocks, from, last + 1) && AllGreedy(blocks, last)
    requires 0 < from && last < Pow2(bits) && Aligned(from, a) && a < bits && bits >= 2
    ensures |blocks| <= 2 * bits - 2 - a
    decreases |blocks|
  {
    if |blocks| > 0 {
      hide *;
      TilesTail(blocks, from, last + 1);
      var e := blocks[0].k;
      EndFacts(blocks[0]);
      GreedyFacts(blocks[0], last);
      Pow2Step(e);
      if e >= bits {
        Pow2Monotone(bits, e);
      } else if Aligned(from, e + 1) {
        AlignedStep(from, e);
        ShrinkingCount(blocks[1..], End(blocks[0]), last, e);
        if e + 1 >= bits {
          AlignedDown(from, e + 1, bits);
          AlignedZeroOnly(from, bits);
        }
      } else {
        if e < a {
          AlignedDown(from, a, e + 1);
        }
        AlignedStep(from, e);
        if blocks[1..] != [] {
          TilesTail(blocks[1..], End(blocks[0]), last + 1);
          EndFacts(blocks[1..][0]);
          if e + 1 >= bits {
            AlignedDown(End(blocks[0]), e + 1, bits);
            AlignedZeroOnly(End(blocks[0]), bits);
          } else {
            GrowingCount(blocks[1..], End(blocks[0]), last, e + 1, bits);
          }
        }
      }
    }
  }

  /** A range of `bits`-bit addresses takes at most `2 * bits - 2` blocks. */
  lemma RangeCount(blocks: seq<Block>, first: nat, last: nat, bits: nat)
    requires Tiles(blocks, first, last + 1) && AllGreedy(blocks, last)
    requires first <= last < Pow2(bits) && bits >= 2
    ensures |blocks| <= 2 * bits - 2
  {
    hide *;
    if first > 0 {
      LowBit(first);
      GrowingCount(blocks, first, last, 0, bits);
    } else {
      ZeroAligned(bits);
      if last + 1 < Pow2(bits) {
        ShrinkingCount(blocks, first, last, bits);
      } else {
        WholeSpaceCount(blocks, last, bits);
      }
    }
  }

  lemma WholeSpaceCount(blocks: seq<Block>, last: nat, bits: nat)
    requires Tiles(blocks, 0, last + 1) && AllGreedy(blocks, last) && last + 1 == Pow2(bits)
    ensures |blocks| == 1
  {
    hide *;
    TilesSome(blocks, 0, last + 1);
    TilesTail(blocks, 0, last + 1);
    var e := blocks[0].k;
    GreedyFacts(blocks[0], last);
    EndFacts(blocks[0]);
    ZeroAligned(e + 1);
    Pow2Step(e);
    if e < bits {
      Pow2Monotone(e + 1, bits);
    } else if blocks[1..] != [] {
      Pow2Monotone(bits, e);
      TilesTail(blocks[1..], End(blocks[0]), last + 1);
    }
  }

  lemma TilesSome(blocks: seq<Block>, from: nat, to: nat)
    requires Tiles(blocks, from, to) && from < to
    ensures |blocks| > 0
  {
  }

  // ----- The summary

  /** Networks that are exactly the given blocks, with no host bits set. */
  ghost predicate Denote(bits: nat, nets: seq<Net>, blocks: seq<Block>) {
    && |nets| == |blocks|
    && forall i :: 0 <= i < |nets| ==>
         blocks[i].k <= bits && nets[i] == Net(bits, blocks[i].lo, bits - blocks[i].k) &&
           blocks[i].lo < Pow2(bits) && Aligned(blocks[i].lo, blocks[i].k)
  }

  lemma DenoteMeans(bits: nat, nets: seq<Net>, blocks: seq<Block>)
    requires bits > 0 && Denote(bits, nets, blocks)
    ensures AllValid(bits, nets)
    ensures BlocksOf(bits, nets) == blocks
    ensures forall i :: 0 <= i < |nets| ==> HostBitsZero(nets[i])
  {
    forall i | 0 <= i < |nets|
      ensures Valid(nets[i]) && HostBitsZero(nets[i]) && BlockOf(nets[i]) == blocks[i]
    {
      hide Network, Broadcast, Pow2, Aligned;
      BlockBounds(nets[i]);
    }
  }

  /** The widest block from `first` that its alignment and `last` allow. */
  method WidestBlock(first: nat, last: nat, bits: nat) returns (current: nat, ghost b: Block)
    requires first <= last < Pow2(bits)
    ensures first <= current <= last
    ensures b.lo == first && b.k <= bits && Greedy(b, last) && current + 1 == End(b)
  {
    var zeros := CountRighthandZeroBits(first, bits);
    var nbits: int := zeros;
    hide *;
    current := first;
    while nbits >= 0
      invariant -1 <= nbits <= zeros
      invariant nbits < zeros ==> last + 1 < first + Pow2(nbits + 1)
      invariant nbits >= 0
    {
      ghost var k: nat := nbits;
      Pow2Step(k);
      var addend := Pow2(nbits) - 1;
      current := first + addend;
      nbits := nbits - 1;
      b := Block(first, k);
      EndFacts(b);
      if current <= last {
        AlignedDown(first, zeros, k);
        if k == zeros && Aligned(first, k + 1) {
          Pow2Monotone(bits, k + 1);
        }
        GreedyIs(b, last);
        return;
      }
      if nbits < 0 {
        Pow2Zero();
      }
    }
    assert false;
  }

  lemma Pow2Zero()
    ensures Pow2(0) == 1
  {
  }

  lemma GreedyIs(b: Block, last: nat)
    requires Aligned(b.lo, b.k) && b.lo + Pow2(b.k) <= last + 1
    requires Aligned(b.lo, b.k + 1) ==> b.lo + Pow2(b.k + 1) > last + 1
    ensures Greedy(b, last)
  {
  }

  /**
   What the summary of a range is: its canonical list of networks, with no host bits.  They
   tile the range in order, no list of networks covering it is shorter, and there are at
   most `2 * bits - 2`.
   */
  ghost predicate Summary(bits: nat, first: nat, last: nat, nets: seq<Net>)
    requires AllValid(bits, nets)
  {
    && (forall i :: 0 <= i < |nets| ==> HostBitsZero(nets[i]))
    && Tiles(BlocksOf(bits, nets), first, last + 1)
    && Canonical.Canonical(BlocksOf(bits, nets))
    && (forall x: nat :: Covers(BlocksOf(bits, nets), x) <==> first <= x <= last)
    && (bits >= 2 ==> |nets| <= 2 * bits - 2)
  }

  lemma BlocksSummarize(bits: nat, first: nat, last: nat, nets: seq<Net>, blocks: seq<Block>)
    requires bits > 0 && first <= last < Pow2(bits)
    requires Tiles(blocks, first, last + 1) && AllGreedy(blocks, last) && Denote(bits, nets, blocks)
    ensures AllValid(bits, nets) && Summary(bits, first, last, nets)
  {
    DenoteMeans(bits, nets, blocks);
    GreedyTilesAreCanonical(blocks, first, last);
    forall x: nat
      ensures Covers(blocks, x) <==> first <= x <= last
    {
      TilesCover(blocks, first, last + 1, x);
    }
    if bits >= 2 {
      RangeCount(blocks, first, last, bits);
    }
  }

  method SummarizeAddressRange(bits: nat, first: nat, last: nat) returns (r: Result<seq<Net>, Error>)
    requires bits > 0 && first < Pow2(bits) && last < Pow2(bits)
    ensures r.Err? <==> first > last
    ensures r.Ok? ==> AllValid(bits, r.value) && Summary(bits, first, last, r.value)
  {
    hide *;
    if first > last {
      return Err(ValueError);
    }
    NoBlocks(bits, first, last);
    var networks: seq<Net> := [];
    var firstInt := first;
    ghost var blocks: seq<Block> := [];
    ghost var done := first;
    while firstInt <= last
      invariant firstInt <= last + 1 && firstInt == done
      invariant Tiles(blocks, first, done) && AllGreedy(blocks, last) && Denote(bits, networks, blocks)
      decreases last + 1 - firstInt
    {
      ghost var b;
      var current;
      current, b := WidestBlock(firstInt, last, bits);
      OneMoreBlock(bits, networks, blocks, first, last, b);
      var prefix := GetPrefixLength(firstInt, current, bits);
      BlockPrefix(firstInt, b.k, bits, prefix);
      var net := Net(bits, firstInt, prefix);
      networks := networks + [net];
      blocks := blocks + [b];
      done := current + 1;
      if current == AllOnes(bits) {
        break;
      }
      firstInt := current + 1;
    }
    assert done == last + 1;
    BlocksSummarize(bits, first, last, networks, blocks);
    return Ok(networks);
  }

  lemma NoBlocks(bits: nat, first: nat, last: nat)
    ensures Tiles([], first, first) && AllGreedy([], last) && Denote(bits, [], [])
    ensures AllOnes(bits) + 1 == Pow2(bits)
  {
  }

  lemma OneMoreTile(blocks: seq<Block>, first: nat, b: Block)
    requires Tiles(blocks, first, b.lo)
    ensures Tiles(blocks + [b], first, End(b))
  {
    hide Pow2, End;
  }

  lemma OneMoreNet(bits: nat, networks: seq<Net>, blocks: seq<Block>, b: Block)
    requires Denote(bits, networks, blocks) && b.k <= bits && b.lo < Pow2(bits) && Aligned(b.lo, b.k)
    ensures Denote(bits, networks + [Net(bits, b.lo, bits - b.k)], blocks + [b])
  {
    hide Pow2, Aligned;
  }

  lemma OneMoreGreedy(blocks: seq<Block>, last: nat, b: Block)
    requires AllGreedy(blocks, last) && Greedy(b, last)
    ensures AllGreedy(blocks + [b], last)
  {
    hide Greedy;
  }

  lemma OneMoreBlock(bits: nat, networks: seq<Net>, blocks: seq<Block>, first: nat, last: nat, b: Block)
    requires Tiles(blocks, first, b.lo) && AllGreedy(blocks, last) && Denote(bits, networks, blocks)
    requires Greedy(b, last) && b.k <= bits && last < Pow2(bits)
    ensures Tiles(blocks + [b], first, End(b)) && AllGreedy(blocks + [b], last)
    ensures Denote(bits, networks + [Net(bits, b.lo, bits - b.k)], blocks + [b])
    ensures b.lo < End(b) <= last + 1 && b.lo + Pow2(b.k) == End(b) && Aligned(b.lo, b.k)
  {
    hide *;
    EndFacts(b);
    GreedyFacts(b, last);
    OneMoreTile(blocks, first, b);
    OneMoreGreedy(blocks, last, b);
    OneMoreNet(bits, networks, blocks, b);
  }
}
