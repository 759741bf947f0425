/**
 What `collapse_address_list` is said to return is one list and no other: its blocks are the largest
 that are covered and have no frozen network strictly inside, and one network stands for each.
 */
module CollapseResult {
  import opened Powers
  import opened Alignment
  import opened Networks
  import opened Canonical
  import opened Summarize
  import opened Collapse
  import opened CollapseList

  /** A covered block with no frozen network strictly inside. */
  ghost predicate Clean(bits: nat, items: seq<Item>, b: Block)
    requires ValidItems(bits, items)
  {
    && Aligned(b.lo, b.k)
    && (forall x: nat :: In(b, x) ==> Covered(bits, items, x))
    && forall d :: Frozen(bits, items, d) && Valid(d) && Within(BlockOf(d), b) ==> BlockOf(d) == b
  }

  lemma CleanParts(bits: nat, items: seq<Item>, b: Block)
    requires ValidItems(bits, items) && Clean(bits, items, b)
    ensures Aligned(b.lo, b.k) && forall x: nat :: In(b, x) ==> Covered(bits, items, x)
    ensures forall d :: Frozen(bits, items, d) && Valid(d) && Within(BlockOf(d), b) ==> BlockOf(d) == b
  {
    hide Aligned, In, Covered, Frozen, Within, BlockOf, Valid;
  }

  lemma CleanIs(bits: nat, items: seq<Item>, b: Block)
    requires ValidItems(bits, items) && Aligned(b.lo, b.k) && forall x: nat :: In(b, x) ==> Covered(bits, items, x)
    requires forall d :: Frozen(bits, items, d) && Valid(d) && Within(BlockOf(d), b) ==> BlockOf(d) == b
    ensures Clean(bits, items, b)
  {
    hide Aligned, In, Covered, Frozen, Within, BlockOf, Valid;
  }

  lemma ResultParts(bits: nat, items: seq<Item>, r: seq<Net>)
    requires ValidItems(bits, items) && Collapsed(bits, items, r)
    ensures AllValid(bits, r) && AscendingNets(bits, r) && NothingToMerge(bits, r)
    ensures forall x: nat :: InAny(bits, r, x) <==> Covered(bits, items, x)
    ensures forall n :: n in r ==> StandsFor(bits, items, n)
    ensures forall n :: n in r && Unmergeable(n) ==> Frozen(bits, items, n)
    ensures forall d :: Frozen(bits, items, d) ==> exists n :: n in r && Same(n, d)
  {
    hide StandsFor, Unmergeable, Frozen, Same, Blocked, InAny, Covered, Canonical.Canonical;
  }

  lemma BlockHolds(n: Net, x: nat)
    requires Valid(n)
    ensures InNet(n, x) <==> In(BlockOf(n), x)
  {
    hide Network, Broadcast;
    NetBlock(n);
    EndFacts(BlockOf(n));
  }

  lemma SameBlocksOf(n: Net, d: Net)
    requires Valid(n) && Valid(d)
    ensures Same(n, d) <==> BlockOf(n) == BlockOf(d)
    ensures Inside(d, n) <==> Within(BlockOf(d), BlockOf(n))
  {
    hide Network, Broadcast, Pow2, Aligned, BlockOf, Inside;
    WithinIsInside(n, d);
    WithinIsInside(d, n);
    if Same(n, d) {
      Extent(BlockOf(n), BlockOf(d));
    }
    if BlockOf(n) == BlockOf(d) {
      assert Within(BlockOf(n), BlockOf(d)) && Within(BlockOf(d), BlockOf(n));
    }
  }

  lemma WithinIsInside(n: Net, d: Net)
    requires Valid(n) && Valid(d)
    ensures Inside(d, n) <==> Within(BlockOf(d), BlockOf(n))
  {
    hide Network, Broadcast, Pow2, Aligned, BlockOf;
    NetBlock(n);
    NetBlock(d);
    if Inside(d, n) {
      assert InNet(d, Network(d)) && InNet(d, Broadcast(d));
    }
  }

  /** The blocks of the result are clean. */
  lemma ResultIsClean(bits: nat, items: seq<Item>, r: seq<Net>, n: Net)
    requires ValidItems(bits, items) && Collapsed(bits, items, r) && n in r
    ensures Valid(n) && Clean(bits, items, BlockOf(n))
  {
    hide *;
    ResultParts(bits, items, r);
    Members(bits, r);
    NetBlock(n);
    forall x: nat | In(BlockOf(n), x)
      ensures Covered(bits, items, x)
    {
      BlockHolds(n, x);
      var i := MemberIndex(r, n);
      InAnyOf(bits, r, i, x);
    }
    forall d | Frozen(bits, items, d) && Valid(d) && Within(BlockOf(d), BlockOf(n))
      ensures BlockOf(d) == BlockOf(n)
    {
      var m :| m in r && Same(m, d);
      SameIs(m, d);
      FirstInNet(d);
      SameBlocksOf(n, d);
      InsideAt(d, m, Network(d));
      InsideAt(d, n, Network(d));
      OnlyOne(bits, r, m, n, Network(d));
      SameBlocksOf(n, d);
    }
    CleanIs(bits, items, BlockOf(n));
  }

  lemma HalfIsClean(bits: nat, items: seq<Item>, b: Block, h: Block)
    requires ValidItems(bits, items) && Clean(bits, items, b) && Within(h, b) && h.k < b.k && Aligned(h.lo, h.k)
    ensures Clean(bits, items, h)
  {
    hide Aligned, Covered, Frozen, BlockOf, Valid, Pow2;
    forall d | Frozen(bits, items, d) && Valid(d) && Within(BlockOf(d), h)
      ensures BlockOf(d) == h
    {
      assert Within(BlockOf(d), b);
      assert BlockOf(d) == b;
      WithinSmaller(b, h);
    }
  }

  /** Where a clean block ends up: inside a block of the result. */
  lemma {:induction false} CleanBlockInside(bits: nat, items: seq<Item>, r: seq<Net>, b: Block) returns (n: Net)
    requires ValidItems(bits, items) && Collapsed(bits, items, r) && Clean(bits, items, b)
    ensures n in r && Valid(n) && Within(b, BlockOf(n))
    decreases b.k
  {
    hide *;
    ResultParts(bits, items, r);
    Members(bits, r);
    CleanParts(bits, items, b);
    EndFacts(b);
    if b.k == 0 {
      n := HolderOf(bits, r, b.lo);
      BlockHolds(n, b.lo);
      OneAddress(b, BlockOf(n));
    } else {
      Halves(b);
      var l, u := Block(b.lo, b.k - 1), Block(b.lo + Pow2(b.k - 1), b.k - 1);
      EndFacts(l);
      EndFacts(u);
      HalvesWithin(b, l, u);
      HalfIsClean(bits, items, b, l);
      HalfIsClean(bits, items, b, u);
      var m := CleanBlockInside(bits, items, r, l);
      var m' := CleanBlockInside(bits, items, r, u);
      n := HalvesMeet(bits, items, r, b, l, u, m, m');
    }
  }

  lemma HolderOf(bits: nat, r: seq<Net>, x: nat) returns (n: Net)
    requires AllValid(bits, r) && InAny(bits, r, x)
    ensures n in r && Valid(n) && InNet(n, x)
  {
    hide InNet, Valid;
    var i :| 0 <= i < |r| && InNet(r[i], x);
    n := r[i];
  }

  lemma OneAddress(b: Block, c: Block)
    requires b.k == 0 && In(c, b.lo)
    ensures Within(b, c)
  {
    assert Pow2(0) == 1;
  }

  lemma HalvesWithin(b: Block, l: Block, u: Block)
    requires End(l) == u.lo && End(u) == End(b) && End(l) <= End(b) && l.lo == b.lo && b.lo <= u.lo
    ensures Within(l, b) && Within(u, b)
  {
    hide End;
  }

  /** Two halves of a clean block are not left side by side: the upper one would be frozen. */
  lemma HalvesMeet(bits: nat, items: seq<Item>, r: seq<Net>, b: Block, l: Block, u: Block, m: Net, m': Net)
    returns (n: Net)
    requires ValidItems(bits, items) && Collapsed(bits, items, r) && Clean(bits, items, b)
    requires b.k > 0 && l == Block(b.lo, b.k - 1) && u.k == b.k - 1 && End(l) == u.lo && End(u) == End(b)
    requires m in r && m' in r && Valid(m) && Valid(m') && Within(l, BlockOf(m)) && Within(u, BlockOf(m'))
    ensures n in r && Valid(n) && Within(b, BlockOf(n))
  {
    hide *;
    ResultParts(bits, items, r);
    Members(bits, r);
    CleanParts(bits, items, b);
    EndFacts(b);
    EndFacts(l);
    EndFacts(u);
    NetBlock(m);
    NetBlock(m');
    WithinIs(l, BlockOf(m));
    WithinIs(u, BlockOf(m'));
    EndFacts(BlockOf(m));
    EndFacts(BlockOf(m'));
    if BlockOf(m).k >= b.k {
      LargerContains(b, BlockOf(m), l.lo);
      return m;
    } else if BlockOf(m').k >= b.k {
      LargerContains(b, BlockOf(m'), u.lo);
      return m';
    }
    WithinSmaller(l, BlockOf(m));
    WithinSmaller(u, BlockOf(m'));
    AreSiblings(b, l, u);
    SideBySide(bits, r, m, m');
    SiblingNets(m, m');
    UnmergeableIs(m');
    SizesOf(m');
    BlockIs(m');
    UpperIsWithin(b, l, u);
    n := m;
    assert false;
  }

  lemma BlockIs(n: Net)
    requires Valid(n)
    ensures BlockOf(n) == Block(Network(n), n.bits - n.prefix)
  {
  }

  lemma SizesOf(n: Net)
    requires Valid(n)
    ensures n.prefix <= n.bits
  {
  }

  lemma WithinIs(a: Block, b: Block)
    ensures Within(a, b) <==> b.lo <= a.lo && End(a) <= End(b)
  {
  }

  lemma AreSiblings(b: Block, l: Block, u: Block)
    requires b.k > 0 && Aligned(b.lo, b.k) && l == Block(b.lo, b.k - 1) && u.k == b.k - 1 && End(l) == u.lo
    ensures Siblings(l, u)
  {
    hide Aligned, End;
  }

  lemma UpperIsWithin(b: Block, l: Block, u: Block)
    requires l.lo == b.lo && End(l) == u.lo && End(u) == End(b) && u.k < b.k
    ensures Within(u, b) && u != b
  {
  }

  /** Siblings of an ascending list follow each other, and the upper one does not merge. */
  lemma SideBySide(bits: nat, r: seq<Net>, m: Net, m': Net)
    requires AllValid(bits, r) && AscendingNets(bits, r) && NothingToMerge(bits, r) && m in r && m' in r
    requires Valid(m) && Valid(m') && End(BlockOf(m)) == BlockOf(m').lo
    ensures m' != UpperSibling(m)
  {
    hide Network, Broadcast, Aligned, Pow2, UpperSibling, Valid, End;
    NetBlock(m);
    NetBlock(m');
    var i :| 0 <= i < |r| && r[i] == m;
    var j :| 0 <= j < |r| && r[j] == m';
    if i + 1 < |r| {
      NetBlock(r[i + 1]);
    }
    assert j == i + 1;
  }

  // ----- One result

  lemma StandsForParts(bits: nat, items: seq<Item>, n: Net)
    requires StandsFor(bits, items, n) && Valid(n)
    ensures (exists d :: Netw(d) in items && Same(n, d)) &&
              (exists x: nat :: InNet(n, x) && !Listed(bits, items, x)) ==>
              Netw(n) in items && forall d :: Netw(d) in items && Same(n, d) ==> n.ip <= d.ip
    ensures !((exists d :: Netw(d) in items && Same(n, d)) &&
                (exists x: nat :: InNet(n, x) && !Listed(bits, items, x))) ==>
              HostBitsZero(n)
  {
    hide Same, InNet, Listed, HostBitsZero, Valid;
  }

  lemma SameIsEquivalence(a: Net, b: Net, c: Net)
    ensures Same(a, b) ==> Same(b, a) && Same(a, a)
    ensures Same(a, b) ==> (Same(a, c) <==> Same(b, c))
    ensures Same(a, b) ==> Valid(a) && Valid(b) && forall x: nat :: InNet(a, x) <==> InNet(b, x)
  {
    hide InNet, Valid;
  }

  /** One block, one network. */
  lemma SameStands(bits: nat, items: seq<Item>, n: Net, m: Net)
    requires StandsFor(bits, items, n) && StandsFor(bits, items, m) && Same(n, m) && n.bits == m.bits == bits
    ensures n == m
  {
    hide *;
    SameIs(n, m);
    SameIsEquivalence(n, m, n);
    SameBlocksOf(n, m);
    BlockIs(n);
    BlockIs(m);
    SizesOf(n);
    SizesOf(m);
    StandsForParts(bits, items, n);
    StandsForParts(bits, items, m);
    ContainsIs(n, n);
    ContainsIs(m, m);
    forall d
      ensures Same(n, d) <==> Same(m, d)
    {
      SameIsEquivalence(n, m, d);
    }
    if d, x: nat :| Netw(d) in items && Same(n, d) && InNet(n, x) && !Listed(bits, items, x) {
      assert Netw(d) in items && Same(m, d);
      assert InNet(m, x) && !Listed(bits, items, x);
      assert n.ip <= m.ip && m.ip <= n.ip;
    } else {
      assert HostBitsZero(n) && HostBitsZero(m);
    }
  }

  lemma SharedMember(bits: nat, items: seq<Item>, r: seq<Net>, r': seq<Net>, n: Net)
    requires ValidItems(bits, items) && Collapsed(bits, items, r) && Collapsed(bits, items, r') && n in r
    ensures n in r'
  {
    hide *;
    ResultParts(bits, items, r);
    ResultParts(bits, items, r');
    Members(bits, r);
    Members(bits, r');
    ResultIsClean(bits, items, r, n);
    var m := CleanBlockInside(bits, items, r', BlockOf(n));
    ResultIsClean(bits, items, r', m);
    var n' := CleanBlockInside(bits, items, r, BlockOf(m));
    SameBlocksOf(m, n);
    SameBlocksOf(n', m);
    FirstInNet(n);
    InsideAt(n, m, Network(n));
    InsideAt(m, n', Network(n));
    OnlyOne(bits, r, n, n', Network(n));
    SameIs(n, m);
    SameStands(bits, items, n, m);
  }

  lemma {:induction false} SameMembers(bits: nat, r: seq<Net>, r': seq<Net>, i: nat)
    requires AllValid(bits, r) && AllValid(bits, r') && AscendingNets(bits, r) && AscendingNets(bits, r')
    requires forall n :: n in r <==> n in r'
    requires i <= |r| && i <= |r'| && r[..i] == r'[..i]
    ensures r == r'
    decreases |r| - i
  {
    hide *;
    if i < |r| || i < |r'| {
      if i < |r| {
        assert r[i] in r && r[i] in r';
        var j := NextPlace(bits, r, r', i);
        OrderedPair(bits, r', i, j);
      }
      if i < |r'| {
        assert r'[i] in r' && r'[i] in r;
        var k := NextPlace(bits, r', r, i);
        OrderedPair(bits, r, i, k);
      }
      assert r[..i + 1] == r[..i] + [r[i]] && r'[..i + 1] == r'[..i] + [r'[i]];
      SameMembers(bits, r, r', i + 1);
    } else {
      assert r[..i] == r && r'[..i] == r';
    }
  }

  /** The next network of one list comes no earlier in another that begins the same. */
  lemma NextPlace(bits: nat, r: seq<Net>, r': seq<Net>, i: nat) returns (j: nat)
    requires AllValid(bits, r) && AscendingNets(bits, r)
    requires i < |r| && i <= |r'| && r[..i] == r'[..i] && r[i] in r'
    ensures i <= j < |r'| && r'[j] == r[i]
  {
    hide *;
    j := MemberIndex(r', r[i]);
    NotBefore(bits, r, r', i, j);
  }

  /** What stands at `i` in one list does not stand earlier in another that begins the same. */
  lemma NotBefore(bits: nat, r: seq<Net>, r': seq<Net>, i: nat, j: nat)
    requires AllValid(bits, r) && AscendingNets(bits, r)
    requires i < |r| && i <= |r'| && j < |r'| && r[..i] == r'[..i] && r'[j] == r[i]
    ensures j >= i
  {
    hide Network, Broadcast, Valid;
    if j < i {
      assert r[j] == r[..i][j] == r'[..i][j] == r'[j];
      BlockBounds(r[j]);
      assert false;
    }
  }

  lemma OrderedPair(bits: nat, r: seq<Net>, i: nat, j: nat)
    requires AllValid(bits, r) && AscendingNets(bits, r) && i <= j < |r|
    ensures Valid(r[i]) && Valid(r[j]) && Network(r[i]) <= Network(r[j])
    ensures i < j ==> Network(r[i]) < Network(r[j])
  {
    hide Network, Broadcast, Valid;
    BlockBounds(r[i]);
  }

  /** Only one list is what `collapse_address_list` is said to return. */
  lemma CollapsedIsUnique(bits: nat, items: seq<Item>, r: seq<Net>, r': seq<Net>)
    requires ValidItems(bits, items) && Collapsed(bits, items, r) && Collapsed(bits, items, r')
    ensures r == r'
  {
    hide *;
    ResultParts(bits, items, r);
    ResultParts(bits, items, r');
    forall n
      ensures n in r <==> n in r'
    {
      if n in r {
        SharedMember(bits, items, r, r', n);
      }
      if n in r' {
        SharedMember(bits, items, r', r, n);
      }
    }
    assert r[..0] == r'[..0];
    SameMembers(bits, r, r', 0);
  }

  // ----- A list of one network

  lemma LoneItem(bits: nat, n: Net)
    requires Valid(n) && n.bits == bits && n.prefix < bits
    ensures ValidItems(bits, [Netw(n)])
    ensures forall x: nat :: !Listed(bits, [Netw(n)], x) && (Covered(bits, [Netw(n)], x) <==> InNet(n, x))
    ensures forall d :: Netw(d) in [Netw(n)] <==> d == n
    ensures AllValid(bits, [n]) && forall x: nat :: InAny(bits, [n], x) <==> InNet(n, x)
  {
    hide Network, Broadcast, Valid;
    forall x: nat
      ensures Covered(bits, [Netw(n)], x) <==> InNet(n, x)
      ensures InAny(bits, [n], x) <==> InNet(n, x)
    {
      if InNet(n, x) {
        assert [Netw(n)][0] == Netw(n) && [n][0] == n;
      }
    }
    assert forall x: nat :: Net(bits, x, bits) != n;
  }

  lemma LoneStands(bits: nat, n: Net)
    requires Valid(n) && n.bits == bits && n.prefix < bits
    ensures StandsFor(bits, [Netw(n)], n)
    ensures Unmergeable(n) ==> Frozen(bits, [Netw(n)], n)
    ensures forall d :: Frozen(bits, [Netw(n)], d) ==> d == n && Unmergeable(n)
  {
    hide Network, Broadcast, Aligned, Listed;
    LoneItem(bits, n);
    BlockBounds(n);
    SameIs(n, n);
    assert InNet(n, n.ip) && !Listed(bits, [Netw(n)], n.ip);
  }

  lemma LoneUnblocked(bits: nat, n: Net, d: Net)
    requires Valid(n) && n.bits == bits && n.prefix < bits
    ensures ValidItems(bits, [Netw(n)]) && !Blocked(bits, [Netw(n)], d)
  {
    hide Network, Broadcast, Aligned, Covered, Frozen, StandsFor, Unmergeable;
    LoneItem(bits, n);
    LoneStands(bits, n);
    BlockBounds(n);
    if Frozen(bits, [Netw(n)], d) {
      FrozenBelow(n);
      var x: nat := Network(n) - 1;
      assert Network(d) - Size(d) <= x < Network(d) && !Covered(bits, [Netw(n)], x);
    }
  }

  lemma FrozenBelow(n: Net)
    requires Valid(n)
    ensures Unmergeable(n) ==> Network(n) > 0
  {
    hide Network, Broadcast, Aligned, Pow2;
    AlignedIs(0, 0, n.bits - n.prefix + 1);
  }

  /** Nothing is done to a single network: it keeps its host bits. */
  lemma LoneNetwork(bits: nat, n: Net, r: seq<Net>)
    requires Valid(n) && n.bits == bits && n.prefix < bits
    requires ValidItems(bits, [Netw(n)]) && Collapsed(bits, [Netw(n)], r)
    ensures r == [n]
  {
    hide StandsFor, Frozen, Unmergeable, Covered, InAny, Network, Broadcast, Blocked;
    LoneItem(bits, n);
    LoneStands(bits, n);
    forall d {
      LoneUnblocked(bits, n, d);
    }
    NetBlock(n);
    BlockBounds(n);
    SameIs(n, n);
    assert Collapsed(bits, [Netw(n)], [n]);
    CollapsedIsUnique(bits, [Netw(n)], r, [n]);
  }
}
