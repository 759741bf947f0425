/** `collapse_address_list` itself: sorting a mixed list into addresses and networks before it is collapsed. */
module CollapseList {
  import opened Powers
  import opened Bits
  import opened Alignment
  import opened Networks
  import opened Canonical
  import opened Sorting
  import opened Summarize
  import opened Subnets
  import opened Collapse

  /** What the list may hold: single addresses and networks, of one version. */
  datatype Item = Addr(ip: nat) | Netw(net: Net)

  predicate ValidItem(bits: nat, item: Item) {
    match item
    case Addr(ip) => bits > 0 && ip < Pow2(bits)
    case Netw(n) => Valid(n) && n.bits == bits
  }

  predicate ValidItems(bits: nat, items: seq<Item>) {
    bits > 0 && forall i :: 0 <= i < |items| ==> ValidItem(bits, items[i])
  }

  /** The address itself is listed, as an address or as a network of its own. */
  predicate Listed(bits: nat, items: seq<Item>, x: nat) {
    Addr(x) in items || Netw(Net(bits, x, bits)) in items
  }

  predicate Covered(bits: nat, items: seq<Item>, x: nat)
    requires ValidItems(bits, items)
  {
    exists i :: 0 <= i < |items| && match items[i] case Addr(ip) => x == ip case Netw(n) => InNet(n, x)
  }

  lemma CoveredBy(bits: nat, items: seq<Item>, x: nat)
    requires ValidItems(bits, items)
    ensures Covered(bits, items, x) <==>
              Listed(bits, items, x) || exists n :: Netw(n) in items && Valid(n) && n.prefix < bits && InNet(n, x)
  {
    hide Network, Broadcast, Pow2;
    forall n | Netw(n) in items && n.prefix == bits
      ensures Valid(n) && n == Net(bits, n.ip, bits) && (InNet(n, x) <==> x == n.ip)
    {
      SingleNet(n);
    }
    if Covered(bits, items, x) {
      var i :| 0 <= i < |items| && match items[i] case Addr(ip) => x == ip case Netw(n) => InNet(n, x);
      assert items[i] in items;
      if items[i].Netw? && items[i].net.prefix == bits {
        assert items[i] == Netw(Net(bits, x, bits));
      }
    }
    if Addr(x) in items {
      var i :| 0 <= i < |items| && items[i] == Addr(x);
    } else if Netw(Net(bits, x, bits)) in items {
      var i :| 0 <= i < |items| && items[i] == Netw(Net(bits, x, bits));
    } else if exists n :: Netw(n) in items && Valid(n) && n.prefix < bits && InNet(n, x) {
      var n :| Netw(n) in items && Valid(n) && n.prefix < bits && InNet(n, x);
      var i :| 0 <= i < |items| && items[i] == Netw(n);
    }
  }

  lemma SingleNet(n: Net)
    requires Valid(n) && n.prefix == n.bits
    ensures Network(n) == n.ip == Broadcast(n) && HostBitsZero(n)
  {
    hide Network, Broadcast;
    BlockBounds(n);
    LowBit(n.ip);
    Pow2Zero1();
  }

  /** Splits the list into single addresses and proper networks. */
  method SplitItems(bits: nat, items: seq<Item>) returns (ips: seq<nat>, nets: seq<Net>)
    requires ValidItems(bits, items)
    ensures forall x :: x in ips <==> Listed(bits, items, x)
    ensures forall n :: n in nets <==> Netw(n) in items && n.prefix != bits
  {
    hide Valid;
    ips, nets := [], [];
    for i := 0 to |items|
      invariant forall x :: x in ips <==> Listed(bits, items[..i], x)
      invariant forall n :: n in nets <==> Netw(n) in items[..i] && n.prefix != bits
    {
      assert items[..i + 1] == items[..i] + [items[i]];
      match items[i] {
        case Addr(ip) => ips := ips + [ip];
        case Netw(n) =>
          assert ValidItem(bits, items[i]);
          if n.prefix == n.bits {
            ips := ips + [n.ip];
          } else {
            nets := nets + [n];
          }
      }
    }
    assert items[..|items|] == items;
  }

  ghost predicate Consecutive(s: seq<nat>, i: nat, n: nat)
    requires i + n <= |s|
  {
    forall k :: i <= k < i + n ==> s[k] == s[i] + (k - i)
  }

  /** `_find_address_range`: the run of consecutive addresses at the start of a list. */
  method FindAddressRange(addresses: seq<nat>) returns (first: nat, last: nat, ghost n: nat)
    requires |addresses| > 0
    ensures 1 <= n <= |addresses| && first == addresses[0] && last == addresses[n - 1]
    ensures Consecutive(addresses, 0, n)
    ensures n < |addresses| ==> addresses[n] != last + 1
  {
    first, last := addresses[0], addresses[0];
    n := 1;
    for i := 1 to |addresses|
      invariant n == i && last == addresses[i - 1]
      invariant first == addresses[0] && Consecutive(addresses, 0, i)
    {
      if addresses[i] == last + 1 {
        last := addresses[i];
        n := n + 1;
      } else {
        break;
      }
    }
  }

  /** `list.index` */
  method IndexOf(list: seq<nat>, x: nat) returns (i: nat)
    requires x in list
    ensures i < |list| && list[i] == x && x !in list[..i]
  {
    i := 0;
    while list[i] != x
      invariant i < |list| && x !in list[..i]
      decreases |list| - i
    {
      i := i + 1;
      if i == |list| {
        assert false;
        return;
      }
    }
  }

  ghost predicate StrictlyAscending(ips: seq<nat>) {
    forall i, j :: 0 <= i < j < |ips| ==> ips[i] < ips[j]
  }

  function AddressOrder(): (nat, nat) -> bool {
    (a: nat, b: nat) => a <= b
  }

  /** The order of networks among themselves: the address, then the mask. */
  function NetOrder(): (Net, Net) -> bool {
    (a: Net, b: Net) => a.ip < b.ip || (a.ip == b.ip && a.prefix <= b.prefix)
  }

  lemma {:induction false} SortedAddresses(ips: seq<nat>)
    ensures StrictlyAscending(SortedSet(AddressOrder(), ips))
    ensures forall x :: x in SortedSet(AddressOrder(), ips) <==> x in ips
  {
    SortedSetIsSorted(AddressOrder(), ips);
    SortedSetElements(AddressOrder(), ips);
    var s := SortedSet(AddressOrder(), ips);
    forall i, j | 0 <= i < j < |s|
      ensures s[i] < s[j]
    {
      assert s[i] != s[i + 1];
      assert AddressOrder()(s[i], s[i + 1]);
      assert i + 1 < j ==> AddressOrder()(s[i + 1], s[j]);
    }
  }

  /** Networks without host bits for exactly these addresses; every block of them is inside one of the networks. */
  ghost predicate Summarized(bits: nat, ips: seq<nat>, addrs: seq<Net>) {
    && AllValid(bits, addrs)
    && (forall i :: 0 <= i < |addrs| ==> HostBitsZero(addrs[i]))
    && (forall x: nat :: InAny(bits, addrs, x) <==> x in ips)
    && forall b: Block :: Aligned(b.lo, b.k) && (forall x: nat :: In(b, x) ==> x in ips) ==> InsideOne(bits, addrs, b)
  }

  ghost predicate InsideOne(bits: nat, addrs: seq<Net>, b: Block)
    requires AllValid(bits, addrs)
  {
    exists i :: 0 <= i < |addrs| && Within(b, BlockOf(addrs[i]))
  }

  lemma InAnyConcat(bits: nat, a: seq<Net>, b: seq<Net>, x: nat)
    requires AllValid(bits, a) && AllValid(bits, b)
    ensures AllValid(bits, a + b)
    ensures InAny(bits, a + b, x) <==> InAny(bits, a, x) || InAny(bits, b, x)
  {
    hide InNet, Valid;
    var c := a + b;
    if InAny(bits, a, x) {
      var i :| 0 <= i < |a| && InNet(a[i], x);
      assert InNet(c[i], x);
    } else if InAny(bits, b, x) {
      var i :| 0 <= i < |b| && InNet(b[i], x);
      assert InNet(c[|a| + i], x);
    }
  }

  lemma InsideOneConcat(bits: nat, a: seq<Net>, c: seq<Net>, b: Block)
    requires AllValid(bits, a) && AllValid(bits, c)
    ensures AllValid(bits, a + c)
    ensures InsideOne(bits, a, b) || InsideOne(bits, c, b) ==> InsideOne(bits, a + c, b)
  {
    hide Valid, Within, BlockOf;
    var d := a + c;
    if InsideOne(bits, a, b) {
      var i :| 0 <= i < |a| && Within(b, BlockOf(a[i]));
      assert Within(b, BlockOf(d[i]));
    } else if InsideOne(bits, c, b) {
      var i :| 0 <= i < |c| && Within(b, BlockOf(c[i]));
      assert Within(b, BlockOf(d[|a| + i]));
    }
  }

  lemma SummaryFacts(bits: nat, first: nat, last: nat, nets: seq<Net>, b: Block)
    requires AllValid(bits, nets) && Summary(bits, first, last, nets)
    ensures forall i :: 0 <= i < |nets| ==> HostBitsZero(nets[i])
    ensures forall x: nat :: InAny(bits, nets, x) <==> first <= x <= last
    ensures Aligned(b.lo, b.k) && (forall x: nat :: In(b, x) ==> first <= x <= last) ==> InsideOne(bits, nets, b)
  {
    hide Aligned, In, HostBitsZero, InAny, Covers, Canonical.Canonical, Within, BlockOf, Valid;
    forall x: nat
      ensures InAny(bits, nets, x) <==> first <= x <= last
    {
      CoversIsInAny(bits, nets, x);
    }
    if Aligned(b.lo, b.k) && forall x: nat :: In(b, x) ==> first <= x <= last {
      var i := CoveredBlockInside(BlocksOf(bits, nets), b);
      assert Within(b, BlockOf(nets[i]));
    }
  }

  /** One more run of consecutive addresses, apart from those before it. */
  lemma MoreSummarized(bits: nat, ips: seq<nat>, i: nat, n: nat, addrs: seq<Net>, nets: seq<Net>)
    requires StrictlyAscending(ips) && 1 <= n && i + n <= |ips| && Summarized(bits, ips[..i], addrs)
    requires Consecutive(ips, i, n)
    requires i > 0 ==> ips[i] != ips[i - 1] + 1
    requires AllValid(bits, nets) && Summary(bits, ips[i], ips[i + n - 1], nets)
    ensures Summarized(bits, ips[..i + n], addrs + nets)
  {
    hide *;
    var first, last := ips[i], ips[i + n - 1];
    SummaryFacts(bits, first, last, nets, Block(0, 0));
    SummarizedParts(bits, ips[..i], addrs);
    forall x: nat
      ensures x in ips[..i + n] <==> x in ips[..i] || first <= x <= last
      ensures x in ips[..i] ==> x + 1 < first
    {
      RunMembers(ips, i, n, x);
    }
    forall x: nat
      ensures AllValid(bits, addrs + nets)
      ensures InAny(bits, addrs + nets, x) <==> x in ips[..i + n]
    {
      InAnyConcat(bits, addrs, nets, x);
      assert InAny(bits, nets, x) <==> first <= x <= last;
      assert InAny(bits, addrs, x) <==> x in ips[..i];
    }
    forall b: Block | Aligned(b.lo, b.k) && forall x: nat :: In(b, x) ==> x in ips[..i + n]
      ensures AllValid(bits, addrs + nets) && InsideOne(bits, addrs + nets, b)
    {
      InsideOneConcat(bits, addrs, nets, b);
      SummaryFacts(bits, first, last, nets, b);
      BlockBeforeGap(b, first, last, ips[..i]);
    }
    InAnyConcat(bits, addrs, nets, 0);
    SummarizedIs(bits, ips[..i + n], addrs + nets);
  }

  /** A block of addresses from two parts with a gap between them lies in one of the parts. */
  lemma BlockBeforeGap(b: Block, first: nat, last: nat, before: seq<nat>)
    requires forall x: nat :: In(b, x) ==> x in before || first <= x <= last
    requires forall x :: x in before ==> x + 1 < first
    ensures (forall x: nat :: In(b, x) ==> x in before) || (forall x: nat :: In(b, x) ==> first <= x <= last)
  {
    hide In;
    EndFacts(b);
    InBlock(b, first - 1);
  }

  lemma InBlock(b: Block, x: int)
    ensures b.lo <= x < End(b) ==> In(b, x)
  {
  }

  lemma SummarizedParts(bits: nat, ips: seq<nat>, addrs: seq<Net>)
    requires Summarized(bits, ips, addrs)
    ensures AllValid(bits, addrs)
    ensures forall i :: 0 <= i < |addrs| ==> HostBitsZero(addrs[i])
    ensures forall x: nat :: InAny(bits, addrs, x) <==> x in ips
    ensures forall b: Block :: Aligned(b.lo, b.k) && (forall x: nat :: In(b, x) ==> x in ips) ==>
              InsideOne(bits, addrs, b)
  {
  }

  lemma SummarizedIs(bits: nat, ips: seq<nat>, addrs: seq<Net>)
    requires AllValid(bits, addrs)
    requires forall i :: 0 <= i < |addrs| ==> HostBitsZero(addrs[i])
    requires forall x: nat :: InAny(bits, addrs, x) <==> x in ips
    requires forall b: Block :: Aligned(b.lo, b.k) && (forall x: nat :: In(b, x) ==> x in ips) ==>
               InsideOne(bits, addrs, b)
    ensures Summarized(bits, ips, addrs)
  {
  }

  lemma RunMembers(ips: seq<nat>, i: nat, n: nat, x: nat)
    requires StrictlyAscending(ips) && 1 <= n && i + n <= |ips|
    requires Consecutive(ips, i, n)
    requires i > 0 ==> ips[i] != ips[i - 1] + 1
    ensures x in ips[..i + n] <==> x in ips[..i] || ips[i] <= x <= ips[i + n - 1]
    ensures x in ips[..i] ==> x + 1 < ips[i]
  {
    if x in ips[..i] {
      var k :| 0 <= k < i && ips[k] == x;
      assert ips[i - 1] >= x;
      assert ips[..i + n][k] == x;
    }
    assert ips[i + n - 1] == ips[i] + (n - 1);
    if ips[i] <= x <= ips[i + n - 1] {
      var k := x - ips[i];
      assert ips[..i + n][i + k] == x;
    }
    if x in ips[..i + n] {
      var k :| 0 <= k < i + n && ips[k] == x;
      if k < i {
        assert ips[..i][k] == x;
      }
    }
  }

  method SummarizeRuns(bits: nat, ips: seq<nat>) returns (addrs: seq<Net>)
    requires bits > 0 && StrictlyAscending(ips) && forall x :: x in ips ==> x < Pow2(bits)
    ensures Summarized(bits, ips, addrs)
  {
    hide *;
    addrs := [];
    NothingSummarized(bits);
    var i := 0;
    assert ips[..0] == [];
    while i < |ips|
      invariant 0 <= i <= |ips|
      invariant Summarized(bits, ips[..i], addrs)
      invariant 0 < i < |ips| ==> ips[i] != ips[i - 1] + 1
    {
      var first, last, n := FindAddressRange(ips[i..]);
      RestOf(ips, i, n);
      var at := IndexOf(ips, last);
      OneIndex(ips, at, i + n - 1);
      var networks := SummarizeAddressRange(bits, first, last);
      MoreSummarized(bits, ips, i, n, addrs, networks.value);
      addrs := addrs + networks.value;
      i := at + 1;
    }
    assert ips[..|ips|] == ips;
  }

  lemma NothingSummarized(bits: nat)
    ensures Summarized(bits, [], [])
  {
    forall b: Block
      ensures In(b, b.lo)
    {
      EndFacts(b);
    }
  }

  lemma RestOf(ips: seq<nat>, i: nat, n: nat)
    requires StrictlyAscending(ips) && 1 <= n && i + n <= |ips| && Consecutive(ips[i..], 0, n)
    ensures Consecutive(ips, i, n) && ips[i..][0] == ips[i] && ips[i..][n - 1] == ips[i + n - 1]
    ensures ips[i] in ips && ips[i + n - 1] in ips && ips[i] <= ips[i + n - 1]
    ensures i + n < |ips| ==> ips[i..][n] == ips[i + n]
  {
    forall k | i <= k < i + n
      ensures ips[k] == ips[i] + (k - i)
    {
      assert ips[k] == ips[i..][k - i];
    }
  }

  lemma OneIndex(ips: seq<nat>, i: nat, j: nat)
    requires StrictlyAscending(ips) && i < |ips| && j < |ips| && ips[i] == ips[j]
    ensures i == j
  {
  }

  // ----- The sorted list that is collapsed

  /** What is left to collapse once single addresses are summarized: `addrs` and `nets` together, sorted. */
  ghost predicate Gathered(bits: nat, items: seq<Item>, ips: seq<nat>, addrs: seq<Net>, nets: seq<Net>,
      list: seq<Net>) {
    && ValidItems(bits, items)
    && (forall x :: x in ips <==> Listed(bits, items, x))
    && (forall n :: n in nets <==> Netw(n) in items && n.prefix != bits)
    && Summarized(bits, ips, addrs)
    && SortedBy(NetOrder(), nets)
    && list == Sort(KeyOrder(), addrs + nets)
  }

  lemma GatheredList(bits: nat, items: seq<Item>, ips: seq<nat>, addrs: seq<Net>, nets: seq<Net>, list: seq<Net>)
    requires Gathered(bits, items, ips, addrs, nets, list)
    ensures AllValid(bits, addrs) && AllValid(bits, nets) && AllValid(bits, list)
    ensures SortedBy(KeyOrder(), list) && forall n :: n in list <==> n in addrs || n in nets
    ensures forall n :: n in addrs ==> Valid(n) && n.bits == bits && HostBitsZero(n)
    ensures forall n :: n in nets <==> Netw(n) in items && n.prefix != bits
    ensures forall n :: n in nets ==> Valid(n) && n.bits == bits
  {
    hide Sort, KeyOrder, Valid, HostBitsZero, InAny, InsideOne, Within, In;
    KeyOrderIsPreorder();
    SortIsSorted(KeyOrder(), addrs + nets);
    SortKeepsElements(KeyOrder(), addrs + nets);
    forall n | n in nets
      ensures Valid(n) && n.bits == bits
    {
      var i :| 0 <= i < |items| && items[i] == Netw(n);
      assert ValidItem(bits, items[i]);
    }
    forall i | 0 <= i < |list|
      ensures Valid(list[i]) && list[i].bits == bits
    {
      assert list[i] in list;
    }
  }

  lemma MemberCovers(bits: nat, nets: seq<Net>, x: nat)
    requires AllValid(bits, nets)
    ensures InAny(bits, nets, x) <==> exists n :: n in nets && Valid(n) && InNet(n, x)
  {
    hide InNet, Valid;
    if InAny(bits, nets, x) {
      var i :| 0 <= i < |nets| && InNet(nets[i], x);
      assert nets[i] in nets;
    }
  }

  /** The list covers the addresses of the items. */
  lemma GatheredCovers(bits: nat, items: seq<Item>, ips: seq<nat>, addrs: seq<Net>, nets: seq<Net>,
      list: seq<Net>, x: nat)
    requires Gathered(bits, items, ips, addrs, nets, list)
    ensures AllValid(bits, list)
    ensures InAny(bits, list, x) <==> Covered(bits, items, x)
  {
    hide *;
    GatheredList(bits, items, ips, addrs, nets, list);
    GatheredAddresses(bits, items, ips, addrs, nets, list, x);
    MemberCovers(bits, list, x);
    MemberCovers(bits, addrs, x);
    CoveredBy(bits, items, x);
    forall n | Valid(n) && n.bits == bits
      ensures n.prefix <= bits
    {
      ValidPrefix(n);
    }
  }

  lemma ValidPrefix(n: Net)
    ensures Valid(n) ==> n.prefix <= n.bits
  {
  }

  lemma GatheredAddresses(bits: nat, items: seq<Item>, ips: seq<nat>, addrs: seq<Net>, nets: seq<Net>,
      list: seq<Net>, x: nat)
    requires Gathered(bits, items, ips, addrs, nets, list)
    ensures AllValid(bits, addrs) && ValidItems(bits, items)
    ensures InAny(bits, addrs, x) <==> Listed(bits, items, x)
  {
    hide InAny, Listed, ValidItems, AllValid, InsideOne, Sort, NetOrder, KeyOrder, In, HostBitsZero;
    assert x in ips <==> Listed(bits, items, x);
  }

  // ----- When the result is the best possible, in terms of what was passed

  /**
   A listed network that never merges: an upper half with host bits set.  No listed network
   contains it, unless it is the same block with host bits set too, and its addresses are not all
   listed one by one.
   */
  ghost predicate Frozen(bits: nat, items: seq<Item>, d: Net) {
    && Unmergeable(d) && Netw(d) in items
    && (forall n :: Netw(n) in items && Valid(n) && Inside(d, n) ==> n.prefix == d.prefix && !HostBitsZero(n))
    && exists x: nat :: InNet(d, x) && !Listed(bits, items, x)
  }

  /** It keeps the list from collapsing fully if its lower sibling is covered. */
  ghost predicate Blocked(bits: nat, items: seq<Item>, d: Net)
    requires ValidItems(bits, items)
  {
    Frozen(bits, items, d) && forall x: nat :: Network(d) - Size(d) <= x < Network(d) ==> Covered(bits, items, x)
  }

  /**
   The network that stands for its block: if the block is listed, but not all its addresses are
   listed one by one, the listed network with the least address; else the one without host bits.
   */
  ghost predicate StandsFor(bits: nat, items: seq<Item>, n: Net) {
    if (exists d :: Netw(d) in items && Same(n, d)) &&
       (exists x: nat :: Valid(n) && InNet(n, x) && !Listed(bits, items, x))
    then Netw(n) in items && forall d :: Netw(d) in items && Same(n, d) ==> n.ip <= d.ip
    else Valid(n) && HostBitsZero(n)
  }

  lemma {:induction false} FirstInside(bits: nat, list: seq<Net>, d: Net, j: nat) returns (m: nat)
    requires AllValid(bits, list) && j < |list| && Valid(d) && Valid(list[j]) && Inside(d, list[j])
    ensures m <= j && Valid(list[m]) && Inside(d, list[m])
    ensures forall k :: 0 <= k < m ==> Valid(list[k]) && !Inside(d, list[k])
  {
    hide Inside, Valid;
    if k :| 0 <= k < j && Valid(list[k]) && Inside(d, list[k]) {
      m := FirstInside(bits, list, d, k);
    } else {
      m := j;
    }
  }

  lemma InsideIs(d: Net, n: Net)
    requires Valid(d) && Valid(n) && d.bits == n.bits
    ensures Inside(d, n) <==> n.prefix <= d.prefix && Network(n) <= Network(d) && Broadcast(d) <= Broadcast(n)
    ensures Inside(d, n) && n.prefix == d.prefix ==> Network(n) == Network(d) && Size(n) == Size(d) && Inside(n, d)
  {
    hide Network, Broadcast, Pow2, Aligned;
    BlockBounds(d);
    BlockBounds(n);
    if n.prefix <= d.prefix {
      NestedOrDisjoint(n, d);
    } else {
      InsideBounds(d, n);
      Pow2Monotone(n.bits - n.prefix, n.bits - d.prefix);
    }
  }

  lemma InsideBounds(d: Net, n: Net)
    requires Valid(d) && Valid(n)
    ensures Inside(d, n) ==> Network(n) <= Network(d) && Broadcast(d) <= Broadcast(n)
  {
    hide Network, Broadcast;
    BlockBounds(d);
    if Inside(d, n) {
      assert InNet(d, Network(d)) && InNet(d, Broadcast(d));
    }
  }

  lemma InsideItself(a: Net)
    requires Valid(a)
    ensures Inside(a, a)
  {
  }

  lemma InsideMeans(d: Net, n: Net, x: nat)
    requires Valid(d) && Valid(n)
    ensures Inside(d, n) && InNet(d, x) ==> InNet(n, x)
  {
  }

  /** Of a frozen network, or another of the same block that sorts before it, nothing is absorbed. */
  lemma FrozenLeads(bits: nat, items: seq<Item>, ips: seq<nat>, addrs: seq<Net>, nets: seq<Net>,
      list: seq<Net>, d: Net) returns (e: Net)
    requires Gathered(bits, items, ips, addrs, nets, list) && ValidItems(bits, items) && Frozen(bits, items, d)
    ensures AllValid(bits, list) && Leads(bits, list, e) && Unmergeable(e) && e.bits == bits && Valid(e) && Valid(d)
    ensures Same(e, d) && Network(e) == Network(d) && Size(e) == Size(d)
  {
    hide *;
    GatheredList(bits, items, ips, addrs, nets, list);
    var x := FrozenFacts(bits, items, d);
    var j := MemberIndex(list, d);
    InsideItself(d);
    var m := FirstInside(bits, list, d, j);
    e := list[m];
    assert e in list && Valid(e);
    InsideMeans(d, e, x);
    GatheredAddresses(bits, items, ips, addrs, nets, list, x);
    MemberCovers(bits, addrs, x);
    InsideIs(d, e);
    SameBlockUnmergeable(d, e);
    forall k | 0 <= k < m
      ensures Valid(list[k]) && !Inside(e, list[k])
    {
      assert list[k] in list;
      InsideTransitive(d, e, list[k]);
    }
    LeadsFrom(bits, list, e, m);
    SameIs(e, d);
  }

  lemma LeadsFrom(bits: nat, list: seq<Net>, e: Net, m: nat)
    requires AllValid(bits, list) && m < |list| && list[m] == e && Valid(e)
    requires forall k :: 0 <= k < m ==> Valid(list[k]) && !Inside(e, list[k])
    ensures Leads(bits, list, e)
  {
    hide Inside;
  }

  /** A blocked network, or another of the same block that sorts before it, is stuck. */
  lemma BlockedIsStuck(bits: nat, items: seq<Item>, ips: seq<nat>, addrs: seq<Net>, nets: seq<Net>,
      list: seq<Net>, d: Net)
    requires Gathered(bits, items, ips, addrs, nets, list) && ValidItems(bits, items) && Blocked(bits, items, d)
    ensures AllValid(bits, list) && exists e :: Stuck(bits, list, e)
  {
    hide *;
    BlockedParts(bits, items, d);
    var e := FrozenLeads(bits, items, ips, addrs, nets, list, d);
    forall y: nat | Network(e) - Size(e) <= y < Network(e)
      ensures InAny(bits, list, y)
    {
      GatheredCovers(bits, items, ips, addrs, nets, list, y);
    }
    StuckIs(bits, list, e);
  }

  lemma BlockedParts(bits: nat, items: seq<Item>, d: Net)
    requires ValidItems(bits, items)
    ensures Blocked(bits, items, d) ==> Frozen(bits, items, d) && Valid(d)
    ensures Frozen(bits, items, d) ==> Valid(d)
    ensures Frozen(bits, items, d) ==>
              (Blocked(bits, items, d) <==>
                 forall x: nat :: Network(d) - Size(d) <= x < Network(d) ==> Covered(bits, items, x))
  {
    hide Network, Size, Inside, Covered, HostBitsZero, InNet, Listed, Aligned;
  }

  lemma FrozenFacts(bits: nat, items: seq<Item>, d: Net) returns (x: nat)
    requires ValidItems(bits, items) && Frozen(bits, items, d)
    ensures Unmergeable(d) && Netw(d) in items && Valid(d) && d.prefix != d.bits
    ensures forall n :: Netw(n) in items && Valid(n) && Inside(d, n) ==> n.prefix == d.prefix && !HostBitsZero(n)
    ensures InNet(d, x) && !Listed(bits, items, x) && d.bits == bits
  {
    hide Network, Size, Inside, Covered, HostBitsZero, InNet, Listed, Valid, Aligned;
    x :| InNet(d, x) && !Listed(bits, items, x);
    if d.prefix == d.bits {
      SingleNet(d);
    }
    var i :| 0 <= i < |items| && items[i] == Netw(d);
    assert ValidItem(bits, items[i]);
  }

  lemma SameBlockUnmergeable(d: Net, e: Net)
    requires Valid(d) && Valid(e) && d.bits == e.bits && Unmergeable(d)
    ensures Network(e) == Network(d) && e.prefix == d.prefix && !HostBitsZero(e) ==> Unmergeable(e)
  {
    hide HostBitsZero, Network, Aligned;
  }

  lemma StuckIs(bits: nat, list: seq<Net>, e: Net)
    requires AllValid(bits, list) && Leads(bits, list, e) && Unmergeable(e) && e.bits == bits
    requires forall y: nat :: Network(e) - Size(e) <= y < Network(e) ==> InAny(bits, list, y)
    ensures Stuck(bits, list, e)
  {
    hide Network, Size, Leads, InAny, HostBitsZero, Aligned;
  }

  /** A network that contains a stuck one cannot sort before it; it has the same block and host bits too. */
  lemma NothingBetter(bits: nat, items: seq<Item>, ips: seq<nat>, addrs: seq<Net>, nets: seq<Net>,
      list: seq<Net>, d: Net, n: Net)
    requires Gathered(bits, items, ips, addrs, nets, list)
    requires AllValid(bits, list) && Leads(bits, list, d)
    requires n in list && Valid(n) && Valid(d) && n.bits == d.bits == bits
    requires Inside(d, n) && !HostBitsZero(d)
    ensures n.prefix == d.prefix && !HostBitsZero(n)
  {
    hide *;
    GatheredList(bits, items, ips, addrs, nets, list);
    var j := LeadsAt(bits, list, d);
    InsideIs(d, n);
    InsideItself(d);
    if n.prefix < d.prefix {
      var m := MemberIndex(list, n);
      SortedApart(bits, list, j, m);
    } else if HostBitsZero(n) {
      var p := SameBlockAs(d);
      GatheredSorted(bits, items, ips, addrs, nets, list);
      SortIsStableByBlock(addrs + nets, d);
      IsSameBlock(d);
      CleanFirst(bits, addrs, nets, d, n);
      var m := FilterFirst(p, Sort(KeyOrder(), addrs + nets), j);
      assert list[m] in list;
      InsideIs(d, list[m]);
      NestedSame(d, list[m]);
    }
  }

  function SameBlockAs(d: Net): Net -> bool {
    (n: Net) => Valid(n) && Valid(d) && n.bits == d.bits && n.prefix == d.prefix && Network(n) == Network(d)
  }

  lemma IsSameBlock(d: Net)
    ensures forall n :: SameBlockAs(d)(n) <==>
              Valid(n) && Valid(d) && n.bits == d.bits && n.prefix == d.prefix && Network(n) == Network(d)
  {
  }

  lemma NestedSame(d: Net, e: Net)
    requires Valid(d) && Valid(e) && d.bits == e.bits && d.prefix == e.prefix && Network(d) == Network(e)
    ensures Inside(d, e)
  {
    hide Network;
  }

  lemma GatheredSorted(bits: nat, items: seq<Item>, ips: seq<nat>, addrs: seq<Net>, nets: seq<Net>, list: seq<Net>)
    requires Gathered(bits, items, ips, addrs, nets, list)
    ensures SortedBy(NetOrder(), nets) && list == Sort(KeyOrder(), addrs + nets)
  {
  }

  lemma LeadsAt(bits: nat, list: seq<Net>, d: Net) returns (j: nat)
    requires AllValid(bits, list) && Leads(bits, list, d)
    ensures j < |list| && list[j] == d && forall k :: 0 <= k < j ==> Valid(list[k]) && !Inside(d, list[k])
  {
    hide Inside;
    j :| 0 <= j < |list| && list[j] == d && forall k :: 0 <= k < j ==> !Inside(d, list[k]);
  }

  lemma SortedApart(bits: nat, list: seq<Net>, j: nat, m: nat)
    requires AllValid(bits, list) && SortedBy(KeyOrder(), list) && j < |list| && m < |list|
    requires Valid(list[j]) && Valid(list[m]) && list[m].prefix < list[j].prefix && Network(list[m]) <= Network(list[j])
    ensures m < j
  {
    hide Network, KeyOrder, Valid;
    if j < m {
      assert KeyOrder()(list[j], list[m]);
      KeyOrderIs(list[j], list[m]);
    }
  }

  lemma SortIsStableByBlock(s: seq<Net>, d: Net)
    ensures Filter(SameBlockAs(d), Sort(KeyOrder(), s)) == Filter(SameBlockAs(d), s)
  {
    hide Network, Netmask, Filter, Sort;
    forall y, z | SameBlockAs(d)(y) && SameBlockAs(d)(z)
      ensures KeyOrder()(y, z)
    {
      KeyOrderIs(y, z);
    }
    SortIsStable(KeyOrder(), SameBlockAs(d), s);
  }

  /** Of the networks of one block, one without host bits comes first if there is one. */
  lemma CleanFirst(bits: nat, addrs: seq<Net>, nets: seq<Net>, d: Net, n: Net)
    requires SortedBy(NetOrder(), nets) && (n in addrs || n in nets) && SameBlockAs(d)(n) && HostBitsZero(n)
    requires forall a :: a in addrs ==> Valid(a) && HostBitsZero(a)
    ensures Filter(SameBlockAs(d), addrs + nets) != []
    ensures var f := Filter(SameBlockAs(d), addrs + nets)[0]; SameBlockAs(d)(f) && Valid(f) && HostBitsZero(f)
  {
    hide *;
    var p := SameBlockAs(d);
    IsSameBlock(d);
    FilterAppends(p, addrs, nets);
    var a, f := Filter(p, addrs), Filter(p, nets);
    if a != [] {
      assert (a + f)[0] == a[0] && a[0] in a;
    } else {
      assert a + f == f;
      assert n in f;
      FilterKeepsSorted(p, NetOrder(), nets);
      var m := MemberIndex(f, n);
      FirstLeast(f, m);
      assert f[0] in f;
      CleanIs(f[0]);
      CleanIs(n);
    }
  }

  lemma FirstLeast(nets: seq<Net>, m: nat)
    requires SortedBy(NetOrder(), nets) && m < |nets|
    ensures nets[0].ip <= nets[m].ip
  {
  }

  lemma CleanIs(n: Net)
    requires Valid(n)
    ensures Network(n) <= n.ip && (HostBitsZero(n) <==> n.ip <= Network(n))
  {
    hide Network;
    BlockBounds(n);
  }

  lemma FrozenIs(bits: nat, items: seq<Item>, d: Net, x: nat)
    requires Unmergeable(d) && Netw(d) in items
    requires forall n :: Netw(n) in items && Valid(n) && Inside(d, n) ==> n.prefix == d.prefix && !HostBitsZero(n)
    requires InNet(d, x) && !Listed(bits, items, x)
    ensures Frozen(bits, items, d)
  {
    hide Network, Size, Inside, HostBitsZero, InNet, Listed, Valid, Aligned;
  }

  /** Addresses of a network that leads with host bits set are not all listed: the summary would have absorbed it. */
  lemma LeadsNotListed(bits: nat, items: seq<Item>, ips: seq<nat>, addrs: seq<Net>, nets: seq<Net>,
      list: seq<Net>, d: Net) returns (x: nat)
    requires Gathered(bits, items, ips, addrs, nets, list) && ValidItems(bits, items)
    requires AllValid(bits, list) && Leads(bits, list, d) && Valid(d) && d.bits == bits && !HostBitsZero(d)
    ensures InNet(d, x) && !Listed(bits, items, x)
  {
    hide *;
    if forall y: nat :: InNet(d, y) ==> Listed(bits, items, y) {
      GatheredList(bits, items, ips, addrs, nets, list);
      NetBlock(d);
      EndFacts(BlockOf(d));
      forall y: nat
        ensures InNet(d, y) <==> In(BlockOf(d), y)
      {
        InNetIs(d, y);
      }
      var n := SummaryHolds(bits, items, ips, addrs, nets, list, BlockOf(d));
      NetBlock(n);
      SameInside(d, n);
      NothingBetter(bits, items, ips, addrs, nets, list, d, n);
    }
    x :| InNet(d, x) && !Listed(bits, items, x);
  }

  lemma SameInside(d: Net, n: Net)
    requires Valid(d) && Valid(n) && Within(BlockOf(d), BlockOf(n))
    ensures Inside(d, n)
  {
    hide Network, Broadcast, End;
    NetBlock(d);
    NetBlock(n);
  }

  lemma SummaryHolds(bits: nat, items: seq<Item>, ips: seq<nat>, addrs: seq<Net>, nets: seq<Net>,
      list: seq<Net>, b: Block) returns (n: Net)
    requires Gathered(bits, items, ips, addrs, nets, list) && ValidItems(bits, items)
    requires Aligned(b.lo, b.k) && forall y: nat :: In(b, y) ==> Listed(bits, items, y)
    ensures n in addrs && Valid(n) && Within(b, BlockOf(n))
  {
    hide Aligned, In, Listed, BlockOf, Within, ValidItems, HostBitsZero, InAny, NetOrder, KeyOrder, Sort;
    assert forall y: nat :: In(b, y) ==> y in ips;
    assert InsideOne(bits, addrs, b);
    var i :| 0 <= i < |addrs| && Within(b, BlockOf(addrs[i]));
    n := addrs[i];
  }

  lemma LeadingIsFrozen(bits: nat, items: seq<Item>, ips: seq<nat>, addrs: seq<Net>, nets: seq<Net>,
      list: seq<Net>, d: Net)
    requires Gathered(bits, items, ips, addrs, nets, list) && ValidItems(bits, items)
    requires AllValid(bits, list) && Leads(bits, list, d) && Unmergeable(d) && d.bits == bits
    ensures Frozen(bits, items, d)
  {
    hide *;
    GatheredList(bits, items, ips, addrs, nets, list);
    LeadsMember(bits, list, d);
    UnmergeableParts(d);
    var x := LeadsNotListed(bits, items, ips, addrs, nets, list, d);
    forall n | Netw(n) in items && Valid(n) && Inside(d, n)
      ensures n.prefix == d.prefix && !HostBitsZero(n)
    {
      ItemBits(bits, items, n);
      if n.prefix == bits {
        SingleItem(bits, items, d, n);
      }
      NothingBetter(bits, items, ips, addrs, nets, list, d, n);
    }
    FrozenIs(bits, items, d, x);
  }

  lemma UnmergeableParts(d: Net)
    ensures Unmergeable(d) ==> Valid(d) && !HostBitsZero(d)
  {
  }

  lemma StuckIsBlocked(bits: nat, items: seq<Item>, ips: seq<nat>, addrs: seq<Net>, nets: seq<Net>,
      list: seq<Net>, d: Net)
    requires Gathered(bits, items, ips, addrs, nets, list) && ValidItems(bits, items)
    requires AllValid(bits, list) && Stuck(bits, list, d)
    ensures Blocked(bits, items, d)
  {
    hide *;
    StuckParts(bits, list, d);
    LeadingIsFrozen(bits, items, ips, addrs, nets, list, d);
    forall y: nat | Network(d) - Size(d) <= y < Network(d)
      ensures Covered(bits, items, y)
    {
      GatheredCovers(bits, items, ips, addrs, nets, list, y);
    }
    BlockedParts(bits, items, d);
  }

  lemma ItemBits(bits: nat, items: seq<Item>, n: Net)
    requires ValidItems(bits, items) && Netw(n) in items
    ensures Valid(n) && n.bits == bits
  {
    hide Valid;
    var i :| 0 <= i < |items| && items[i] == Netw(n);
    assert ValidItem(bits, items[i]);
  }

  lemma SingleItem(bits: nat, items: seq<Item>, d: Net, n: Net)
    requires Valid(d) && Valid(n) && d.bits == n.bits == bits
    requires Inside(d, n) && n.prefix == bits
    ensures HostBitsZero(d)
  {
    hide Network, Broadcast, HostBitsZero;
    InsideIs(d, n);
    SingleNet(d);
  }

  /** What `collapse_address_list` makes of a list. */
  ghost predicate Collapsed(bits: nat, items: seq<Item>, r: seq<Net>)
    requires ValidItems(bits, items)
  {
    && AllValid(bits, r)
    && AscendingNets(bits, r)
    && NothingToMerge(bits, r)
    && (forall x: nat :: InAny(bits, r, x) <==> Covered(bits, items, x))
    && (forall d :: d in r && !HostBitsZero(d) ==> Netw(d) in items)
    && (forall n :: n in r ==> StandsFor(bits, items, n))
    && (forall n :: n in r && Unmergeable(n) ==> Frozen(bits, items, n))
    && (forall d :: Frozen(bits, items, d) ==> exists n :: n in r && Same(n, d))
    && (Canonical.Canonical(BlocksOf(bits, r)) <==> forall d :: !Blocked(bits, items, d))
  }

  lemma PassIsCollapse(bits: nat, items: seq<Item>, ips: seq<nat>, addrs: seq<Net>, nets: seq<Net>,
      list: seq<Net>, r: seq<Net>)
    requires Gathered(bits, items, ips, addrs, nets, list) && ValidItems(bits, items)
    requires AllValid(bits, list) && AllValid(bits, r) && Pass(bits, list, r) && NothingToMerge(bits, r)
    requires Stand(bits, list, r)
    ensures Collapsed(bits, items, r)
  {
    hide *;
    PassParts(bits, list, r);
    CanonicalUnlessStuck(bits, list, r);
    forall x: nat
      ensures InAny(bits, r, x) <==> Covered(bits, items, x)
    {
      GatheredCovers(bits, items, ips, addrs, nets, list, x);
    }
    forall d
      ensures Stuck(bits, list, d) ==> Blocked(bits, items, d)
      ensures Blocked(bits, items, d) ==> exists e :: Stuck(bits, list, e)
    {
      if Stuck(bits, list, d) {
        StuckIsBlocked(bits, items, ips, addrs, nets, list, d);
      }
      if Blocked(bits, items, d) {
        BlockedIsStuck(bits, items, ips, addrs, nets, list, d);
      }
    }
    GatheredList(bits, items, ips, addrs, nets, list);
    Members(bits, r);
    forall d | d in r && !HostBitsZero(d)
      ensures Netw(d) in items
    {
      LeadsMember(bits, list, d);
    }
    forall n | n in r
      ensures StandsFor(bits, items, n)
    {
      BlockStands(bits, items, ips, addrs, nets, list, r, n);
    }
    forall n | n in r && Unmergeable(n)
      ensures Frozen(bits, items, n)
    {
      UnmergeableParts(n);
      LeadingIsFrozen(bits, items, ips, addrs, nets, list, n);
    }
    forall d | Frozen(bits, items, d)
      ensures exists n :: n in r && Same(n, d)
    {
      var e := FrozenLeads(bits, items, ips, addrs, nets, list, d);
      assert e in r && Same(e, d);
    }
    CollapsedIs(bits, items, r);
  }

  lemma CollapsedIs(bits: nat, items: seq<Item>, r: seq<Net>)
    requires ValidItems(bits, items) && AllValid(bits, r) && AscendingNets(bits, r) && NothingToMerge(bits, r)
    requires forall x: nat :: InAny(bits, r, x) <==> Covered(bits, items, x)
    requires forall d :: d in r && !HostBitsZero(d) ==> Netw(d) in items
    requires forall n :: n in r ==> StandsFor(bits, items, n)
    requires forall n :: n in r && Unmergeable(n) ==> Frozen(bits, items, n)
    requires forall d :: Frozen(bits, items, d) ==> exists n :: n in r && Same(n, d)
    requires Canonical.Canonical(BlocksOf(bits, r)) <==> forall d :: !Blocked(bits, items, d)
    ensures Collapsed(bits, items, r)
  {
    hide StandsFor, Unmergeable, Frozen, Same, Blocked, AscendingNets, NothingToMerge, InAny, Covered;
    hide Canonical.Canonical;
  }

  /** The network that a pass leaves on a block is the one that stands for it. */
  lemma BlockStands(bits: nat, items: seq<Item>, ips: seq<nat>, addrs: seq<Net>, nets: seq<Net>,
      list: seq<Net>, r: seq<Net>, n: Net)
    requires Gathered(bits, items, ips, addrs, nets, list) && ValidItems(bits, items)
    requires AllValid(bits, list) && AllValid(bits, r) && Pass(bits, list, r) && Stand(bits, list, r) && n in r
    ensures StandsFor(bits, items, n)
  {
    hide *;
    PassParts(bits, list, r);
    Members(bits, r);
    GatheredList(bits, items, ips, addrs, nets, list);
    if !HostBitsZero(n) {
      LeadsMember(bits, list, n);
      var x := LeadsNotListed(bits, items, ips, addrs, nets, list, n);
      InsideItself(n);
      SameIs(n, n);
      HostBitsStand(bits, items, n, n, x);
    }
    if d, x: nat :| Netw(d) in items && Same(n, d) && InNet(n, x) && !Listed(bits, items, x) {
      forall e | Netw(e) in items && Same(n, e)
        ensures Netw(n) in items && n.ip <= e.ip
      {
        LeastOfBlock(bits, items, ips, addrs, nets, list, r, n, e, x);
      }
      StandsForIs(bits, items, n);
    } else {
      StandsForIs(bits, items, n);
    }
  }

  lemma HostBitsStand(bits: nat, items: seq<Item>, n: Net, d: Net, x: nat)
    requires Netw(d) in items && Same(n, d) && Valid(n) && InNet(n, x) && !Listed(bits, items, x)
    ensures exists d, x: nat :: Netw(d) in items && Same(n, d) && InNet(n, x) && !Listed(bits, items, x)
  {
    hide *;
  }

  lemma StandsForIs(bits: nat, items: seq<Item>, n: Net)
    requires Valid(n)
    requires (exists d, x: nat :: Netw(d) in items && Same(n, d) && InNet(n, x) && !Listed(bits, items, x)) ==>
               Netw(n) in items && forall d :: Netw(d) in items && Same(n, d) ==> n.ip <= d.ip
    requires !(exists d, x: nat :: Netw(d) in items && Same(n, d) && InNet(n, x) && !Listed(bits, items, x)) ==>
               HostBitsZero(n)
    ensures StandsFor(bits, items, n)
  {
    hide Same, InNet, Listed, HostBitsZero, Valid;
  }

  /** Among networks of one block that are not summed up, the one with the least address sorts first. */
  lemma LeastOfBlock(bits: nat, items: seq<Item>, ips: seq<nat>, addrs: seq<Net>, nets: seq<Net>,
      list: seq<Net>, r: seq<Net>, n: Net, e: Net, x: nat)
    requires Gathered(bits, items, ips, addrs, nets, list) && ValidItems(bits, items)
    requires AllValid(bits, list) && AllValid(bits, r) && Stand(bits, list, r) && n in r
    requires Netw(e) in items && Same(n, e) && Valid(n) && n.bits == bits && InNet(n, x) && !Listed(bits, items, x)
    ensures Netw(n) in items && n.ip <= e.ip
  {
    hide *;
    GatheredList(bits, items, ips, addrs, nets, list);
    ItemBits(bits, items, e);
    SameIs(n, e);
    InsideMeans(n, e, x);
    NotSingle(bits, items, e, x);
    StandParts(bits, list, r, n, e);
    LeadsMember(bits, list, n);
    NotSummed(bits, items, ips, addrs, nets, list, n, x);
    var j := LeadsAt(bits, list, n);
    var p := SameBlockAs(n);
    IsSameBlock(n);
    InsideIs(n, e);
    InsideIs(e, n);
    InsideItself(n);
    InsideIs(n, n);
    GatheredSorted(bits, items, ips, addrs, nets, list);
    SortIsStableByBlock(addrs + nets, n);
    FilterAppends(p, addrs, nets);
    if Filter(p, addrs) != [] {
      var a := Filter(p, addrs)[0];
      assert a in Filter(p, addrs);
      NestedSame(n, a);
      InsideMeans(n, a, x);
      NotSummed(bits, items, ips, addrs, nets, list, a, x);
      assert false;
    }
    var f := Filter(p, nets);
    assert [] + f == f;
    var m := FilterFirst(p, list, j);
    assert list[m] in list && f[0] in f;
    NestedSame(n, f[0]);
    FilterKeepsSorted(p, NetOrder(), nets);
    var i := MemberIndex(f, e);
    FirstLeast(f, i);
  }

  /** A network of one address is listed address by address. */
  lemma NotSingle(bits: nat, items: seq<Item>, e: Net, x: nat)
    requires Netw(e) in items && Valid(e) && e.bits == bits && InNet(e, x) && !Listed(bits, items, x)
    ensures e.prefix != bits
  {
    hide Network, Broadcast;
    if e.prefix == bits {
      SingleNet(e);
    }
  }

  /** A network with an address that is not listed is not of the summary. */
  lemma NotSummed(bits: nat, items: seq<Item>, ips: seq<nat>, addrs: seq<Net>, nets: seq<Net>,
      list: seq<Net>, n: Net, x: nat)
    requires Gathered(bits, items, ips, addrs, nets, list) && ValidItems(bits, items)
    requires Valid(n) && InNet(n, x) && !Listed(bits, items, x)
    ensures n !in addrs
  {
    hide *;
    GatheredAddresses(bits, items, ips, addrs, nets, list, x);
    MemberCovers(bits, addrs, x);
  }

  method CollapseAddressList(bits: nat, items: seq<Item>) returns (r: seq<Net>)
    requires ValidItems(bits, items)
    ensures Collapsed(bits, items, r)
  {
    hide *;
    var ips, nets := SplitItems(bits, items);
    SortedAddresses(ips);
    OrdersNets(nets);
    ips := SortedSet(AddressOrder(), ips);
    nets := SortedSet(NetOrder(), nets);
    ListedAddresses(bits, items, ips);
    var addrs := SummarizeRuns(bits, ips);
    GatheredIs(bits, items, ips, addrs, nets);
    var list := Sort(KeyOrder(), addrs + nets);
    GatheredList(bits, items, ips, addrs, nets, list);
    r := CollapseRecursive(bits, list);
    PassIsCollapse(bits, items, ips, addrs, nets, list, r);
  }

  lemma OrdersNets(nets: seq<Net>)
    ensures SortedBy(NetOrder(), SortedSet(NetOrder(), nets))
    ensures forall n :: n in SortedSet(NetOrder(), nets) <==> n in nets
  {
    SortedSetIsSorted(NetOrder(), nets);
    SortedSetElements(NetOrder(), nets);
  }

  lemma ListedAddresses(bits: nat, items: seq<Item>, ips: seq<nat>)
    requires ValidItems(bits, items) && forall x :: x in ips <==> Listed(bits, items, x)
    ensures bits > 0 && forall x :: x in ips ==> x < Pow2(bits)
  {
    hide Pow2;
    forall x | x in ips
      ensures x < Pow2(bits)
    {
      if Addr(x) in items {
        var i :| 0 <= i < |items| && items[i] == Addr(x);
        assert ValidItem(bits, items[i]);
      } else {
        ItemBits(bits, items, Net(bits, x, bits));
      }
    }
  }

  lemma GatheredIs(bits: nat, items: seq<Item>, ips: seq<nat>, addrs: seq<Net>, nets: seq<Net>)
    requires ValidItems(bits, items)
    requires forall x :: x in ips <==> Listed(bits, items, x)
    requires forall n :: n in nets <==> Netw(n) in items && n.prefix != bits
    requires Summarized(bits, ips, addrs) && SortedBy(NetOrder(), nets)
    ensures Gathered(bits, items, ips, addrs, nets, Sort(KeyOrder(), addrs + nets))
  {
  }

  ghost predicate NoHostBits(bits: nat, items: seq<Item>)
    requires ValidItems(bits, items)
  {
    forall n :: Netw(n) in items && Valid(n) ==> HostBitsZero(n)
  }

  /** The networks cover exactly what is listed. */
  ghost predicate SameAddresses(bits: nat, items: seq<Item>, nets: seq<Net>)
    requires ValidItems(bits, items)
  {
    AllValid(bits, nets) && forall x: nat :: InAny(bits, nets, x) <==> Covered(bits, items, x)
  }

  lemma NetOfBlock(bits: nat, b: Block) returns (n: Net)
    requires bits > 0 && Aligned(b.lo, b.k) && End(b) <= Pow2(bits)
    ensures Valid(n) && n.bits == bits && BlockOf(n) == b
  {
    EndFacts(b);
    if b.k > bits {
      Pow2Monotone(bits, b.k);
    }
    hide Network, Broadcast, Aligned, Pow2, End;
    n := Net(bits, b.lo, bits - b.k);
    BlockNet(bits, b.lo, bits - b.k);
  }

  lemma {:induction false} NetsOfBlocks(bits: nat, blocks: seq<Block>) returns (nets: seq<Net>)
    requires bits > 0 && Blocks(blocks) && forall i :: 0 <= i < |blocks| ==> End(blocks[i]) <= Pow2(bits)
    ensures AllValid(bits, nets) && BlocksOf(bits, nets) == blocks
  {
    hide Network, Broadcast, Aligned, Pow2, End, Valid, BlockOf;
    nets := [];
    if blocks != [] {
      var n := NetOfBlock(bits, blocks[0]);
      nets := NetsOfBlocks(bits, blocks[1..]);
      nets := [n] + nets;
    }
  }

  lemma BlocksBelow(bits: nat, r: seq<Net>)
    requires AllValid(bits, r) && AscendingNets(bits, r)
    ensures Blocks(BlocksOf(bits, r)) && Ascending(BlocksOf(bits, r))
    ensures forall i :: 0 <= i < |r| ==> End(BlocksOf(bits, r)[i]) <= Pow2(bits)
  {
    hide Network, Broadcast, Pow2, End;
    AscendingBlocks(bits, r);
    forall i | 0 <= i < |r|
      ensures End(BlockOf(r[i])) <= Pow2(bits)
    {
      NetBlock(r[i]);
    }
  }

  lemma SameCovers(bits: nat, items: seq<Item>, r: seq<Net>, other: seq<Net>)
    requires ValidItems(bits, items) && SameAddresses(bits, items, r) && AllValid(bits, other)
    ensures SameAddresses(bits, items, other) <==> SameCoverage(BlocksOf(bits, r), BlocksOf(bits, other))
  {
    hide Network, Broadcast, InAny, Covered, Covers, ValidItems;
    forall x: nat
      ensures Covers(BlocksOf(bits, r), x) <==> InAny(bits, r, x)
      ensures Covers(BlocksOf(bits, other), x) <==> InAny(bits, other, x)
    {
      CoversIsInAny(bits, r, x);
      CoversIsInAny(bits, other, x);
    }
    if SameCoverage(BlocksOf(bits, r), BlocksOf(bits, other)) {
      forall x: nat
        ensures InAny(bits, other, x) <==> Covered(bits, items, x)
      {
        assert Covers(BlocksOf(bits, r), x) <==> Covers(BlocksOf(bits, other), x);
        assert InAny(bits, r, x) <==> Covered(bits, items, x);
      }
    }
  }

  lemma CollapsedParts(bits: nat, items: seq<Item>, r: seq<Net>)
    requires ValidItems(bits, items) && Collapsed(bits, items, r)
    ensures AllValid(bits, r) && AscendingNets(bits, r) && SameAddresses(bits, items, r) && bits > 0
    ensures Canonical.Canonical(BlocksOf(bits, r)) <==> forall d :: !Blocked(bits, items, d)
  {
    hide Blocked, Covered, InAny, Canonical.Canonical;
  }

  lemma OneShorter(bits: nat, items: seq<Item>, r: seq<Net>) returns (other: seq<Net>)
    requires ValidItems(bits, items) && Collapsed(bits, items, r) && !Canonical.Canonical(BlocksOf(bits, r))
    ensures SameAddresses(bits, items, other) && |other| == |r| - 1
  {
    hide *;
    CollapsedParts(bits, items, r);
    BlocksBelow(bits, r);
    var blocks := NotShortest(BlocksOf(bits, r), Pow2(bits));
    other := NetsOfBlocks(bits, blocks);
    SameCovers(bits, items, r, other);
  }

  lemma NoneShorter(bits: nat, items: seq<Item>, r: seq<Net>, other: seq<Net>)
    requires ValidItems(bits, items) && Collapsed(bits, items, r) && Canonical.Canonical(BlocksOf(bits, r))
    requires SameAddresses(bits, items, other) && AllValid(bits, other)
    ensures |r| <= |other|
  {
    hide *;
    CollapsedParts(bits, items, r);
    SameCovers(bits, items, r, other);
    AnyBlocks(bits, other);
    CanonicalIsShortest(BlocksOf(bits, r), BlocksOf(bits, other));
  }

  lemma AnyBlocks(bits: nat, nets: seq<Net>)
    requires AllValid(bits, nets)
    ensures Blocks(BlocksOf(bits, nets))
  {
    hide Network, Broadcast, Aligned, BlockOf;
    forall i | 0 <= i < |nets|
      ensures Aligned(BlockOf(nets[i]).lo, BlockOf(nets[i]).k)
    {
      NetBlock(nets[i]);
    }
  }

  /** For any list: the result is the shortest there is if and only if nothing listed is blocked. */
  lemma ShortestIffNoneBlocked(bits: nat, items: seq<Item>, r: seq<Net>)
    requires ValidItems(bits, items) && Collapsed(bits, items, r)
    ensures (forall other :: SameAddresses(bits, items, other) ==> |r| <= |other|) <==>
              forall d :: !Blocked(bits, items, d)
  {
    hide *;
    CollapsedParts(bits, items, r);
    if Canonical.Canonical(BlocksOf(bits, r)) {
      forall other | SameAddresses(bits, items, other)
        ensures |r| <= |other|
      {
        SameAddressesValid(bits, items, other);
        NoneShorter(bits, items, r, other);
      }
    } else {
      var other := OneShorter(bits, items, r);
    }
  }

  lemma SameAddressesValid(bits: nat, items: seq<Item>, nets: seq<Net>)
    requires ValidItems(bits, items) && SameAddresses(bits, items, nets)
    ensures AllValid(bits, nets)
  {
  }

  /** Of networks without host bits the list is collapsed fully: no networks with these addresses are fewer. */
  lemma CollapsedIsShortest(bits: nat, items: seq<Item>, r: seq<Net>, other: seq<Net>)
    requires ValidItems(bits, items) && NoHostBits(bits, items) && Collapsed(bits, items, r)
    requires SameAddresses(bits, items, other) && AllValid(bits, other)
    ensures forall i :: 0 <= i < |r| ==> HostBitsZero(r[i])
    ensures Canonical.Canonical(BlocksOf(bits, r))
    ensures |r| <= |other|
    ensures Canonical.Canonical(BlocksOf(bits, other)) ==> BlocksOf(bits, other) == BlocksOf(bits, r)
  {
    hide *;
    CollapsedParts(bits, items, r);
    NoneBlocked(bits, items);
    forall i | 0 <= i < |r|
      ensures Valid(r[i]) && HostBitsZero(r[i])
    {
      NoHostBitsLeft(bits, items, r, i);
    }
    NoneShorter(bits, items, r, other);
    if Canonical.Canonical(BlocksOf(bits, other)) {
      SameCovers(bits, items, r, other);
      CanonicalIsUnique(BlocksOf(bits, r), BlocksOf(bits, other));
    }
  }

  lemma NoneBlocked(bits: nat, items: seq<Item>)
    requires ValidItems(bits, items) && NoHostBits(bits, items)
    ensures forall d :: !Blocked(bits, items, d)
  {
    hide Network, Covered, Listed, Inside, InNet, Size;
  }

  lemma NoHostBitsLeft(bits: nat, items: seq<Item>, r: seq<Net>, i: nat)
    requires ValidItems(bits, items) && NoHostBits(bits, items) && Collapsed(bits, items, r) && i < |r|
    ensures Valid(r[i]) && HostBitsZero(r[i])
  {
    hide Network, Covered, InAny, Canonical.Canonical, Blocked, AscendingNets, NothingToMerge, ValidItem;
    assert r[i] in r;
  }

  /** The two halves of one network, the upper one given by its last address. */
  function HalvesWithHostBits(): seq<Item> {
    [Netw(Net(32, 0, 31)), Netw(Net(32, 3, 31))]
  }

  /** With host bits it need not be: these two halves do not merge. */
  lemma HostBitsBlock(r: seq<Net>)
    ensures ValidItems(32, HalvesWithHostBits())
    ensures Blocked(32, HalvesWithHostBits(), Net(32, 3, 31))
    ensures Collapsed(32, HalvesWithHostBits(), r) ==> !Canonical.Canonical(BlocksOf(32, r))
  {
    hide *;
    var d := Net(32, 3, 31);
    TwoHalves(HalvesWithHostBits(), Net(32, 0, 31), d);
    FrozenIs(32, HalvesWithHostBits(), d, 2);
    BlockedParts(32, HalvesWithHostBits(), d);
    CollapsedCanonical(32, HalvesWithHostBits(), r, d);
  }

  lemma TwoHalves(items: seq<Item>, a: Net, d: Net)
    requires items == HalvesWithHostBits() && a == Net(32, 0, 31) && d == Net(32, 3, 31)
    ensures ValidItems(32, items) && Unmergeable(d) && Netw(d) in items && Valid(d)
    ensures forall x: nat :: Network(d) - Size(d) <= x < Network(d) ==> Covered(32, items, x)
    ensures forall n :: Netw(n) in items && Valid(n) && Inside(d, n) ==> n.prefix == d.prefix && !HostBitsZero(n)
    ensures InNet(d, 2) && !Listed(32, items, 2)
  {
    hide *;
    TwoNets(a, d);
    TwoItems(items, a, d);
    forall x: nat | 0 <= x < 2
      ensures Covered(32, items, x)
    {
      InNetIs(a, x);
      CoveredAt(32, items, 0, x);
    }
    InNetIs(d, 2);
  }

  lemma TwoItems(items: seq<Item>, a: Net, d: Net)
    requires items == HalvesWithHostBits() && Valid(a) && Valid(d) && a == Net(32, 0, 31) && d == Net(32, 3, 31)
    ensures ValidItems(32, items) && Netw(d) in items && |items| == 2 && items[0] == Netw(a)
    ensures forall n :: Netw(n) in items ==> n == a || n == d
    ensures Listed(32, items, 2) ==> a.prefix == 32 || d.prefix == 32
  {
    hide Valid;
    assert items[1] == Netw(d);
    assert forall item :: item in items ==> item == Netw(a) || item == Netw(d);
  }

  lemma CoveredAt(bits: nat, items: seq<Item>, i: nat, x: nat)
    requires ValidItems(bits, items) && i < |items| && items[i].Netw? && Valid(items[i].net) && InNet(items[i].net, x)
    ensures Covered(bits, items, x)
  {
    hide Valid, InNet;
  }

  lemma TwoNets(a: Net, d: Net)
    requires a == Net(32, 0, 31) && d == Net(32, 3, 31)
    ensures Valid(a) && Valid(d) && Unmergeable(d) && !HostBitsZero(d)
    ensures Network(a) == 0 && Broadcast(a) == 1 && Network(d) == 2 && Broadcast(d) == 3 && Size(d) == 2
    ensures !Inside(d, a)
  {
    hide *;
    TwoPowers(a, d);
    BlockBounds(a);
    BlockBounds(d);
    TwoStarts(a, d);
    TwoApart(a, d);
  }

  lemma TwoPowers(a: Net, d: Net)
    requires a == Net(32, 0, 31) && d == Net(32, 3, 31)
    ensures Valid(a) && Valid(d) && Size(a) == 2 && Size(d) == 2
  {
    hide Network, Broadcast;
    Pow2Monotone(2, 32);
    assert Pow2(0) == 1 && Pow2(1) == 2 && Pow2(2) == 4;
  }

  lemma TwoStarts(a: Net, d: Net)
    requires a == Net(32, 0, 31) && d == Net(32, 3, 31) && Valid(a) && Valid(d)
    ensures Network(a) == 0 && Network(d) == 2
    ensures !Aligned(2, 2)
  {
    hide Broadcast, And, Netmask;
    assert Pow2(0) == 1 && Pow2(1) == 2 && Pow2(2) == 4;
  }

  lemma TwoApart(a: Net, d: Net)
    requires Valid(a) && Valid(d) && a == Net(32, 0, 31) && d == Net(32, 3, 31)
    requires Network(a) == 0 && Broadcast(a) == 1 && Network(d) == 2 && Broadcast(d) == 3 && !Aligned(2, 2)
    ensures Unmergeable(d) && !HostBitsZero(d) && !Inside(d, a)
  {
    hide Network, Broadcast, Aligned;
    assert InNet(d, 2) && !InNet(a, 2);
  }

  lemma CollapsedCanonical(bits: nat, items: seq<Item>, r: seq<Net>, d: Net)
    requires ValidItems(bits, items) && Blocked(bits, items, d)
    ensures Collapsed(bits, items, r) ==> !Canonical.Canonical(BlocksOf(bits, r))
  {
  }
}
