/** Splitting, widening and cutting out of networks: `subnet`, `supernet` and `address_exclude` of `ipaddr.py`. */
module Subnets {
  import opened Wrappers
  import opened Powers
  import opened Bits
  import opened Alignment
  import opened Networks
  import opened Sorting

  datatype Error = ValueError | PrefixlenDiffInvalid | NetmaskValidation | NotContained | Exclusion

  // ----- supernet

  function Supernet(n: Net, diff: int, newPrefix: Option<int>): Result<Net, Error>
    requires Valid(n)
  {
    if n.prefix == 0 then Ok(n)
    else if newPrefix.Some? && newPrefix.value > n.prefix then Err(ValueError)
    else if newPrefix.Some? && diff != 1 then Err(ValueError)
    else
      var d := if newPrefix.Some? then n.prefix - newPrefix.value else diff;
      if n.prefix - d < 0 then Err(PrefixlenDiffInvalid)
      else if n.prefix - d > n.bits then Err(NetmaskValidation)
      else Ok(Net(n.bits, Network(n), n.prefix - d))
  }

  /** Which supernets are refused, and how; the others have the address of the network, and the prefix asked for. */
  lemma SupernetOutcomes(n: Net, diff: int, newPrefix: Option<int>)
    requires Valid(n)
    ensures n.prefix == 0 ==> Supernet(n, diff, newPrefix) == Ok(n)
    ensures n.prefix > 0 && newPrefix.Some? ==>
              var p := newPrefix.value;
              Supernet(n, diff, newPrefix) ==
              if p > n.prefix || diff != 1 then Err(ValueError)
              else if p < 0 then Err(PrefixlenDiffInvalid)
              else Ok(Net(n.bits, Network(n), p))
    ensures n.prefix > 0 && newPrefix.None? ==>
              Supernet(n, diff, newPrefix) ==
              if diff > n.prefix then Err(PrefixlenDiffInvalid)
              else if diff < n.prefix - n.bits then Err(NetmaskValidation)
              else Ok(Net(n.bits, Network(n), n.prefix - diff))
  {
  }

  lemma SupernetValid(n: Net, diff: int, newPrefix: Option<int>)
    requires Valid(n)
    ensures Supernet(n, diff, newPrefix).Ok? ==> Valid(Supernet(n, diff, newPrefix).value)
  {
    BlockBounds(n);
  }

  // ----- subnet

  /** The `i`-th of the equal parts of `n` with prefix `prefix`. */
  function Part(n: Net, prefix: nat, i: nat): Net
    requires Valid(n) && prefix <= n.bits
  {
    Net(n.bits, Network(n) + i * Pow2(n.bits - prefix), prefix)
  }

  lemma PartCore(base: nat, s: nat, m: nat, i: nat)
    requires s > 0 && i < m
    ensures base <= base + i * s && base + i * s + s <= base + m * s
    ensures base + (i + 1) * s == base + i * s + s
    ensures base + i * s + s == base + m * s <==> i + 1 == m
  {
    MulPositive(i, s);
    MulAdds(i, 1, s);
    if i + 1 < m {
      MulLess(i + 1, m, s);
    }
  }

  /** What `Part` stands for, in numbers. */
  lemma PartIs(n: Net, prefix: nat, i: nat)
    requires Valid(n) && n.prefix <= prefix <= n.bits && i < Pow2(prefix - n.prefix)
    ensures Part(n, prefix, i) == Net(n.bits, Network(n) + i * Pow2(n.bits - prefix), prefix)
    ensures n.bits > 0 && Size(n) == Pow2(n.bits - n.prefix) == Pow2(prefix - n.prefix) * Pow2(n.bits - prefix)
    ensures Aligned(i * Pow2(n.bits - prefix), n.bits - prefix)
    ensures Part(n, prefix, 0).ip == Network(n)
  {
    Pow2Add(prefix - n.prefix, n.bits - prefix);
    AlignedIs(i * Pow2(n.bits - prefix), i, n.bits - prefix);
  }

  /** Each part is a block of the parent's, and the next one starts where it ends. */
  lemma PartFacts(n: Net, prefix: nat, i: nat)
    requires Valid(n) && n.prefix <= prefix <= n.bits && i < Pow2(prefix - n.prefix)
    ensures var p := Part(n, prefix, i);
            && Valid(p) && Network(p) == p.ip && HostBitsZero(p)
            && Size(p) == Pow2(n.bits - prefix)
            && Network(n) <= Network(p) && Broadcast(p) <= Broadcast(n)
            && Broadcast(p) + 1 == Network(n) + (i + 1) * Pow2(n.bits - prefix)
            && (Broadcast(p) == Broadcast(n) <==> i + 1 == Pow2(prefix - n.prefix))
  {
    hide *;
    PartIs(n, prefix, i);
    PartCore(Network(n), Pow2(n.bits - prefix), Pow2(prefix - n.prefix), i);
    BlockBounds(n);
    AlignedDown(Network(n), n.bits - n.prefix, n.bits - prefix);
    AlignedAdd(Network(n), i * Pow2(n.bits - prefix), n.bits - prefix);
    Pow2Step(n.bits - prefix);
    BlockNet(n.bits, Network(n) + i * Pow2(n.bits - prefix), prefix);
  }

  /** The parts of a network with prefix `prefix`, in order. */
  ghost predicate AreParts(n: Net, prefix: nat, parts: seq<Net>)
    requires Valid(n) && n.prefix <= prefix <= n.bits
  {
    forall i :: 0 <= i < |parts| ==> parts[i] == Part(n, prefix, i)
  }

  lemma PrefixFits(n: Net)
    requires Valid(n)
    ensures n.prefix <= n.bits
  {
  }

  lemma FirstPart(n: Net, prefix: nat)
    requires Valid(n) && n.prefix <= prefix <= n.bits
    ensures Net(n.bits, Network(n), prefix) == Part(n, prefix, 0) && Valid(Part(n, prefix, 0))
    ensures AreParts(n, prefix, [Part(n, prefix, 0)]) && Pow2(prefix - n.prefix) >= 1
  {
    PartFacts(n, prefix, 0);
  }

  method Subnet(n: Net, diff: int, newPrefix: Option<int>) returns (r: Result<seq<Net>, Error>)
    requires Valid(n)
    ensures n.prefix == n.bits ==> r == Ok([n])
    ensures n.prefix < n.bits && newPrefix.Some? && (newPrefix.value < n.prefix || diff != 1) ==> r == Err(ValueError)
    ensures n.prefix < n.bits && (newPrefix.None? || (newPrefix.value >= n.prefix && diff == 1)) ==>
              var d := if newPrefix.Some? then newPrefix.value - n.prefix else diff;
              if d < 0 || n.prefix + d > n.bits then r == Err(PrefixlenDiffInvalid)
              else r.Ok? && |r.value| == Pow2(d) && AreParts(n, n.prefix + d, r.value)
  {
    hide *;
    PrefixFits(n);
    if n.prefix == n.bits {
      return Ok([n]);
    }
    var d := diff;
    if newPrefix.Some? {
      if newPrefix.value < n.prefix {
        return Err(ValueError);
      }
      if diff != 1 {
        return Err(ValueError);
      }
      d := newPrefix.value - n.prefix;
    }
    if d < 0 {
      return Err(PrefixlenDiffInvalid);
    }
    var newPrefixLen := n.prefix + d;
    if newPrefixLen > n.bits {
      return Err(PrefixlenDiffInvalid);
    }
    ghost var m := Pow2(d);
    FirstPart(n, newPrefixLen);
    var first := Net(n.bits, Network(n), newPrefixLen);
    var subnets := [first];
    var current := first;
    while true
      invariant 1 <= |subnets| <= m && AreParts(n, newPrefixLen, subnets)
      invariant current == Part(n, newPrefixLen, |subnets| - 1)
      decreases m - |subnets|
    {
      PartFacts(n, newPrefixLen, |subnets| - 1);
      var broadcast := Broadcast(current);
      if broadcast == Broadcast(n) {
        break;
      }
      PartIs(n, newPrefixLen, |subnets|);
      var newAddr := broadcast + 1;
      current := Net(n.bits, newAddr, newPrefixLen);
      OneMorePart(n, newPrefixLen, subnets);
      subnets := subnets + [current];
    }
    return Ok(subnets);
  }

  lemma OneMorePart(n: Net, prefix: nat, parts: seq<Net>)
    requires Valid(n) && n.prefix <= prefix <= n.bits && AreParts(n, prefix, parts)
    ensures AreParts(n, prefix, parts + [Part(n, prefix, |parts|)])
  {
  }

  /** The parts tile the parent: an address is in the parent exactly when it is in a part, and then in one only. */
  lemma PartsTile(n: Net, prefix: nat, parts: seq<Net>, x: nat)
    requires Valid(n) && n.prefix <= prefix <= n.bits
    requires AreParts(n, prefix, parts) && |parts| == Pow2(prefix - n.prefix)
    ensures forall i :: 0 <= i < |parts| ==> Valid(parts[i]) && parts[i].prefix == prefix && HostBitsZero(parts[i])
    ensures InNet(n, x) <==> exists i :: 0 <= i < |parts| && InNet(parts[i], x)
    ensures forall i, j :: 0 <= i < j < |parts| ==> Broadcast(parts[i]) < Network(parts[j])
  {
    hide Network, Broadcast, Pow2, Aligned, Size;
    var s := Pow2(n.bits - prefix);
    forall i | 0 <= i < |parts|
      ensures Valid(parts[i]) && parts[i].prefix == prefix && HostBitsZero(parts[i])
      ensures Network(parts[i]) == Network(n) + i * s && Broadcast(parts[i]) + 1 == Network(n) + (i + 1) * s
      ensures InNet(parts[i], x) ==> InNet(n, x)
    {
      PartFacts(n, prefix, i);
      PartIs(n, prefix, i);
    }
    forall i, j | 0 <= i < j < |parts|
      ensures Broadcast(parts[i]) < Network(parts[j])
    {
      MulOrder(i + 1, j, s);
    }
    if InNet(n, x) {
      PartIs(n, prefix, 0);
      var i := (x - Network(n)) / s;
      PartOf(x - Network(n), s, |parts|);
      assert InNet(parts[i], x);
    }
  }

  lemma PartOf(y: nat, s: nat, m: nat)
    requires s > 0 && y < m * s
    ensures 0 <= y / s < m && (y / s) * s <= y < (y / s + 1) * s
  {
    DivMod(y, s);
    MulAdds(y / s, 1, s);
    if y / s >= m {
      MulOrder(m, y / s, s);
    }
    MulPositive(y / s, s);
  }

  /** The supernet of a part, as much shorter as the part is longer, has the parent's network. */
  lemma SupernetOfPart(n: Net, d: nat, i: nat)
    requires Valid(n) && n.prefix + d <= n.bits && i < Pow2(d)
    ensures var p := Part(n, n.prefix + d, i);
            && Valid(p) && Supernet(p, d, None).Ok?
            && Valid(Supernet(p, d, None).value)
            && Supernet(p, d, None).value.prefix == n.prefix
            && Network(Supernet(p, d, None).value) == Network(n)
  {
    hide *;
    PartFacts(n, n.prefix + d, i);
    PartIs(n, n.prefix + d, i);
    var p := Part(n, n.prefix + d, i);
    SupernetIs(p, d);
    SupernetValid(p, d, None);
    BlockBounds(p);
    SameBlock(Supernet(p, d, None).value, n);
  }

  lemma SupernetIs(p: Net, d: nat)
    requires Valid(p) && d <= p.prefix
    ensures Supernet(p, d, None) == if p.prefix == 0 then Ok(p) else Ok(Net(p.bits, Network(p), p.prefix - d))
  {
  }

  lemma SameBlock(a: Net, b: Net)
    requires Valid(a) && Valid(b) && a.bits == b.bits && a.prefix == b.prefix
    ensures Network(b) <= a.ip <= Broadcast(b) ==> Network(a) == Network(b)
  {
    hide Network, Broadcast, Pow2, Aligned;
    BlockBounds(a);
    BlockBounds(b);
    if Network(b) <= a.ip <= Broadcast(b) {
      Nested(Network(a), a.bits - a.prefix, Network(b), b.bits - b.prefix);
    }
  }

  // ----- address_exclude

  /** What `_get_networks_key` compares: the network, then the netmask. */
  function Key(n: Net): (nat, nat) {
    if Valid(n) then (Network(n), Netmask(n)) else (0, 0)
  }

  function KeyOrder(): (Net, Net) -> bool {
    (a: Net, b: Net) => Key(a).0 < Key(b).0 || (Key(a).0 == Key(b).0 && Key(a).1 <= Key(b).1)
  }

  lemma KeyOrderIsPreorder()
    ensures TotalPreorder(KeyOrder())
  {
    hide Key;
  }

  /** `other` is part of `n` and not all of it. */
  predicate StrictlyInside(other: Net, n: Net)
    requires Valid(n) && Valid(other)
  {
    n.prefix < other.prefix && Network(n) <= Network(other) && Broadcast(other) <= Broadcast(n)
  }

  function LowerHalf(n: Net): (l: Net)
    requires Valid(n) && n.prefix < n.bits
    ensures Valid(l)
  {
    Pow2Zero1();
    PartFacts(n, n.prefix + 1, 0);
    Part(n, n.prefix + 1, 0)
  }

  function UpperHalf(n: Net): (u: Net)
    requires Valid(n) && n.prefix < n.bits
    ensures Valid(u)
  {
    Pow2Zero1();
    PartFacts(n, n.prefix + 1, 1);
    Part(n, n.prefix + 1, 1)
  }

  lemma HalfFacts(n: Net)
    requires Valid(n) && n.prefix < n.bits
    ensures var l, u := LowerHalf(n), UpperHalf(n);
            && Valid(l) && Valid(u) && HostBitsZero(l) && HostBitsZero(u)
            && l.bits == u.bits == n.bits && l.prefix == u.prefix == n.prefix + 1
            && Network(l) == Network(n) == l.ip && Broadcast(l) + 1 == Network(u) == u.ip &&
              Broadcast(u) == Broadcast(n)
            && Network(l) <= Broadcast(l) && Network(u) <= Broadcast(u)
  {
    hide Network, Broadcast, Pow2, Aligned, Size;
    Pow2Zero1();
    PartFacts(n, n.prefix + 1, 0);
    PartFacts(n, n.prefix + 1, 1);
    PartIs(n, n.prefix + 1, 0);
    PartIs(n, n.prefix + 1, 1);
    BlockBounds(LowerHalf(n));
    BlockBounds(UpperHalf(n));
  }

  lemma Pow2Zero1()
    ensures Pow2(0) == 1 && Pow2(1) == 2
  {
  }

  /** A network strictly inside another is one of its halves, or strictly inside one; the code's tests tell which. */
  lemma InOneHalf(n: Net, other: Net)
    requires Valid(n) && Valid(other) && n.bits == other.bits && HostBitsZero(other) && StrictlyInside(other, n)
    ensures n.prefix < n.bits
    ensures var l, u := LowerHalf(n), UpperHalf(n);
            && (Contains(l, other) || Contains(u, other))
            && !(Contains(l, other) && Contains(u, other))
            && (Contains(l, other) && other != l ==> StrictlyInside(other, l))
            && (Contains(u, other) && other != u ==> StrictlyInside(other, u))
            && Contains(l, l) && Contains(u, u)
  {
    hide Network, Broadcast, Pow2, Aligned, Size;
    HalfFacts(n);
    var l, u := LowerHalf(n), UpperHalf(n);
    BlockBounds(other);
    NestedOrDisjoint(l, other);
    NestedOrDisjoint(u, other);
    assert Disjoint(l, other) ==> !InNet(l, other.ip) by { assert InNet(other, other.ip); }
    if other.prefix == l.prefix {
      SameBlock(other, l);
      SameBlock(other, u);
    }
  }

  ghost predicate AllNets(bits: nat, nets: seq<Net>) {
    AllValid(bits, nets) && forall i :: 0 <= i < |nets| ==> HostBitsZero(nets[i])
  }

  /** Networks with one prefix length after the other, starting after `n`'s, that leave exactly `rest` of `n`. */
  ghost predicate Peeled(n: Net, rest: Net, peels: seq<Net>)
    requires Valid(n) && Valid(rest)
  {
    && n.bits == rest.bits && n.prefix <= rest.prefix && |peels| == rest.prefix - n.prefix
    && AllNets(n.bits, peels)
    && (forall i :: 0 <= i < |peels| ==> peels[i].prefix == n.prefix + 1 + i)
    && (forall i, j :: 0 <= i < j < |peels| ==> Disjoint(peels[i], peels[j]))
    && (forall i :: 0 <= i < |peels| ==> Disjoint(peels[i], rest))
    && (forall x: nat :: InNet(n, x) <==> InNet(rest, x) || InAny(n.bits, peels, x))
  }

  lemma NothingPeeled(n: Net)
    requires Valid(n)
    ensures Peeled(n, n, [])
  {
  }

  /** Keeping one half of the rest peels off the other. */
  lemma PeelHalf(n: Net, rest: Net, peels: seq<Net>, keep: Net, drop: Net)
    requires Valid(n) && Valid(rest) && rest.prefix < rest.bits && Peeled(n, rest, peels)
    requires (keep == LowerHalf(rest) && drop == UpperHalf(rest)) ||
               (keep == UpperHalf(rest) && drop == LowerHalf(rest))
    ensures Valid(keep) && Peeled(n, keep, peels + [drop])
  {
    hide Network, Broadcast, Pow2, Aligned, Size, LowerHalf, UpperHalf, HostBitsZero;
    HalfFacts(rest);
    assert forall x: nat :: InNet(rest, x) <==> InNet(keep, x) || InNet(drop, x);
    assert forall x: nat :: !(InNet(keep, x) && InNet(drop, x));
    var more := peels + [drop];
    assert AllNets(n.bits, more);
    forall i | 0 <= i < |peels|
      ensures Disjoint(more[i], keep) && Disjoint(more[i], drop)
    {
      assert Disjoint(peels[i], rest);
    }
    forall x: nat
      ensures InAny(n.bits, more, x) <==> InAny(n.bits, peels, x) || InNet(drop, x)
    {
      if InAny(n.bits, peels, x) {
        var i :| 0 <= i < |peels| && InNet(peels[i], x);
        assert InNet(more[i], x);
      }
      assert more[|peels|] == drop;
      if InAny(n.bits, more, x) && !InNet(drop, x) {
        var i :| 0 <= i < |more| && InNet(more[i], x);
        assert InNet(peels[i], x);
      }
    }
  }

  /**
   What is left of `n` without `other`: sorted networks that cover exactly the addresses of
   `n` outside `other`, one for each prefix length from `n`'s plus one to `other`'s.
   */
  ghost predicate Excludes(n: Net, other: Net, r: seq<Net>)
    requires Valid(n) && Valid(other)
  {
    && AllNets(n.bits, r)
    && (forall i, j :: 0 <= i < j < |r| ==> Broadcast(r[i]) < Network(r[j]))
    && (forall x: nat :: InAny(n.bits, r, x) <==> InNet(n, x) && !InNet(other, x))
    && |r| == other.prefix - n.prefix
    && (forall i :: 0 <= i < |r| ==> n.prefix < r[i].prefix <= other.prefix)
    && (forall i, j :: 0 <= i < j < |r| ==> r[i].prefix != r[j].prefix)
  }

  lemma SameElements(bits: nat, r: seq<Net>, peels: seq<Net>)
    requires AllNets(bits, peels) && forall m :: m in r <==> m in peels
    ensures AllNets(bits, r)
    ensures forall x: nat :: InAny(bits, r, x) <==> InAny(bits, peels, x)
  {
    hide Valid, Network, Broadcast, HostBitsZero, InNet;
    assert forall i :: 0 <= i < |r| ==> r[i] in r;
    forall x: nat
      ensures InAny(bits, r, x) <==> InAny(bits, peels, x)
    {
      if InAny(bits, r, x) {
        var i :| 0 <= i < |r| && InNet(r[i], x);
        assert r[i] in peels;
      }
      if InAny(bits, peels, x) {
        var i :| 0 <= i < |peels| && InNet(peels[i], x);
        assert peels[i] in r;
      }
    }
  }

  lemma PeelsInOrder(n: Net, other: Net, peels: seq<Net>, a: Net, b: Net)
    requires Valid(n) && Valid(other) && Peeled(n, other, peels) && a in peels && b in peels && a != b
    requires KeyOrder()(a, b)
    ensures Valid(a) && Valid(b) && a.prefix != b.prefix && Broadcast(a) < Network(b)
    ensures n.prefix < a.prefix <= other.prefix
  {
    hide Network, Broadcast, Pow2, Aligned, Size, HostBitsZero, InAny, Netmask;
    var i :| 0 <= i < |peels| && peels[i] == a;
    var j :| 0 <= j < |peels| && peels[j] == b;
    BlockBounds(a);
    BlockBounds(b);
    if i < j {
      assert Disjoint(peels[i], peels[j]);
      NestedOrDisjoint(a, b);
    } else {
      assert Disjoint(peels[j], peels[i]);
      NestedOrDisjoint(b, a);
    }
  }

  lemma PeelsPrefix(n: Net, other: Net, peels: seq<Net>, a: Net)
    requires Valid(n) && Valid(other) && Peeled(n, other, peels) && a in peels
    ensures n.prefix < a.prefix <= other.prefix
  {
    hide Valid, Network, Broadcast, HostBitsZero, InAny;
    var i :| 0 <= i < |peels| && peels[i] == a;
  }

  lemma PeeledParts(n: Net, rest: Net, peels: seq<Net>)
    requires Valid(n) && Valid(rest) && Peeled(n, rest, peels)
    ensures AllNets(n.bits, peels) && |peels| == rest.prefix - n.prefix
    ensures NoRepeats(peels)
    ensures forall x: nat :: InAny(n.bits, peels, x) <==> InNet(n, x) && !InNet(rest, x)
  {
    hide Valid, Network, Broadcast, HostBitsZero;
    forall x: nat
      ensures InAny(n.bits, peels, x) <==> InNet(n, x) && !InNet(rest, x)
    {
      if InAny(n.bits, peels, x) {
        var i :| 0 <= i < |peels| && InNet(peels[i], x);
        assert Disjoint(peels[i], rest);
      }
    }
  }

  lemma SortedPeelsExclude(n: Net, other: Net, peels: seq<Net>)
    requires Valid(n) && Valid(other) && Peeled(n, other, peels)
    ensures Excludes(n, other, Sort(KeyOrder(), peels))
  {
    hide Sort, Valid, Network, Broadcast, HostBitsZero, InAny, InNet, Peeled, KeyOrder, AllNets;
    var r := Sort(KeyOrder(), peels);
    KeyOrderIsPreorder();
    SortIsSorted(KeyOrder(), peels);
    SortKeepsElements(KeyOrder(), peels);
    SortKeepsDistinct(KeyOrder(), peels);
    PeeledParts(n, other, peels);
    SameElements(n.bits, r, peels);
    forall i | 0 <= i < |r|
      ensures n.prefix < r[i].prefix <= other.prefix
    {
      assert r[i] in r;
      PeelsPrefix(n, other, peels, r[i]);
    }
    forall i, j | 0 <= i < j < |r|
      ensures Valid(r[i]) && Valid(r[j]) && r[i].prefix != r[j].prefix && Broadcast(r[i]) < Network(r[j])
    {
      assert r[i] in r && r[j] in r;
      PeelsInOrder(n, other, peels, r[i], r[j]);
    }
  }

  /** `other`, an object of the same kind, without its host bits. */
  function Stripped(other: Net): (o: Net)
    requires Valid(other)
    ensures Valid(o) && HostBitsZero(o) && Network(o) == Network(other) && Broadcast(o) == Broadcast(other)
    ensures o.bits == other.bits && o.prefix == other.prefix
  {
    BlockBounds(other);
    BlockNet(other.bits, Network(other), other.prefix);
    Net(other.bits, Network(other), other.prefix)
  }

  /** What a call that is not a proper exclusion does. */
  function RefusedExclude(n: Net, other: Net): Error
    requires Valid(n) && Valid(other)
  {
    if !Contains(n, other) then NotContained
    else if n.prefix == n.bits then ValueError
    else Exclusion
  }

  /** A network passes the first test against itself, and then is refused, but not as documented. */
  lemma ExcludingItself(n: Net)
    requires Valid(n)
    ensures Contains(n, n) && !StrictlyInside(n, n)
    ensures RefusedExclude(n, n) == if n.prefix == n.bits then ValueError else Exclusion
  {
    BlockBounds(n);
  }

  lemma Pow2ThirtyTwo()
    ensures Pow2(32) == 0x1_0000_0000
  {
    assert Pow2(8) == 0x100;
    Pow2Add(8, 8);
    Pow2Add(16, 16);
  }

  /** 10.0.0.1/32 and 10.0.0.0/8. */
  lemma ExcludingItselfExamples()
    ensures var n := Net(32, 0x0A00_0001, 32); Valid(n) && Contains(n, n) && RefusedExclude(n, n) == ValueError
    ensures var n := Net(32, 0x0A00_0000, 8); Valid(n) && Contains(n, n) && RefusedExclude(n, n) == Exclusion
  {
    hide Network, Broadcast, Pow2, RefusedExclude, Contains;
    Pow2ThirtyTwo();
    ExcludingItself(Net(32, 0x0A00_0001, 32));
    ExcludingItself(Net(32, 0x0A00_0000, 8));
  }

  /** A network that passes the code's first test is strictly inside, or covers all of `n`. */
  lemma ContainsWhat(n: Net, other: Net)
    requires Valid(n) && Valid(other) && n.bits == other.bits
    ensures StrictlyInside(other, n) ==> Contains(n, other) && n.prefix < n.bits
    ensures Contains(n, other) && !StrictlyInside(other, n) ==>
              Network(other) <= Network(n) && Broadcast(n) <= Broadcast(other)
  {
    hide Network, Broadcast, Pow2, Aligned, Size;
    BlockBounds(n);
    BlockBounds(other);
    assert Contains(n, other) ==> InNet(n, other.ip) && InNet(other, other.ip);
    if n.prefix < other.prefix {
      NestedOrDisjoint(n, other);
    } else {
      NestedOrDisjoint(other, n);
    }
  }

  lemma ContainsIs(n: Net, other: Net)
    requires Valid(n) && Valid(other)
    ensures Contains(n, other) <==> Network(n) <= other.ip && Broadcast(other) <= Broadcast(n)
  {
    hide Network, Broadcast;
  }

  /** Then the code's two further tests find it in neither half. */
  lemma InNeitherHalf(n: Net, other: Net)
    requires Valid(n) && Valid(other) && n.bits == other.bits && n.prefix < n.bits
    requires Contains(n, other) && !StrictlyInside(other, n)
    ensures var o, l, u := Stripped(other), LowerHalf(n), UpperHalf(n);
            o != l && o != u && !Contains(l, o) && !Contains(u, o)
  {
    hide Network, Broadcast, Pow2, Aligned, Size, LowerHalf, UpperHalf;
    ContainsWhat(n, other);
    HalfFacts(n);
    BlockBounds(n);
    BlockBounds(other);
  }

  /** `s1, s2 = n.subnet()`, which fails to unpack the single network of a full prefix. */
  method Halves(n: Net) returns (r: Option<(Net, Net)>)
    requires Valid(n)
    ensures r == if n.prefix == n.bits then None else Some((LowerHalf(n), UpperHalf(n)))
  {
    Pow2Zero1();
    var halves := Subnet(n, 1, None);
    if |halves.value| != 2 {
      return None;
    }
    return Some((halves.value[0], halves.value[1]));
  }

  lemma StrippedFacts(n: Net, other: Net)
    requires Valid(n) && Valid(other) && n.bits == other.bits
    ensures var o := Stripped(other);
            && (StrictlyInside(other, n) <==> StrictlyInside(o, n))
            && (StrictlyInside(o, n) ==> n.prefix < o.prefix)
            && forall r :: Excludes(n, o, r) <==> Excludes(n, other, r)
    ensures n.prefix <= n.bits
    ensures RefusedExclude(n, other) ==
              if !Contains(n, other) then NotContained else if n.prefix == n.bits then ValueError else Exclusion
  {
    hide Network, Broadcast;
    var o := Stripped(other);
    assert forall x: nat :: InNet(o, x) <==> InNet(other, x);
  }

  lemma StrictPrefix(o: Net, n: Net)
    requires Valid(o) && Valid(n) && o.bits == n.bits
    ensures StrictlyInside(o, n) ==> n.prefix < o.prefix <= n.bits
  {
  }

  lemma HalfPrefix(n: Net)
    requires Valid(n) && n.prefix < n.bits
    ensures LowerHalf(n).bits == UpperHalf(n).bits == n.bits
    ensures LowerHalf(n).prefix == UpperHalf(n).prefix == n.prefix + 1
  {
  }

  /**
   `address_exclude`: the documented refusal is of networks not contained in this one.  In
   fact the call succeeds exactly when the other network is strictly inside, and then gives
   what is left; a network that covers all of this one is refused in other ways.
   */
  method AddressExclude(n: Net, other: Net) returns (r: Result<seq<Net>, Error>)
    requires Valid(n) && Valid(other) && n.bits == other.bits
    ensures r.Ok? <==> StrictlyInside(other, n)
    ensures r.Err? ==> r.error == RefusedExclude(n, other)
    ensures r == Err(NotContained) <==> other.ip < Network(n) || Broadcast(n) < Broadcast(other)
    ensures r == Err(ValueError) <==>
            n.prefix == n.bits && Network(n) <= other.ip && Broadcast(other) <= Broadcast(n)
    ensures r.Ok? ==> Excludes(n, other, r.value)
  {
    hide *;
    ContainsWhat(n, other);
    ContainsIs(n, other);
    StrippedFacts(n, other);
    if !Contains(n, other) {
      return Err(NotContained);
    }
    var ret: seq<Net> := [];
    var o := Stripped(other);
    var halves := Halves(n);
    if halves.None? {
      return Err(ValueError);
    }
    var (s1, s2) := halves.value;
    ghost var rest := n;
    NothingPeeled(n);
    if !StrictlyInside(other, n) {
      InNeitherHalf(n, other);
    }
    while s1 != o && s2 != o
      invariant Valid(rest) && rest.bits == n.bits && rest.prefix < rest.bits && Peeled(n, rest, ret)
      invariant s1 == LowerHalf(rest) && s2 == UpperHalf(rest)
      invariant if StrictlyInside(other, n) then StrictlyInside(o, rest) else rest == n
      decreases n.bits - rest.prefix
    {
      HalfPrefix(rest);
      if StrictlyInside(other, n) {
        InOneHalf(rest, o);
      }
      StrictPrefix(o, s1);
      StrictPrefix(o, s2);
      PeelHalf(n, rest, ret, s1, s2);
      PeelHalf(n, rest, ret, s2, s1);
      if Contains(s1, o) {
        ret := ret + [s2];
        rest := s1;
        halves := Halves(s1);
      } else if Contains(s2, o) {
        ret := ret + [s1];
        rest := s2;
        halves := Halves(s2);
      } else {
        return Err(Exclusion);
      }
      s1, s2 := halves.value.0, halves.value.1;
    }
    PeelHalf(n, rest, ret, s1, s2);
    PeelHalf(n, rest, ret, s2, s1);
    if s1 == o {
      ret := ret + [s2];
    } else {
      ret := ret + [s1];
    }
    SortedPeelsExclude(n, o, ret);
    return Ok(Sort(KeyOrder(), ret));
  }
}
