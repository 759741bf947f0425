/**
 Networks of `ipaddr.py`: an address of `bits` bits (32 or 128) with a prefix length.  The
 address may have host bits set, as the library allows.
 */
module Networks {
  import opened Powers
  import opened Bits
  import opened Alignment

  datatype Net = Net(bits: nat, ip: nat, prefix: nat)

  predicate Valid(n: Net) {
    n.bits > 0 && n.prefix <= n.bits && n.ip < Pow2(n.bits)
  }

  function AllOnes(bits: nat): nat {
    Pow2(bits) - 1
  }

  /** The number of addresses with this prefix. */
  function Size(n: Net): nat
    requires Valid(n)
  {
    Pow2(n.bits - n.prefix)
  }

  /** `_ip_int_from_prefix` */
  function IpIntFromPrefix(bits: nat, prefix: nat): (mask: nat)
    requires prefix <= bits
    ensures Pow2(bits - prefix) <= Pow2(bits)
    ensures mask == Pow2(bits) - Pow2(bits - prefix)
  {
    MaskFacts(bits, prefix);
    Xor(AllOnes(bits), Shr(AllOnes(bits), prefix))
  }

  lemma MaskFacts(bits: nat, prefix: nat)
    requires prefix <= bits
    ensures Pow2(bits - prefix) <= Pow2(bits)
    ensures Shr(AllOnes(bits), prefix) == Pow2(bits - prefix) - 1
    ensures Xor(AllOnes(bits), Shr(AllOnes(bits), prefix)) == Pow2(bits) - Pow2(bits - prefix)
  {
    hide Pow2, Xor, Shr;
    XorOnes(bits - prefix, bits);
    ShrDivides(AllOnes(bits), prefix);
    Pow2Add(bits - prefix, prefix);
    MulAdds(Pow2(bits - prefix) - 1, 1, Pow2(prefix));
    DivisionIsUnique(Pow2(bits) - 1, Pow2(bits - prefix) - 1, Pow2(prefix) - 1, Pow2(prefix));
  }

  function Netmask(n: Net): nat
    requires Valid(n)
  {
    IpIntFromPrefix(n.bits, n.prefix)
  }

  function Hostmask(n: Net): nat
    requires Valid(n)
  {
    Xor(Netmask(n), AllOnes(n.bits))
  }

  lemma DownIs(x: nat, k: nat)
    ensures Aligned(Down(x, k), k)
    ensures Down(x, k) <= x < Down(x, k) + Pow2(k)
    ensures Aligned(x, k) ==> Down(x, k) == x
  {
    hide Pow2;
    DivMod(x, Pow2(k));
    AlignedIs(Down(x, k), x / Pow2(k), k);
  }

  lemma Masks(n: Net)
    requires Valid(n)
    ensures And(n.ip, Netmask(n)) == Down(n.ip, n.bits - n.prefix)
    ensures Or(n.ip, Hostmask(n)) == Down(n.ip, n.bits - n.prefix) + Size(n) - 1
  {
    hide Pow2, And, Or, Xor, Shr, Down;
    AndHigh(n.ip, n.bits - n.prefix, n.bits);
    XorOnes(n.bits - n.prefix, n.bits);
    OrLow(n.ip, n.bits - n.prefix);
  }

  /** The first address: the address with the host bits masked off. */
  function Network(n: Net): (r: nat)
    requires Valid(n)
    ensures r == Down(n.ip, n.bits - n.prefix)
  {
    Masks(n);
    And(n.ip, Netmask(n))
  }

  /** The last address: the address with the host bits set. */
  function Broadcast(n: Net): (r: nat)
    requires Valid(n)
    ensures r == Network(n) + Size(n) - 1
  {
    Masks(n);
    Or(n.ip, Hostmask(n))
  }

  /** Network and broadcast bound an aligned block of `2^(bits - prefix)` addresses that holds the address itself. */
  lemma BlockBounds(n: Net)
    requires Valid(n)
    ensures Network(n) <= n.ip <= Broadcast(n) < Pow2(n.bits)
    ensures Broadcast(n) - Network(n) + 1 == Size(n) >= 1
    ensures Aligned(Network(n), n.bits - n.prefix)
    ensures Aligned(n.ip, n.bits - n.prefix) ==> Network(n) == n.ip
  {
    hide And, Or, Xor, Shr, Down;
    DownIs(n.ip, n.bits - n.prefix);
    BlockFits(Network(n), n.bits - n.prefix, n.bits);
  }

  predicate HostBitsZero(n: Net)
    requires Valid(n)
  {
    n.ip == Network(n)
  }

  predicate InNet(n: Net, x: nat)
    requires Valid(n)
  {
    Network(n) <= x <= Broadcast(n)
  }

  predicate AllValid(bits: nat, nets: seq<Net>) {
    forall i :: 0 <= i < |nets| ==> Valid(nets[i]) && nets[i].bits == bits
  }

  /** The address is in one of the networks. */
  predicate InAny(bits: nat, nets: seq<Net>, x: nat)
    requires AllValid(bits, nets)
  {
    exists i :: 0 <= i < |nets| && InNet(nets[i], x)
  }

  /** `other in self`, for networks: it looks at the other's address, not at its network. */
  predicate Contains(n: Net, other: Net)
    requires Valid(n) && Valid(other)
  {
    Network(n) <= other.ip && Broadcast(n) >= Broadcast(other)
  }

  lemma FirstPowers(n: Net, other: Net)
    requires n == Net(32, 0, 0) && other == Net(128, 1, 128)
    ensures Pow2(1) == 2 && Valid(n) && Size(n) == Pow2(32)
    ensures other.ip < Pow2(128) ==> Valid(other) && Size(other) == 1
  {
    hide Network, Broadcast;
    Pow2Monotone(1, 32);
    assert Pow2(0) == 1;
  }

  /** The test compares numbers only: 0.0.0.0/0 contains ::1. */
  lemma ContainsIgnoresVersions()
    ensures Valid(Net(32, 0, 0)) && Valid(Net(128, 1, 128)) && Contains(Net(32, 0, 0), Net(128, 1, 128))
  {
    hide Network, Broadcast, Aligned, Pow2, Size, Down;
    var n, other := Net(32, 0, 0), Net(128, 1, 128);
    Pow2Monotone(1, 32);
    Pow2Monotone(1, 128);
    assert Pow2(1) == 2 && Size(n) == Pow2(32) && Size(other) == 1 by {
      FirstPowers(n, other);
    }
    BlockBounds(n);
    BlockBounds(other);
  }

  ghost predicate Inside(a: Net, b: Net)
    requires Valid(a) && Valid(b)
  {
    forall x: nat :: InNet(a, x) ==> InNet(b, x)
  }

  ghost predicate Disjoint(a: Net, b: Net)
    requires Valid(a) && Valid(b)
  {
    forall x: nat :: !(InNet(a, x) && InNet(b, x))
  }

  /** Any two networks are nested or disjoint; the longer prefix is inside. */
  lemma NestedOrDisjoint(a: Net, b: Net)
    requires Valid(a) && Valid(b) && a.bits == b.bits && a.prefix <= b.prefix
    ensures Inside(b, a) || Disjoint(a, b)
    ensures Inside(b, a) <==> Network(a) <= Network(b) && Broadcast(b) <= Broadcast(a)
    ensures Disjoint(a, b) <==> Broadcast(a) < Network(b) || Broadcast(b) < Network(a)
  {
    hide Network, Broadcast, Aligned, Pow2;
    BlockBounds(a);
    BlockBounds(b);
    var na, nb := Network(a), Network(b);
    if na < nb + Size(b) && nb < na + Size(a) {
      Nested(na, a.bits - a.prefix, nb, b.bits - b.prefix);
    }
    assert InNet(a, na) && InNet(b, nb);
    assert InNet(a, Broadcast(a)) && InNet(b, Broadcast(b));
  }

  lemma ShrAligned(x: nat, k: nat)
    requires Aligned(x, k)
    ensures Shr(x, k) % 2 == 0 <==> Aligned(x, k + 1)
    ensures Shr(x, k) == x / Pow2(k) && Shr(x, k + 1) == Shr(x, k) / 2
  {
    hide *;
    ShrDivides(x, k);
    ShrStep(x, k);
    var q := Quotient(x, k);
    Pow2Step(k);
    DivisionIsUnique(x, q, 0, Pow2(k));
    var h := q / 2;
    MulAssociates(h, 2, Pow2(k));
    if q % 2 == 0 {
      AlignedIs(x, h, k + 1);
    } else if Aligned(x, k + 1) {
      var g := Quotient(x, k + 1);
      MulAssociates(g, 2, Pow2(k));
      DivisionIsUnique(x, 2 * g, 0, Pow2(k));
    }
  }

  lemma Pow2Step(k: nat)
    ensures Pow2(k + 1) == 2 * Pow2(k) && Pow2(k) > 0
  {
  }

  lemma {:induction false} ShrStep(x: nat, k: nat)
    ensures Shr(x, k + 1) == Shr(x, k) / 2
  {
    if k > 0 {
      ShrStep(x / 2, k - 1);
    }
  }

  lemma AlignedSub(x: nat, y: nat, k: nat)
    requires Aligned(x, k) && Aligned(y, k) && y <= x
    ensures Aligned(x - y, k)
  {
    var p := Quotient(x, k);
    var q := Quotient(y, k);
    hide *;
    MulDistributes(p, q, Pow2(k));
    if p < q {
      Pow2Step(k);
      MulLess(p, q, Pow2(k));
    }
    AlignedIs(x - y, p - q, k);
  }

  lemma MaskAligned(bits: nat, prefix: nat)
    requires prefix <= bits
    ensures Aligned(IpIntFromPrefix(bits, prefix), bits - prefix)
    ensures prefix > 0 ==> !Aligned(IpIntFromPrefix(bits, prefix), bits - prefix + 1)
  {
    var mask, k := IpIntFromPrefix(bits, prefix), bits - prefix;
    assert mask == Pow2(bits) - Pow2(k) && Pow2(k) <= Pow2(bits);
    hide *;
    Pow2Aligned(bits, k);
    Pow2Aligned(k, k);
    AlignedSub(Pow2(bits), Pow2(k), k);
    if prefix > 0 && Aligned(mask, k + 1) {
      Pow2Aligned(bits, k + 1);
      AlignedSub(Pow2(bits), mask, k + 1);
      Pow2Step(k);
      AlignedZeroOnly(Pow2(k), k + 1);
    }
  }

  lemma LowBit(x: nat)
    ensures And(x, 1) == x % 2
    ensures Shr(x, 1) == x / 2 && Shr(x, 0) == x
    ensures Aligned(x, 0)
  {
    assert 1 / 2 == 0 && 1 % 2 == 1;
    assert And(x / 2, 0) == 0;
  }

  lemma NetmaskPrefix(ipInt: nat, mask: nat, prefix: nat, p: nat)
    requires prefix <= mask && p <= mask && ipInt == IpIntFromPrefix(mask, p)
    requires Aligned(ipInt, mask - prefix)
    requires prefix > 0 ==> !Aligned(ipInt, mask - prefix + 1)
    ensures prefix == p
  {
    hide *;
    MaskAligned(mask, p);
    if prefix < p {
      AlignedDown(ipInt, mask - prefix, mask - p + 1);
    } else if prefix > p {
      AlignedDown(ipInt, mask - p, mask - prefix + 1);
    }
  }

  /** `_prefix_from_ip_int`: counts the mask down past its low zeros; a netmask gives its prefix back. */
  method PrefixFromIpInt(ipInt: nat, mask: nat) returns (prefix: nat)
    ensures prefix <= mask && Aligned(ipInt, mask - prefix)
    ensures prefix > 0 ==> !Aligned(ipInt, mask - prefix + 1)
    ensures forall p: nat :: p <= mask && ipInt == IpIntFromPrefix(mask, p) ==> prefix == p
  {
    hide *;
    var i := ipInt;
    prefix := mask;
    LowBit(ipInt);
    while prefix != 0
      invariant prefix <= mask && Aligned(ipInt, mask - prefix) && i == Shr(ipInt, mask - prefix)
    {
      ShrAligned(ipInt, mask - prefix);
      LowBit(i);
      if And(i, 1) == 1 {
        break;
      }
      i := Shr(i, 1);
      prefix := prefix - 1;
    }
    ShrAligned(ipInt, mask - prefix);
    LowBit(i);
    forall p: nat | p <= mask && ipInt == IpIntFromPrefix(mask, p)
      ensures prefix == p
    {
      NetmaskPrefix(ipInt, mask, prefix, p);
    }
  }

  /** A network with no host bits, from its first address. */
  lemma BlockNet(bits: nat, lo: nat, prefix: nat)
    requires bits > 0 && prefix <= bits && lo < Pow2(bits) && Aligned(lo, bits - prefix)
    ensures var n := Net(bits, lo, prefix);
            && Valid(n) && Network(n) == lo && HostBitsZero(n)
            && Size(n) == Pow2(bits - prefix) && Broadcast(n) == lo + Pow2(bits - prefix) - 1
            && Broadcast(n) < Pow2(bits)
  {
    hide Network, Broadcast, Pow2, Aligned;
    BlockBounds(Net(bits, lo, prefix));
  }
}
