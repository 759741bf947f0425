/** `collapse_address_list` of `ipaddr.py`: any addresses and networks, as few networks as possible. */
module Collapse {
  import opened Wrappers
  import opened Powers
  import opened Alignment
  import opened Networks
  import opened Canonical
  import opened Sorting
  import opened Summarize
  import opened Subnets

  /** `n.supernet().subnet()[1]`: what merges with `n`, if `n` is a lower half. */
  function UpperSibling(n: Net): (u: Net)
    requires Valid(n)
    ensures Valid(u) && u.bits == n.bits
  {
    SupernetValid(n, 1, None);
    HalfPrefix(Supernet(n, 1, None).value);
    UpperHalf(Supernet(n, 1, None).value)
  }

  ghost predicate AscendingNets(bits: nat, nets: seq<Net>)
    requires AllValid(bits, nets)
  {
    forall i, j :: 0 <= i < j < |nets| ==> Broadcast(nets[i]) < Network(nets[j])
  }

  /** No network is followed by what would merge with it. */
  ghost predicate NothingToMerge(bits: nat, nets: seq<Net>)
    requires AllValid(bits, nets)
  {
    forall i :: 0 <= i < |nets| - 1 ==> nets[i + 1] != UpperSibling(nets[i])
  }

  ghost predicate SameAddresses(bits: nat, a: seq<Net>, b: seq<Net>)
    requires AllValid(bits, a) && AllValid(bits, b)
  {
    forall x: nat :: InAny(bits, a, x) <==> InAny(bits, b, x)
  }

  lemma MaskOrder(a: Net, b: Net)
    requires Valid(a) && Valid(b) && a.bits == b.bits
    ensures Netmask(a) <= Netmask(b) <==> a.prefix <= b.prefix
  {
    if a.prefix <= b.prefix {
      Pow2Monotone(b.bits - b.prefix, a.bits - a.prefix);
    } else {
      Pow2Monotone(a.bits - a.prefix, b.bits - b.prefix);
      Pow2Step(a.bits - a.prefix);
    }
  }

  /**
   In sorted order, the code's containment test is true of the next network exactly if it adds
   nothing; else it is apart.
   */
  lemma NextInOrder(x: Net, c: Net)
    requires Valid(x) && Valid(c) && x.bits == c.bits && KeyOrder()(x, c)
    ensures if Contains(x, c) then Inside(c, x) else Broadcast(x) < Network(c)
  {
    hide Network, Broadcast, Pow2, Aligned, Size, Netmask;
    BlockBounds(x);
    BlockBounds(c);
    MaskOrder(x, c);
    if x.prefix <= c.prefix {
      NestedOrDisjoint(x, c);
    } else {
      NestedOrDisjoint(c, x);
    }
  }

  /** Every network but the widest is one half of its supernet. */
  lemma HalfOfSupernet(x: Net)
    requires Valid(x) && x.prefix > 0
    ensures var s := Supernet(x, 1, None).value;
            && Valid(s) && s == Net(x.bits, Network(x), x.prefix - 1)
            && (Network(x) == Network(LowerHalf(s)) || Network(x) == Network(UpperHalf(s)))
            && Network(s) <= Network(x)
  {
    hide Network, Broadcast, Pow2, Aligned, Size, LowerHalf, UpperHalf, HostBitsZero;
    SupernetIs(x, 1);
    SupernetValid(x, 1, None);
    var s := Supernet(x, 1, None).value;
    BlockBounds(x);
    BlockBounds(s);
    HalfFacts(s);
    var l, u := LowerHalf(s), UpperHalf(s);
    if Network(x) <= Broadcast(l) {
      SameBlock(Net(x.bits, Network(x), x.prefix), l);
      BlockNet(x.bits, Network(x), x.prefix);
    } else {
      SameBlock(Net(x.bits, Network(x), x.prefix), u);
      BlockNet(x.bits, Network(x), x.prefix);
    }
  }

  /** A network and the upper sibling that follows it make their supernet, exactly. */
  lemma SiblingsMerge(x: Net, c: Net)
    requires Valid(x) && Valid(c) && x.bits == c.bits && !Contains(x, c) && c == UpperSibling(x)
    ensures Supernet(x, 1, None).Ok?
    ensures var s := Supernet(x, 1, None).value;
            && Valid(s) && s.bits == x.bits && HostBitsZero(s)
            && Network(s) == Network(x) && Broadcast(s) == Broadcast(c)
            && forall a: nat :: InNet(s, a) <==> InNet(x, a) || InNet(c, a)
  {
    hide *;
    UpperSiblingIs(x);
    var s := Supernet(x, 1, None).value;
    ContainsIs(x, c);
    if x.prefix == 0 {
      SupernetOfWidest(x);
      WidestHolds(x, c);
    } else {
      HalfOfSupernet(x);
      HalvesMake(s, x, c);
    }
  }

  lemma WidestHolds(x: Net, c: Net)
    requires Valid(x) && x.prefix < x.bits && c == UpperHalf(x)
    ensures Valid(c) && Network(x) <= c.ip && Broadcast(x) >= Broadcast(c)
  {
    hide Network, Broadcast, LowerHalf, UpperHalf;
    HalfFacts(x);
  }

  /** A network in the place of the lower half makes the whole with the upper one. */
  lemma HalvesMake(s: Net, x: Net, c: Net)
    requires Valid(s) && s.prefix < s.bits && Valid(x) && x.bits == s.bits && x.prefix == s.prefix + 1
    requires c == UpperHalf(s) && Valid(c) && !(Network(x) <= c.ip && Broadcast(x) >= Broadcast(c))
    requires s.ip == Network(x) && (Network(x) == Network(LowerHalf(s)) || Network(x) == Network(UpperHalf(s)))
    ensures Network(s) == Network(x) && Broadcast(s) == Broadcast(c) && HostBitsZero(s)
    ensures forall a: nat :: InNet(s, a) <==> InNet(x, a) || InNet(c, a)
  {
    hide Network, Broadcast, LowerHalf, UpperHalf, Pow2;
    HalfFacts(s);
    SameEnd(x, LowerHalf(s));
    SameEnd(x, UpperHalf(s));
  }

  lemma ContainsIs(x: Net, c: Net)
    requires Valid(x) && Valid(c)
    ensures Contains(x, c) <==> Network(x) <= c.ip && Broadcast(x) >= Broadcast(c)
    ensures HostBitsZero(c) <==> c.ip == Network(c)
  {
  }

  lemma SupernetOfWidest(x: Net)
    requires Valid(x) && x.prefix == 0
    ensures Supernet(x, 1, None).value == x
  {
  }

  lemma InNetIs(d: Net, y: nat)
    requires Valid(d)
    ensures InNet(d, y) <==> Network(d) <= y <= Broadcast(d)
  {
  }

  lemma SameEnd(a: Net, b: Net)
    requires Valid(a) && Valid(b) && a.bits == b.bits && a.prefix == b.prefix
    ensures Network(a) == Network(b) ==> Broadcast(a) == Broadcast(b)
  {
    hide Network;
  }

  // ----- One pass

  /** `d` is in the list, and nothing before it would absorb it. */
  ghost predicate Leads(bits: nat, list: seq<Net>, d: Net)
    requires AllValid(bits, list)
  {
    exists j :: 0 <= j < |list| && list[j] == d && forall k :: 0 <= k < j ==> !Inside(d, list[k])
  }

  /** `d` is the upper half of its supernet, and its address has host bits set, so it compares equal to no sibling. */
  ghost predicate Unmergeable(d: Net) {
    Valid(d) && d.prefix > 0 && !HostBitsZero(d) && !Aligned(Network(d), d.bits - d.prefix + 1)
  }

  /** What a pass over `done` has made of it. */
  ghost predicate Pass(bits: nat, done: seq<Net>, ret: seq<Net>)
    requires AllValid(bits, done) && AllValid(bits, ret)
  {
    && AscendingNets(bits, ret)
    && SameAddresses(bits, ret, done)
    && (forall d :: d in ret && !HostBitsZero(d) ==> Leads(bits, done, d))
    && (forall d :: Leads(bits, done, d) && Unmergeable(d) ==> d in ret)
  }

  lemma InAnyAppend(bits: nat, nets: seq<Net>, c: Net, x: nat)
    requires AllValid(bits, nets) && Valid(c) && c.bits == bits
    ensures AllValid(bits, nets + [c])
    ensures InAny(bits, nets + [c], x) <==> InAny(bits, nets, x) || InNet(c, x)
  {
    hide InNet, Valid;
    var more := nets + [c];
    if InAny(bits, nets, x) {
      var i :| 0 <= i < |nets| && InNet(nets[i], x);
      assert InNet(more[i], x);
    }
    assert more[|nets|] == c;
  }

  lemma LeadsAppend(bits: nat, done: seq<Net>, c: Net, d: Net)
    requires AllValid(bits, done) && Valid(c) && c.bits == bits
    ensures AllValid(bits, done + [c])
    ensures Leads(bits, done, d) ==> Leads(bits, done + [c], d)
    ensures Leads(bits, done + [c], d) ==>
              Leads(bits, done, d) || (d == c && forall k :: 0 <= k < |done| ==> !Inside(c, done[k]))
    ensures (forall k :: 0 <= k < |done| ==> !Inside(c, done[k])) ==> Leads(bits, done + [c], c)
  {
    hide Inside, Valid;
    var more := done + [c];
    if Leads(bits, done, d) {
      var j :| 0 <= j < |done| && done[j] == d && forall k :: 0 <= k < j ==> !Inside(d, done[k]);
      assert more[j] == d;
    }
    if Leads(bits, more, d) {
      var j :| 0 <= j < |more| && more[j] == d && forall k :: 0 <= k < j ==> !Inside(d, more[k]);
      if j < |done| {
        assert done[j] == d;
        assert forall k :: 0 <= k < j ==> done[k] == more[k];
      } else {
        assert forall k :: 0 <= k < |done| ==> done[k] == more[k];
      }
    }
    assert more[|done|] == c;
  }

  /** The next network is inside the last one: it adds nothing. */
  lemma Absorbed(bits: nat, done: seq<Net>, ret: seq<Net>, c: Net, w: nat)
    requires AllValid(bits, done) && AllValid(bits, ret) && Valid(c) && c.bits == bits
    requires Pass(bits, done, ret) && |ret| > 0 && Inside(c, ret[|ret| - 1])
    requires w < |done| && Inside(c, done[w])
    ensures AllValid(bits, done + [c]) && Pass(bits, done + [c], ret)
  {
    hide HostBitsZero, Unmergeable, Leads, AscendingNets, InNet, InAny, Valid, Contains;
    forall x: nat
      ensures InAny(bits, ret, x) <==> InAny(bits, done + [c], x)
    {
      InAnyAppend(bits, done, c, x);
      InAnyLast(bits, ret, x);
    }
    forall d
      ensures AllValid(bits, done + [c])
      ensures Leads(bits, done, d) <==> Leads(bits, done + [c], d)
    {
      LeadsAppend(bits, done, c, d);
    }
  }

  lemma InAnyLast(bits: nat, ret: seq<Net>, x: nat)
    requires AllValid(bits, ret) && |ret| > 0
    ensures InNet(ret[|ret| - 1], x) ==> InAny(bits, ret, x)
  {
  }

  /** The next network is past the last one and does not merge with it. */
  lemma Appended(bits: nat, done: seq<Net>, ret: seq<Net>, c: Net)
    requires AllValid(bits, done) && AllValid(bits, ret) && Valid(c) && c.bits == bits
    requires Pass(bits, done, ret) && (|ret| > 0 ==> Broadcast(ret[|ret| - 1]) < Network(c))
    ensures AllValid(bits, done + [c]) && AllValid(bits, ret + [c]) && Pass(bits, done + [c], ret + [c])
  {
    hide HostBitsZero, Unmergeable, Leads, Network, Broadcast, Valid, Contains;
    AscendingAppend(bits, ret, c);
    NotReached(bits, done, ret, c);
    hide InNet, InAny;
    forall x: nat
      ensures AllValid(bits, done + [c]) && AllValid(bits, ret + [c])
      ensures InAny(bits, ret + [c], x) <==> InAny(bits, done + [c], x)
    {
      InAnyAppend(bits, done, c, x);
      InAnyAppend(bits, ret, c, x);
    }
    forall d
      ensures AllValid(bits, done + [c])
      ensures Leads(bits, done, d) || d == c <==> Leads(bits, done + [c], d)
    {
      LeadsAppend(bits, done, c, d);
    }
  }

  lemma AscendingAppend(bits: nat, ret: seq<Net>, c: Net)
    requires AllValid(bits, ret) && Valid(c) && c.bits == bits && AscendingNets(bits, ret)
    requires |ret| > 0 ==> Broadcast(ret[|ret| - 1]) < Network(c)
    ensures AllValid(bits, ret + [c]) && AscendingNets(bits, ret + [c])
    ensures forall i :: 0 <= i < |ret| ==> Broadcast(ret[i]) < Network(c)
  {
    hide Network, Broadcast;
    forall i | 0 <= i < |ret|
      ensures Broadcast(ret[i]) < Network(c)
    {
      BlockBounds(ret[|ret| - 1]);
    }
  }

  lemma NotReached(bits: nat, done: seq<Net>, ret: seq<Net>, c: Net)
    requires AllValid(bits, done) && AllValid(bits, ret) && Valid(c) && c.bits == bits
    requires SameAddresses(bits, ret, done) && forall i :: 0 <= i < |ret| ==> Broadcast(ret[i]) < Network(c)
    ensures forall k :: 0 <= k < |done| ==> !Inside(c, done[k])
  {
    hide Network, Broadcast, Valid;
    BlockBounds(c);
    assert InNet(c, Network(c));
    assert !InAny(bits, ret, Network(c));
    assert !InAny(bits, done, Network(c));
  }

  /** The next network is the upper sibling of the last one: their supernet takes their place. */
  lemma Merged(bits: nat, done: seq<Net>, ret: seq<Net>, c: Net)
    requires AllValid(bits, done) && AllValid(bits, ret) && Valid(c) && c.bits == bits
    requires Pass(bits, done, ret) && |ret| > 0
    requires Valid(ret[|ret| - 1]) && !Contains(ret[|ret| - 1], c) && c == UpperSibling(ret[|ret| - 1])
    ensures Supernet(ret[|ret| - 1], 1, None).Ok?
    ensures var s := Supernet(ret[|ret| - 1], 1, None).value;
            var merged := ret[..|ret| - 1] + [s];
            && AllValid(bits, done + [c]) && AllValid(bits, merged) && Pass(bits, done + [c], merged)
  {
    hide *;
    var x := ret[|ret| - 1];
    AllValidInit(bits, ret);
    PassParts(bits, done, ret);
    SiblingsMerge(x, c);
    SiblingsClean(x, c);
    UnmergeableIs(c);
    MergedPass(bits, done, ret, c, Supernet(x, 1, None).value);
  }

  lemma MergedPass(bits: nat, done: seq<Net>, ret: seq<Net>, c: Net, s: Net)
    requires AllValid(bits, done) && AllValid(bits, ret) && Valid(c) && Valid(s) && c.bits == s.bits == bits
    requires |ret| > 0 && Pass(bits, done, ret)
    requires Valid(ret[|ret| - 1]) && Network(s) == Network(ret[|ret| - 1]) && HostBitsZero(s)
    requires forall y: nat :: InNet(s, y) <==> InNet(ret[|ret| - 1], y) || InNet(c, y)
    requires !Unmergeable(ret[|ret| - 1]) && !Unmergeable(c)
    ensures var merged := ret[..|ret| - 1] + [s];
            AllValid(bits, done + [c]) && AllValid(bits, merged) && Pass(bits, done + [c], merged)
  {
    hide *;
    AllValidInit(bits, ret);
    PassParts(bits, done, ret);
    MergedAddresses(bits, done, ret, c, s);
    forall d
      ensures AllValid(bits, done + [c])
      ensures Leads(bits, done, d) ==> Leads(bits, done + [c], d)
      ensures Leads(bits, done + [c], d) ==> Leads(bits, done, d) || d == c
    {
      LeadsAppend(bits, done, c, d);
    }
    PassIs(bits, done + [c], ret[..|ret| - 1] + [s]);
  }

  lemma MergedAddresses(bits: nat, done: seq<Net>, ret: seq<Net>, c: Net, s: Net)
    requires AllValid(bits, done) && AllValid(bits, ret) && Valid(c) && Valid(s) && c.bits == s.bits == bits
    requires |ret| > 0 && AscendingNets(bits, ret) && forall y: nat :: InAny(bits, ret, y) <==> InAny(bits, done, y)
    requires Valid(ret[|ret| - 1]) && Network(s) == Network(ret[|ret| - 1])
    requires forall y: nat :: InNet(s, y) <==> InNet(ret[|ret| - 1], y) || InNet(c, y)
    ensures var merged := ret[..|ret| - 1] + [s];
            && AllValid(bits, merged) && AllValid(bits, done + [c]) && AscendingNets(bits, merged)
            && forall y: nat :: InAny(bits, merged, y) <==> InAny(bits, done + [c], y)
  {
    hide *;
    var init, x := ret[..|ret| - 1], ret[|ret| - 1];
    AllValidInit(bits, ret);
    AscendingInit(bits, ret);
    AscendingAppend(bits, init, s);
    InAnyAppend(bits, done, c, 0);
    forall y: nat
      ensures AllValid(bits, done + [c]) && AllValid(bits, init + [s])
      ensures InAny(bits, init + [s], y) <==> InAny(bits, done + [c], y)
    {
      InAnyAppend(bits, done, c, y);
      InAnyAppend(bits, init, s, y);
      InAnyAppend(bits, init, x, y);
      assert InAny(bits, ret, y) <==> InAny(bits, done, y);
    }
  }

  lemma AllValidInit(bits: nat, ret: seq<Net>)
    requires AllValid(bits, ret) && |ret| > 0
    ensures AllValid(bits, ret[..|ret| - 1]) && Valid(ret[|ret| - 1]) && ret[|ret| - 1].bits == bits
    ensures ret == ret[..|ret| - 1] + [ret[|ret| - 1]]
    ensures forall d :: d in ret && d != ret[|ret| - 1] ==> d in ret[..|ret| - 1]
    ensures forall d :: d in ret ==> Valid(d) && d.bits == bits
  {
    hide Valid;
  }

  lemma AscendingInit(bits: nat, ret: seq<Net>)
    requires AllValid(bits, ret) && |ret| > 0 && AscendingNets(bits, ret)
    ensures AllValid(bits, ret[..|ret| - 1]) && AscendingNets(bits, ret[..|ret| - 1])
    ensures |ret| > 1 ==> Broadcast(ret[..|ret| - 1][|ret| - 2]) < Network(ret[|ret| - 1])
  {
    hide Valid, Network, Broadcast;
  }

  lemma PassParts(bits: nat, done: seq<Net>, ret: seq<Net>)
    requires AllValid(bits, done) && AllValid(bits, ret) && Pass(bits, done, ret)
    ensures AscendingNets(bits, ret)
    ensures forall x: nat :: InAny(bits, ret, x) <==> InAny(bits, done, x)
    ensures forall d :: d in ret && !HostBitsZero(d) ==> Leads(bits, done, d)
    ensures forall d :: Leads(bits, done, d) && Unmergeable(d) ==> d in ret
  {
  }

  lemma PassIs(bits: nat, done: seq<Net>, ret: seq<Net>)
    requires AllValid(bits, done) && AllValid(bits, ret)
    requires AscendingNets(bits, ret)
    requires forall x: nat :: InAny(bits, ret, x) <==> InAny(bits, done, x)
    requires forall d :: d in ret && !HostBitsZero(d) ==> Leads(bits, done, d)
    requires forall d :: Leads(bits, done, d) && Unmergeable(d) ==> d in ret
    ensures Pass(bits, done, ret)
  {
  }

  lemma UnmergeableIs(d: Net)
    requires Valid(d)
    ensures Unmergeable(d) <==> d.prefix > 0 && !HostBitsZero(d) && !Aligned(Network(d), d.bits - d.prefix + 1)
  {
  }

  /** Neither of two networks that merge is unmergeable. */
  lemma SiblingsClean(x: Net, c: Net)
    requires Valid(x) && Valid(c) && x.bits == c.bits && !Contains(x, c) && c == UpperSibling(x)
    ensures !Unmergeable(x) && !Unmergeable(c)
  {
    hide *;
    SiblingsMerge(x, c);
    UpperSiblingIs(x);
    var s := Supernet(x, 1, None).value;
    HalfFacts(s);
    BlockBounds(s);
    if x.prefix > 0 {
      SupernetIs(x, 1);
    }
    UnmergeableIs(x);
    UnmergeableIs(c);
  }

  // ----- Which network stands for a block

  /** The same addresses. */
  ghost predicate Same(d: Net, e: Net) {
    Valid(d) && Valid(e) && Inside(d, e) && Inside(e, d)
  }

  /** A network of the list holds all of `e`. */
  ghost predicate Held(bits: nat, nets: seq<Net>, e: Net)
    requires AllValid(bits, nets)
  {
    exists f :: f in nets && Valid(f) && Valid(e) && Inside(e, f)
  }

  /** What a block of the list ends up in; and the first of its networks stands for a block that stays. */
  ghost predicate Stand(bits: nat, done: seq<Net>, ret: seq<Net>)
    requires AllValid(bits, done) && AllValid(bits, ret)
  {
    && (forall e :: e in done ==> Held(bits, ret, e))
    && (forall d, e :: d in ret && e in done && Same(d, e) ==> Leads(bits, done, d))
  }

  lemma StandParts(bits: nat, done: seq<Net>, ret: seq<Net>, d: Net, e: Net)
    requires AllValid(bits, done) && AllValid(bits, ret) && Stand(bits, done, ret)
    ensures e in done ==> Held(bits, ret, e)
    ensures d in ret && e in done && Same(d, e) ==> Leads(bits, done, d)
  {
    hide Held, Same, Leads;
  }

  lemma StandIs(bits: nat, done: seq<Net>, ret: seq<Net>)
    requires AllValid(bits, done) && AllValid(bits, ret)
    requires forall e :: e in done ==> Held(bits, ret, e)
    requires forall d, e :: d in ret && e in done && Same(d, e) ==> Leads(bits, done, d)
    ensures Stand(bits, done, ret)
  {
    hide Held, Same, Leads;
  }

  lemma HeldIn(bits: nat, nets: seq<Net>, e: Net) returns (f: Net)
    requires AllValid(bits, nets) && Held(bits, nets, e)
    ensures f in nets && Valid(f) && f.bits == bits && Valid(e) && Inside(e, f)
  {
    hide Inside;
    f :| f in nets && Valid(f) && Valid(e) && Inside(e, f);
    Members(bits, nets);
  }

  lemma HeldBy(bits: nat, nets: seq<Net>, e: Net, f: Net)
    requires AllValid(bits, nets) && f in nets && Valid(f) && Valid(e) && Inside(e, f)
    ensures Held(bits, nets, e)
  {
  }

  lemma SameIs(d: Net, e: Net)
    ensures Same(d, e) <==> Valid(d) && Valid(e) && Inside(d, e) && Inside(e, d)
  {
  }

  lemma InsideTransitive(a: Net, b: Net, c: Net)
    requires Valid(a) && Valid(b) && Valid(c) && Inside(a, b)
    ensures Inside(b, c) ==> Inside(a, c)
  {
    hide InNet;
  }

  lemma FirstInNet(a: Net)
    requires Valid(a)
    ensures InNet(a, Network(a)) && Inside(a, a) && Network(a) <= Broadcast(a)
  {
    hide Network, Broadcast;
    BlockBounds(a);
  }

  lemma InsideAt(a: Net, b: Net, x: nat)
    requires Valid(a) && Valid(b) && Inside(a, b) && InNet(a, x)
    ensures InNet(b, x)
  {
    hide InNet;
  }

  /** Networks of an ascending list that share an address are the same network. */
  lemma OnlyOne(bits: nat, ret: seq<Net>, d: Net, f: Net, x: nat)
    requires AllValid(bits, ret) && AscendingNets(bits, ret) && d in ret && f in ret
    requires Valid(d) && Valid(f) && InNet(d, x) && InNet(f, x)
    ensures d == f
  {
    hide Network, Broadcast, Valid;
    var i :| 0 <= i < |ret| && ret[i] == d;
    var j :| 0 <= j < |ret| && ret[j] == f;
  }

  lemma StandAbsorbed(bits: nat, done: seq<Net>, ret: seq<Net>, c: Net, w: nat)
    requires AllValid(bits, done) && AllValid(bits, ret) && Valid(c) && c.bits == bits
    requires Pass(bits, done, ret) && Stand(bits, done, ret) && |ret| > 0
    requires Valid(ret[|ret| - 1]) && Inside(c, ret[|ret| - 1])
    requires w < |done| && Valid(done[w]) && Inside(c, done[w])
    ensures AllValid(bits, done + [c]) && Stand(bits, done + [c], ret)
  {
    hide *;
    var last, e0 := ret[|ret| - 1], done[w];
    PassParts(bits, done, ret);
    FirstInNet(c);
    InAnyAppend(bits, done, c, 0);
    Members(bits, ret);
    forall e | e in done + [c]
      ensures Held(bits, ret, e)
    {
      StandParts(bits, done, ret, last, e);
      if e == c {
        HeldBy(bits, ret, c, last);
      }
    }
    forall d, e | d in ret && e in done + [c] && Same(d, e)
      ensures Leads(bits, done + [c], d)
    {
      LeadsAppend(bits, done, c, d);
      StandParts(bits, done, ret, d, e);
      if e == c {
        SameIs(d, c);
        InsideAt(c, d, Network(c));
        InsideAt(c, last, Network(c));
        OnlyOne(bits, ret, d, last, Network(c));
        StandParts(bits, done, ret, last, e0);
        var f := HeldIn(bits, ret, e0);
        InsideAt(c, e0, Network(c));
        InsideAt(e0, f, Network(c));
        OnlyOne(bits, ret, f, last, Network(c));
        InsideTransitive(last, c, e0);
        SameIs(last, e0);
      }
    }
    StandIs(bits, done + [c], ret);
  }

  lemma StandAppended(bits: nat, done: seq<Net>, ret: seq<Net>, c: Net)
    requires AllValid(bits, done) && AllValid(bits, ret) && Valid(c) && c.bits == bits
    requires Pass(bits, done, ret) && Stand(bits, done, ret)
    requires |ret| > 0 ==> Valid(ret[|ret| - 1]) && Broadcast(ret[|ret| - 1]) < Network(c)
    ensures AllValid(bits, done + [c]) && AllValid(bits, ret + [c]) && Stand(bits, done + [c], ret + [c])
  {
    hide *;
    PassParts(bits, done, ret);
    AscendingAppend(bits, ret, c);
    SameAddressesIs(bits, done, ret);
    NotReached(bits, done, ret, c);
    FirstInNet(c);
    InAnyAppend(bits, done, c, 0);
    LeadsAppend(bits, done, c, c);
    forall e | e in done + [c]
      ensures Held(bits, ret + [c], e)
    {
      StandParts(bits, done, ret, c, e);
      if e in done {
        var f := HeldIn(bits, ret, e);
        HeldBy(bits, ret + [c], e, f);
      } else {
        HeldBy(bits, ret + [c], c, c);
      }
    }
    forall d, e | d in ret + [c] && e in done + [c] && Same(d, e)
      ensures Leads(bits, done + [c], d)
    {
      if d != c {
        LeadsAppend(bits, done, c, d);
        StandParts(bits, done, ret, d, e);
        SameIs(d, e);
        if e == c {
          InsideAt(c, d, Network(c));
          InNetIs(d, Network(c));
        }
      }
    }
    StandIs(bits, done + [c], ret + [c]);
  }

  lemma SameAddressesIs(bits: nat, done: seq<Net>, ret: seq<Net>)
    requires AllValid(bits, done) && AllValid(bits, ret)
    requires forall x: nat :: InAny(bits, ret, x) <==> InAny(bits, done, x)
    ensures SameAddresses(bits, ret, done)
  {
  }

  lemma BeforeLast(bits: nat, ret: seq<Net>, f: Net)
    requires AllValid(bits, ret) && AscendingNets(bits, ret) && |ret| > 0 && f in ret
    ensures Valid(f) && Valid(ret[|ret| - 1]) && (f == ret[|ret| - 1] || Broadcast(f) < Network(ret[|ret| - 1]))
  {
    hide Network, Broadcast, Valid;
    var i :| 0 <= i < |ret| && ret[i] == f;
  }

  lemma StandMerged(bits: nat, done: seq<Net>, ret: seq<Net>, c: Net, s: Net)
    requires AllValid(bits, done) && AllValid(bits, ret) && Valid(c) && Valid(s) && c.bits == s.bits == bits
    requires |ret| > 0 && Pass(bits, done, ret) && Stand(bits, done, ret)
    requires Valid(ret[|ret| - 1]) && Broadcast(ret[|ret| - 1]) < Network(c)
    requires forall y: nat :: InNet(s, y) <==> InNet(ret[|ret| - 1], y) || InNet(c, y)
    ensures var merged := ret[..|ret| - 1] + [s];
            AllValid(bits, done + [c]) && AllValid(bits, merged) && Stand(bits, done + [c], merged)
  {
    hide *;
    var x, merged := ret[|ret| - 1], ret[..|ret| - 1] + [s];
    PassParts(bits, done, ret);
    AllValidInit(bits, ret);
    InAnyAppend(bits, ret[..|ret| - 1], s, 0);
    InAnyAppend(bits, done, c, 0);
    FirstInNet(c);
    FirstInNet(x);
    HalvesInside(x, c, s);
    forall e | e in done + [c]
      ensures Held(bits, merged, e)
    {
      StandParts(bits, done, ret, x, e);
      if e in done {
        var f := HeldIn(bits, ret, e);
        if f == x {
          InsideTransitive(e, x, s);
          HeldBy(bits, merged, e, s);
        } else {
          HeldBy(bits, merged, e, f);
        }
      } else {
        HeldBy(bits, merged, c, s);
      }
    }
    forall d, e | d in merged && e in done + [c] && Same(d, e)
      ensures Leads(bits, done + [c], d)
    {
      SameIs(d, e);
      if e == c {
        InsideAt(c, d, Network(c));
        InNetIs(d, Network(c));
        if d == s {
          InsideAt(x, s, Network(x));
          InsideAt(s, c, Network(x));
          InNetIs(c, Network(x));
        } else {
          BeforeLast(bits, ret, d);
        }
        assert false;
      } else if d == s {
        StandParts(bits, done, ret, x, e);
        var f := HeldIn(bits, ret, e);
        InsideAt(c, s, Network(c));
        InsideAt(s, e, Network(c));
        InsideAt(e, f, Network(c));
        InNetIs(f, Network(c));
        BeforeLast(bits, ret, f);
        assert false;
      } else {
        LeadsAppend(bits, done, c, d);
        StandParts(bits, done, ret, d, e);
      }
    }
    StandIs(bits, done + [c], merged);
  }

  lemma HalvesInside(x: Net, c: Net, s: Net)
    requires Valid(x) && Valid(c) && Valid(s) && forall y: nat :: InNet(s, y) <==> InNet(x, y) || InNet(c, y)
    ensures Inside(x, s) && Inside(c, s)
  {
    hide InNet;
  }

  lemma StandOfStand(bits: nat, list: seq<Net>, ret: seq<Net>, r: seq<Net>)
    requires AllValid(bits, list) && AllValid(bits, ret) && AllValid(bits, r)
    requires Pass(bits, ret, r) && Stand(bits, list, ret) && Stand(bits, ret, r)
    ensures Stand(bits, list, r)
  {
    hide *;
    PassParts(bits, ret, r);
    Members(bits, r);
    forall e | e in list
      ensures Held(bits, r, e)
    {
      var f, g := HeldTwice(bits, list, ret, r, e);
      InsideTransitive(e, f, g);
      HeldBy(bits, r, e, g);
    }
    forall d, e | d in r && e in list && Same(d, e)
      ensures Leads(bits, list, d)
    {
      SameIs(d, e);
      var f, g := HeldTwice(bits, list, ret, r, e);
      FirstInNet(d);
      InsideTransitive(d, e, f);
      InsideTransitive(d, f, g);
      InsideAt(d, g, Network(d));
      OnlyOne(bits, r, d, g, Network(d));
      SameIs(d, f);
      StandParts(bits, ret, r, d, f);
      LeadsMember(bits, ret, d);
      StandParts(bits, list, ret, d, e);
    }
    StandIs(bits, list, r);
  }

  lemma HeldTwice(bits: nat, list: seq<Net>, ret: seq<Net>, r: seq<Net>, e: Net) returns (f: Net, g: Net)
    requires AllValid(bits, list) && AllValid(bits, ret) && AllValid(bits, r)
    requires Stand(bits, list, ret) && Stand(bits, ret, r) && e in list
    ensures f in ret && g in r && Valid(e) && Valid(f) && Valid(g) && Inside(e, f) && Inside(f, g)
  {
    hide *;
    StandParts(bits, list, ret, e, e);
    f := HeldIn(bits, ret, e);
    StandParts(bits, ret, r, f, f);
    g := HeldIn(bits, r, f);
  }

  // ----- All passes

  lemma KeyOrderIs(a: Net, b: Net)
    requires Valid(a) && Valid(b) && a.bits == b.bits
    ensures KeyOrder()(a, b) <==> Network(a) < Network(b) || (Network(a) == Network(b) && a.prefix <= b.prefix)
  {
    hide Network, Netmask;
    MaskOrder(a, b);
  }

  lemma SortedStep(bits: nat, list: seq<Net>, w: nat, i: nat)
    requires AllValid(bits, list) && SortedBy(KeyOrder(), list) && w < i < |list|
    ensures Valid(list[w]) && Valid(list[i]) && list[w].bits == list[i].bits == bits
    ensures Network(list[w]) <= Network(list[i]) && KeyOrder()(list[w], list[i])
  {
    hide Network, Broadcast;
    KeyOrderIs(list[w], list[i]);
  }

  /** An ascending list is in key order, and each of its members leads. */
  lemma AscendingIsSorted(bits: nat, ret: seq<Net>)
    requires AllValid(bits, ret) && AscendingNets(bits, ret)
    ensures SortedBy(KeyOrder(), ret)
    ensures forall d :: d in ret ==> Leads(bits, ret, d)
  {
    hide Network, Broadcast, Valid, KeyOrder;
    forall i, j | 0 <= i < j < |ret|
      ensures KeyOrder()(ret[i], ret[j]) && !Inside(ret[j], ret[i])
    {
      KeyOrderIs(ret[i], ret[j]);
      BlockBounds(ret[i]);
      BlockBounds(ret[j]);
      assert InNet(ret[j], Network(ret[j])) && !InNet(ret[i], Network(ret[j]));
    }
  }

  lemma PassOfPass(bits: nat, list: seq<Net>, ret: seq<Net>, r: seq<Net>)
    requires AllValid(bits, list) && AllValid(bits, ret) && AllValid(bits, r)
    requires Pass(bits, list, ret) && Pass(bits, ret, r)
    ensures Pass(bits, list, r)
  {
    hide *;
    PassParts(bits, list, ret);
    PassParts(bits, ret, r);
    AscendingIsSorted(bits, ret);
    Members(bits, r);
    forall d | d in r && !HostBitsZero(d)
      ensures Leads(bits, list, d)
    {
      assert Leads(bits, ret, d);
      LeadsMember(bits, ret, d);
    }
    PassIs(bits, list, r);
  }

  lemma Members(bits: nat, nets: seq<Net>)
    requires AllValid(bits, nets)
    ensures forall d :: d in nets ==> Valid(d) && d.bits == bits
  {
  }

  lemma LeadsMember(bits: nat, list: seq<Net>, d: Net)
    requires AllValid(bits, list)
    ensures Leads(bits, list, d) ==> d in list
  {
  }

  lemma NoPass(bits: nat, list: seq<Net>)
    ensures Pass(bits, [], []) && list[..0] == [] && AllValid(bits, [])
    ensures NothingToMerge(bits, []) && Stand(bits, [], [])
  {
  }

  lemma Prefix(bits: nat, list: seq<Net>, i: nat)
    requires AllValid(bits, list) && i < |list|
    ensures list[..i + 1] == list[..i] + [list[i]]
    ensures AllValid(bits, list[..i]) && Valid(list[i]) && list[i].bits == bits
    ensures list[..|list|] == list
  {
    hide Valid;
  }

  lemma NothingToMergeAppend(bits: nat, ret: seq<Net>, c: Net)
    requires AllValid(bits, ret) && Valid(c) && c.bits == bits && NothingToMerge(bits, ret)
    requires |ret| > 0 ==> c != UpperSibling(ret[|ret| - 1])
    ensures AllValid(bits, ret + [c]) && NothingToMerge(bits, ret + [c])
  {
    hide UpperSibling, Valid;
  }

  /** What sorts after `w` and is inside a network that ends where `w` ends is inside `w`. */
  lemma InsideWitness(w: Net, last: Net, c: Net)
    requires Valid(w) && Valid(last) && Valid(c) && w.bits == last.bits == c.bits
    requires Broadcast(w) == Broadcast(last) && Network(w) <= Network(c) && Inside(c, last)
    ensures Inside(c, w)
  {
    hide Network, Broadcast;
    BlockBounds(c);
    assert InNet(c, Broadcast(c)) && InNet(last, Broadcast(c));
  }

  /** One more network of the sorted list, as the loop tests it. */
  lemma NextNetwork(bits: nat, list: seq<Net>, ret: seq<Net>, i: nat, w: nat)
    requires AllValid(bits, list) && SortedBy(KeyOrder(), list) && i < |list| && AllValid(bits, ret) && |ret| > 0
    requires AllValid(bits, list[..i]) && Pass(bits, list[..i], ret) && KeyOrder()(ret[|ret| - 1], list[i])
    requires Stand(bits, list[..i], ret)
    requires w < i && Broadcast(list[w]) == Broadcast(ret[|ret| - 1])
    ensures Valid(ret[|ret| - 1]) && ret[|ret| - 1].bits == bits && Valid(list[i]) && list[i].bits == bits
    ensures AllValid(bits, list[..i + 1]) && Supernet(ret[|ret| - 1], 1, None).Ok?
    ensures var c, last := list[i], ret[|ret| - 1];
            if Contains(last, c) then Pass(bits, list[..i + 1], ret) && Stand(bits, list[..i + 1], ret)
            else if c == UpperSibling(last) then
              var s := Supernet(last, 1, None).value;
              && Supernet(last, 1, None).Ok? && AllValid(bits, ret[..|ret| - 1] + [s]) &&
                Pass(bits, list[..i + 1], ret[..|ret| - 1] + [s])
              && Stand(bits, list[..i + 1], ret[..|ret| - 1] + [s])
              && Valid(s) && s.bits == bits && Broadcast(s) == Broadcast(c) && KeyOrder()(s, last)
            else
              && AllValid(bits, ret + [c]) && Pass(bits, list[..i + 1], ret + [c])
              && Stand(bits, list[..i + 1], ret + [c])
  {
    hide *;
    var c, last := list[i], ret[|ret| - 1];
    AllValidInit(bits, ret);
    Prefix(bits, list, i);
    SortedStep(bits, list, w, i);
    NextInOrder(last, c);
    WiderFirst(last);
    if Contains(last, c) {
      InsideWitness(list[w], last, c);
      assert list[..i][w] == list[w];
      Absorbed(bits, list[..i], ret, c, w);
      StandAbsorbed(bits, list[..i], ret, c, w);
    } else if c == UpperSibling(last) {
      Merged(bits, list[..i], ret, c);
      SiblingsMerge(last, c);
      var s := Supernet(last, 1, None).value;
      WiderFirst(last);
      KeyOrderIs(s, last);
      StandMerged(bits, list[..i], ret, c, s);
    } else {
      Appended(bits, list[..i], ret, c);
      StandAppended(bits, list[..i], ret, c);
    }
  }

  lemma WiderFirst(x: Net)
    requires Valid(x)
    ensures Supernet(x, 1, None).Ok? && Supernet(x, 1, None).value.prefix <= x.prefix
  {
  }

  lemma OrderTransitive(a: Net, b: Net, c: Net)
    requires KeyOrder()(a, b) && KeyOrder()(b, c)
    ensures KeyOrder()(a, c)
  {
    hide Key;
  }

  lemma OrderReflexive(a: Net)
    ensures KeyOrder()(a, a)
  {
    hide Key;
  }

  /** `n.supernet().subnet()[1]` as the code evaluates it. */
  method UpperSiblingOf(n: Net) returns (u: Net)
    requires Valid(n)
    ensures u == UpperSibling(n)
  {
    hide *;
    SupernetValid(n, 1, None);
    WiderFirst(n);
    UpperSiblingIs(n);
    var halves := Subnet(Supernet(n, 1, None).value, 1, None);
    return halves.value[1];
  }

  lemma UpperSiblingIs(n: Net)
    requires Valid(n)
    ensures Supernet(n, 1, None).Ok?
    ensures var s := Supernet(n, 1, None).value;
            && Valid(s) && s.prefix < s.bits && s.prefix + 1 <= s.bits && Pow2(1) == 2
            && UpperSibling(n) == UpperHalf(s)
            && forall halves: seq<Net> :: |halves| == 2 && AreParts(s, s.prefix + 1, halves) ==>
              halves[1] == UpperHalf(s)
  {
    hide Network, Broadcast, Aligned, Size;
    SupernetValid(n, 1, None);
  }

  /**
   `_collapse_address_list_recursive`: passes over a sorted list until one changes nothing.
   Every pass but the last shortens the list.
   */
  method CollapseRecursive(bits: nat, addresses: seq<Net>) returns (r: seq<Net>)
    requires AllValid(bits, addresses) && SortedBy(KeyOrder(), addresses)
    ensures AllValid(bits, r) && Pass(bits, addresses, r) && NothingToMerge(bits, r)
    ensures Stand(bits, addresses, r)
    ensures |r| <= |addresses|
    decreases |addresses|
  {
    hide *;
    var retArray: seq<Net> := [];
    var optimized := false;
    ghost var w: nat := 0;
    NoPass(bits, addresses);
    for i := 0 to |addresses|
      invariant AllValid(bits, retArray) && AllValid(bits, addresses[..i]) && Pass(bits, addresses[..i], retArray)
      invariant Stand(bits, addresses[..i], retArray)
      invariant |retArray| <= i && (i > 0 ==> |retArray| > 0)
      invariant i > 0 ==> w < i && Valid(retArray[|retArray| - 1]) && Valid(addresses[w])
      invariant i > 0 ==> Broadcast(addresses[w]) == Broadcast(retArray[|retArray| - 1])
      invariant i > 0 ==> KeyOrder()(retArray[|retArray| - 1], addresses[i - 1])
      invariant optimized <==> |retArray| < i
      invariant !optimized ==> NothingToMerge(bits, retArray)
    {
      var curAddr := addresses[i];
      Prefix(bits, addresses, i);
      OrderReflexive(curAddr);
      if retArray == [] {
        Appended(bits, addresses[..i], retArray, curAddr);
        StandAppended(bits, addresses[..i], retArray, curAddr);
        NothingToMergeAppend(bits, retArray, curAddr);
        retArray := retArray + [curAddr];
        w := i;
        continue;
      }
      AllValidInit(bits, retArray);
      var last := retArray[|retArray| - 1];
      SortedStep(bits, addresses, i - 1, i);
      OrderTransitive(last, addresses[i - 1], curAddr);
      NextNetwork(bits, addresses, retArray, i, w);
      if Contains(last, curAddr) {
        optimized := true;
      } else {
        var sibling := UpperSiblingOf(last);
        if curAddr == sibling {
          var s := Supernet(last, 1, None).value;
          OrderTransitive(s, last, curAddr);
          retArray := retArray[..|retArray| - 1] + [s];
          optimized := true;
        } else {
          if !optimized {
            NothingToMergeAppend(bits, retArray, curAddr);
          }
          retArray := retArray + [curAddr];
        }
        w := i;
      }
    }
    Whole(addresses);
    if optimized {
      PassParts(bits, addresses, retArray);
      AscendingIsSorted(bits, retArray);
      r := CollapseRecursive(bits, retArray);
      PassOfPass(bits, addresses, retArray, r);
      StandOfStand(bits, addresses, retArray, r);
    } else {
      r := retArray;
    }
  }

  lemma Whole(s: seq<Net>)
    ensures s[..|s|] == s
  {
  }

  // ----- When the result is the best possible

  lemma CoversIsInAny(bits: nat, nets: seq<Net>, x: nat)
    requires AllValid(bits, nets)
    ensures Covers(BlocksOf(bits, nets), x) <==> InAny(bits, nets, x)
  {
    hide Network, Broadcast, Valid;
    var blocks := BlocksOf(bits, nets);
    forall i | 0 <= i < |nets|
      ensures In(blocks[i], x) <==> InNet(nets[i], x)
    {
      BlockBounds(nets[i]);
    }
    if InAny(bits, nets, x) {
      var i :| 0 <= i < |nets| && InNet(nets[i], x);
      assert In(blocks[i], x);
    }
    if Covers(blocks, x) {
      var i :| 0 <= i < |blocks| && In(blocks[i], x);
      assert InNet(nets[i], x);
    }
  }

  lemma NetBlock(n: Net)
    requires Valid(n)
    ensures Aligned(BlockOf(n).lo, BlockOf(n).k) && BlockOf(n).lo == Network(n) && BlockOf(n).k == n.bits - n.prefix
    ensures End(BlockOf(n)) == Broadcast(n) + 1 <= Pow2(n.bits)
    ensures Network(n) <= Broadcast(n) && Broadcast(n) + 1 - Network(n) == Pow2(BlockOf(n).k)
  {
    hide Network, Broadcast, Aligned;
    BlockBounds(n);
  }

  lemma AscendingBlocks(bits: nat, r: seq<Net>)
    requires AllValid(bits, r) && AscendingNets(bits, r)
    ensures Blocks(BlocksOf(bits, r)) && Ascending(BlocksOf(bits, r))
  {
    hide Network, Broadcast, Aligned, End, BlockOf, Valid;
    forall i | 0 <= i < |r|
      ensures Aligned(BlockOf(r[i]).lo, BlockOf(r[i]).k)
      ensures BlockOf(r[i]).lo == Network(r[i]) && End(BlockOf(r[i])) == Broadcast(r[i]) + 1
    {
      NetBlock(r[i]);
    }
  }

  /** The upper one of two adjoining siblings: it is what merges, unless its address has host bits. */
  lemma SiblingNets(a: Net, b: Net)
    requires Valid(a) && Valid(b) && a.bits == b.bits && Siblings(BlockOf(a), BlockOf(b))
    ensures b.prefix > 0 && !Aligned(Network(b), b.bits - b.prefix + 1)
    ensures b == UpperSibling(a) <==> HostBitsZero(b)
  {
    hide Network, Broadcast, Aligned, Pow2, End, LowerHalf, UpperHalf, Netmask;
    NetBlock(a);
    NetBlock(b);
    var k := a.bits - a.prefix;
    if b.prefix == 0 {
      WholeSpace(a, b);
    } else {
      SiblingStart(a, k);
      SupernetIs(a, 1);
      SupernetValid(a, 1, None);
      var s := Supernet(a, 1, None).value;
      BlockBounds(a);
      BlockBounds(s);
      HalfFacts(s);
      BlockBounds(LowerHalf(s));
      Pow2Step(k);
    }
  }

  lemma WholeSpace(a: Net, b: Net)
    requires Valid(a) && Valid(b) && a.bits == b.bits && a.prefix == 0
    ensures End(BlockOf(a)) != Network(b)
  {
    hide Network, Broadcast;
    NetBlock(a);
    NetBlock(b);
  }

  lemma SiblingStart(a: Net, k: nat)
    requires Valid(a) && k == a.bits - a.prefix && Aligned(Network(a), k + 1)
    ensures !Aligned(Network(a) + Pow2(k), k + 1)
  {
    hide Network, Pow2, Aligned;
    if Aligned(Network(a) + Pow2(k), k + 1) {
      AlignedSub(Network(a) + Pow2(k), Network(a), k + 1);
      Pow2Step(k);
      AlignedZeroOnly(Pow2(k), k + 1);
    }
  }

  /** Every address from `lo` up to but not including `hi` is in one of the networks. */
  ghost predicate Spanned(bits: nat, nets: seq<Net>, lo: int, hi: int)
    requires AllValid(bits, nets)
  {
    forall x: nat :: lo <= x < hi ==> InAny(bits, nets, x)
  }

  /**
   What keeps a list from collapsing fully: a network that compares equal to no sibling, whose lower
   sibling is covered.
   */
  ghost predicate Stuck(bits: nat, list: seq<Net>, d: Net)
    requires AllValid(bits, list)
  {
    Unmergeable(d) && d.bits == bits && Leads(bits, list, d) && Spanned(bits, list, Network(d) - Size(d), Network(d))
  }

  /** A result is canonical exactly when nothing was stuck. */
  lemma CanonicalUnlessStuck(bits: nat, list: seq<Net>, r: seq<Net>)
    requires AllValid(bits, list) && AllValid(bits, r) && Pass(bits, list, r) && NothingToMerge(bits, r)
    ensures Canonical.Canonical(BlocksOf(bits, r)) <==> forall d :: !Stuck(bits, list, d)
  {
    hide *;
    PassParts(bits, list, r);
    AscendingBlocks(bits, r);
    if !Canonical.Canonical(BlocksOf(bits, r)) {
      var i := UnmergedSiblings(bits, r);
      StuckSibling(bits, list, r, i);
    }
    forall d | Stuck(bits, list, d)
      ensures !Canonical.Canonical(BlocksOf(bits, r))
    {
      StuckShows(bits, list, r, d);
    }
  }

  lemma UnmergedSiblings(bits: nat, r: seq<Net>) returns (i: nat)
    requires AllValid(bits, r) && Blocks(BlocksOf(bits, r)) && Ascending(BlocksOf(bits, r))
    requires !Canonical.Canonical(BlocksOf(bits, r))
    ensures i < |r| - 1 && Valid(r[i]) && Valid(r[i + 1]) && Siblings(BlockOf(r[i]), BlockOf(r[i + 1]))
  {
    hide Siblings, BlockOf, Valid, Blocks, Ascending;
    i :| 0 <= i < |r| - 1 && Siblings(BlocksOf(bits, r)[i], BlocksOf(bits, r)[i + 1]);
  }

  lemma StuckSibling(bits: nat, list: seq<Net>, r: seq<Net>, i: nat)
    requires AllValid(bits, list) && AllValid(bits, r) && Pass(bits, list, r) && NothingToMerge(bits, r)
    requires i < |r| - 1 && Valid(r[i]) && Valid(r[i + 1]) && Siblings(BlockOf(r[i]), BlockOf(r[i + 1]))
    ensures Stuck(bits, list, r[i + 1])
  {
    hide Network, Broadcast, Aligned, Pow2, Leads, UpperSibling, HostBitsZero, InAny, Valid;
    var a, d := r[i], r[i + 1];
    assert d != UpperSibling(a);
    SiblingNets(a, d);
    NetBlock(a);
    assert d in r;
    forall x: nat | Network(d) - Size(d) <= x < Network(d)
      ensures InAny(bits, list, x)
    {
      InAnyOf(bits, r, i, x);
      assert InAny(bits, r, x) <==> InAny(bits, list, x);
    }
  }

  lemma InAnyOf(bits: nat, r: seq<Net>, i: nat, x: nat)
    requires AllValid(bits, r) && i < |r|
    ensures InNet(r[i], x) ==> InAny(bits, r, x)
  {
  }

  lemma UpperStart(d: Net)
    requires Unmergeable(d)
    ensures Size(d) <= Network(d) && Aligned(Network(d) - Size(d), d.bits - d.prefix + 1)
    ensures Pow2(d.bits - d.prefix + 1) == 2 * Size(d) && Size(d) > 0
  {
    hide Network, Broadcast, Pow2, Aligned;
    BlockBounds(d);
    var k := d.bits - d.prefix;
    Pow2Step(k);
    var n := Network(d);
    if n < Pow2(k) {
      AlignedZeroOnly(n, k);
      ZeroAligned(k + 1);
    } else {
      Pow2Aligned(k, k);
      AlignedSub(n, Pow2(k), k);
      if !Aligned(n - Pow2(k), k + 1) {
        AlignedStep(n - Pow2(k), k);
      }
      if !Aligned(n - Pow2(k), k + 1) {
        assert false;
      }
    }
  }

  lemma StuckShows(bits: nat, list: seq<Net>, r: seq<Net>, d: Net)
    requires AllValid(bits, list) && AllValid(bits, r) && Pass(bits, list, r) && Stuck(bits, list, d)
    ensures !Canonical.Canonical(BlocksOf(bits, r))
  {
    hide *;
    PassParts(bits, list, r);
    StuckParts(bits, list, d);
    var j := MemberIndex(r, d);
    UpperStart(d);
    NetBlock(d);
    var n, k := Network(d), d.bits - d.prefix;
    var both := Block(n - Size(d), k + 1);
    EndFacts(both);
    var blocks := BlocksOf(bits, r);
    EndFacts(blocks[j]);
    SizeIs(d);
    if Canonical.Canonical(blocks) {
      forall x: nat | In(both, x)
        ensures Covers(blocks, x)
      {
        CoversIsInAny(bits, r, x);
        InNetIs(d, x);
        InAnyOf(bits, r, j, x);
      }
      var i := CoveredBlockInside(blocks, both);
      WithinTwo(blocks, i, j, both);
    }
  }

  lemma SizeIs(d: Net)
    requires Valid(d)
    ensures Size(d) == Pow2(d.bits - d.prefix) && d.prefix <= d.bits
  {
  }

  lemma MemberIndex(list: seq<Net>, d: Net) returns (j: nat)
    requires d in list
    ensures j < |list| && list[j] == d
  {
    j :| 0 <= j < |list| && list[j] == d;
  }

  lemma StuckParts(bits: nat, list: seq<Net>, d: Net)
    requires AllValid(bits, list) && Stuck(bits, list, d)
    ensures Unmergeable(d) && Valid(d) && !HostBitsZero(d) && d.bits == bits && Leads(bits, list, d) && d in list
    ensures forall x: nat :: Network(d) - Size(d) <= x < Network(d) ==> InAny(bits, list, x)
  {
    hide Network, Size, Inside, InAny, HostBitsZero, Aligned;
  }

  lemma WithinTwo(blocks: seq<Block>, i: nat, j: nat, both: Block)
    requires Canonical.Canonical(blocks) && i < |blocks| && j < |blocks| && Within(both, blocks[i])
    requires In(both, blocks[j].lo) && In(blocks[j], blocks[j].lo)
    ensures blocks[j].lo <= both.lo
  {
    OneBlockPerAddress(blocks, i, j, blocks[j].lo);
  }
}
