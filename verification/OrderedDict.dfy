/**
 `OrderedDict` of `collections26.py`: a circular doubly linked list with a sentinel gives
 the order, a private dictionary finds a key's link, the inherited dictionary holds the
 values.  Every operation is proved to act on the list of items as `ItemLists` says.
 */
module OrderedDicts {
  import opened Wrappers
  import opened ItemLists

  /** A link `[PREV, NEXT, KEY]`; the sentinel has no key. */
  class Link<K> {
    var prev: Link?<K>
    var next: Link?<K>
    const key: Option<K>

    constructor (key: Option<K>)
      ensures this.key == key && prev == null && next == null
    {
      this.key := key;
      prev, next := null, null;
    }
  }

  datatype Error = KeyError

  /** The link at place `i`; the sentinel is at both ends. */
  function At<K>(root: Link<K>, links: seq<Link<K>>, i: int): Link<K>
    requires -1 <= i <= |links|
  {
    if 0 <= i < |links| then links[i] else root
  }

  ghost predicate Separate<K>(root: Link<K>, links: seq<Link<K>>) {
    root !in links && forall i, j :: 0 <= i < j < |links| ==> links[i] != links[j]
  }

  /** `links`, closed by the sentinel `root`, form one ring: forward by `next`, backward by `prev`. */
  ghost predicate Ring<K>(root: Link<K>, links: seq<Link<K>>)
    reads root, links
  {
    && Separate(root, links)
    && (forall i {:trigger At(root, links, i).next} :: -1 <= i < |links| ==>
      At(root, links, i).next == At(root, links, i + 1))
    && (forall i {:trigger At(root, links, i).prev} :: 0 <= i <= |links| ==>
      At(root, links, i).prev == At(root, links, i - 1))
  }

  lemma AtDiffer<K>(root: Link<K>, links: seq<Link<K>>, i: int, j: int)
    requires Separate(root, links) && -1 <= i <= |links| && -1 <= j <= |links|
    ensures At(root, links, i) == At(root, links, j) ==>
              i == j || (i == -1 && j == |links|) || (i == |links| && j == -1)
  {
  }

  lemma AtAppended<K>(root: Link<K>, links: seq<Link<K>>, link: Link<K>)
    requires Separate(root, links) && link != root && link !in links
    ensures Separate(root, links + [link])
    ensures forall i {:trigger At(root, links + [link], i)} :: -1 <= i <= |links| + 1 ==>
              At(root, links + [link], i) ==
                if i == |links| then link else if i > |links| then root else At(root, links, i)
  {
  }

  lemma AtWithout<K>(root: Link<K>, links: seq<Link<K>>, i: nat)
    requires Separate(root, links) && i < |links|
    ensures var links' := links[..i] + links[i + 1..];
            && Separate(root, links')
            && forall j {:trigger At(root, links', j)} :: -1 <= j < |links| ==>
                 At(root, links', j) == if j < i then At(root, links, j) else At(root, links, j + 1)
  {
    GapIndex(links, i);
    GapKeepsOthers(links, i);
  }

  ghost predicate Owned<K>(links: seq<Link<K>>, repr: set<object>) {
    forall i :: 0 <= i < |links| ==> links[i] in repr
  }

  lemma OwnedAppend<K>(links: seq<Link<K>>, repr: set<object>, link: Link<K>)
    requires Owned(links, repr)
    ensures Owned(links + [link], repr + {link})
  {
  }

  lemma OwnedWithout<K>(links: seq<Link<K>>, repr: set<object>, i: nat)
    requires Owned(links, repr) && i < |links|
    ensures forall j :: 0 <= j < |links| ==> links[j] in repr
    ensures Owned(links[..i] + links[i + 1..], repr)
  {
    GapIndex(links, i);
  }

  /** The links carry these keys, and the private dictionary finds each of them. */
  ghost predicate Keyed<K>(links: seq<Link<K>>, keys: seq<K>, linkOf: map<K, Link<K>>) {
    && |keys| == |links|
    && (forall i :: 0 <= i < |links| ==> links[i].key == Some(keys[i]))
    && (forall i :: 0 <= i < |keys| ==> keys[i] in linkOf && linkOf[keys[i]] == links[i])
  }

  lemma KeyedAppend<K>(links: seq<Link<K>>, keys: seq<K>, linkOf: map<K, Link<K>>, link: Link<K>, key: K)
    requires Keyed(links, keys, linkOf) && key !in linkOf && link.key == Some(key)
    ensures Keyed(links + [link], keys + [key], linkOf[key := link])
  {
  }

  lemma KeyedWithout<K>(links: seq<Link<K>>, keys: seq<K>, linkOf: map<K, Link<K>>, i: nat)
    requires Keyed(links, keys, linkOf) && i < |keys| && forall j, k :: 0 <= j < k < |keys| ==> keys[j] != keys[k]
    ensures Keyed(links[..i] + links[i + 1..], keys[..i] + keys[i + 1..], linkOf - {keys[i]})
    ensures |keys| == |links| && linkOf[keys[i]] == links[i]
  {
    GapIndex(links, i);
    GapIndex(keys, i);
  }

  lemma EmptyItems<K(!new), V>(keys: seq<K>, values: map<K, V>)
    requires Listed(keys, values)
    ensures |values| == 0 <==> ItemsOf(keys, values) == []
    ensures Step(ItemsOf(keys, values), ItemLists.PopItem(true)) == [] || ItemsOf(keys, values) != []
    ensures Step(ItemsOf(keys, values), ItemLists.PopItem(false)) == [] || ItemsOf(keys, values) != []
    ensures forall i :: 0 <= i < |keys| ==> ItemsOf(keys, values)[i] == (keys[i], values[keys[i]])
    ensures |keys| == |ItemsOf(keys, values)|
  {
    if keys != [] {
      assert keys[0] in values;
    }
  }

  lemma EndLinks<K>(root: Link<K>, links: seq<Link<K>>, keys: seq<K>, linkOf: map<K, Link<K>>)
    requires Ring(root, links) && Keyed(links, keys, linkOf) && keys != []
    ensures root.next != null && root.next.key == Some(keys[0])
    ensures root.prev != null && root.prev.key == Some(keys[|keys| - 1])
  {
    assert At(root, links, -1) == root == At(root, links, |links|);
  }

  class OrderedDict<K(==,!new), V(==)> {
    const root: Link<K>
    var linkOf: map<K, Link<K>>
    var values: map<K, V>
    ghost var links: seq<Link<K>>  // the links in ring order, without the sentinel
    ghost var keys: seq<K>         // and their keys
    ghost var Repr: set<object>

    ghost predicate Valid()
      reads this, Repr
      ensures Valid() ==> this in Repr
    {
      && this in Repr && root in Repr && Owned(links, Repr)
      && Ring(root, links)
      && Keyed(links, keys, linkOf)
      && linkOf.Keys == values.Keys
      && Listed(keys, values)
    }

    /** The items in the order a forward traversal meets them. */
    ghost function Items(): seq<(K, V)>
      reads this, Repr
      requires Valid()
    {
      ItemsOf(keys, values)
    }

    constructor ()
      ensures Valid() && fresh(Repr) && Items() == []
    {
      root := new Link(None);
      linkOf := map[];
      values := map[];
      links, keys := [], [];
      Repr := {this, root};
      new;
      root.prev, root.next := root, root;
    }

    /** Hangs a new link between the last one and the sentinel. */
    method LinkLast(key: K) returns (link: Link<K>)
      requires Ring(root, links)
      modifies this`links, root, links
      ensures fresh(link) && link.key == Some(key)
      ensures links == old(links) + [link] && Ring(root, links)
    {
      ghost var was, n := links, |links|;
      var last := root.prev;
      assert root == At(root, was, n) && last == At(root, was, n - 1);
      link := new Link(Some(key));
      link.prev, link.next := last, root;
      last.next := link;
      root.prev := link;
      links := links + [link];
      AtAppended(root, was, link);
      forall i | -1 <= i <= n
        ensures At(root, links, i).next == At(root, links, i + 1)
        ensures At(root, links, i + 1).prev == At(root, links, i)
      {
        if i < n - 1 {
          AtDiffer(root, was, i, n - 1);
          assert At(root, was, i).next == At(root, was, i + 1);
        }
      }
    }

    /** Takes the link at place `i` out of the ring, by way of its two neighbours. */
    method Unlink(link: Link<K>, ghost i: nat)
      requires Ring(root, links)
      requires i < |links| && links[i] == link
      modifies this`links, root, links
      ensures links == old(links)[..i] + old(links)[i + 1..] && Ring(root, links)
    {
      ghost var was, n := links, |links|;
      assert link == At(root, was, i);
      var linkPrev, linkNext := link.prev, link.next;
      assert linkPrev == At(root, was, i - 1) && linkNext == At(root, was, i + 1);
      linkPrev.next := linkNext;
      linkNext.prev := linkPrev;
      links := links[..i] + links[i + 1..];
      AtWithout(root, was, i);
      forall j | -1 <= j < n - 1
        ensures At(root, links, j).next == At(root, links, j + 1)
        ensures At(root, links, j + 1).prev == At(root, links, j)
      {
        if j != i - 1 {
          var k := if j < i then j else j + 1;
          AtDiffer(root, was, k, i - 1);
          AtDiffer(root, was, k + 1, i + 1);
          assert old(At(root, was, k).next) == At(root, was, k + 1);
          assert old(At(root, was, k + 1).prev) == At(root, was, k);
        }
      }
    }

    method SetItem(key: K, value: V)
      requires Valid()
      modifies Repr
      ensures Valid() && fresh(Repr - old(Repr))
      ensures Items() == Set(old(Items()), key, value)
    {
      hide Ring, Keyed, Listed, ItemsOf, Set;
      SetListed(keys, values, key, value);
      assert forall i :: 0 <= i < |links| ==> links[i] in Repr;
      if key !in values {
        ghost var links0, linkOf0 := links, linkOf;
        var link := LinkLast(key);
        OwnedAppend(links0, Repr, link);
        KeyedAppend(links0, keys, linkOf0, link, key);
        linkOf := linkOf[key := link];
        keys := keys + [key];
        Repr := Repr + {link};
      }
      values := values[key := value];
    }

    /** `del od[key]`; a missing key raises, and changes nothing. */
    method DelItem(key: K) returns (e: Option<Error>)
      requires Valid()
      modifies Repr
      ensures Valid() && Repr == old(Repr)
      ensures Items() == Remove(old(Items()), key)
      ensures e.Some? <==> !HasKey(old(Items()), key)
    {
      hide Ring, Keyed, ItemsOf, Remove, HasKey, Owned, Listed;
      ItemsAreKeyed(keys, values);
      if key !in values {
        RemoveAbsent(Items(), key);
        return Some(KeyError);
      }
      ghost var i := KeyAt(keys, values, key);
      KeyedWithout(links, keys, linkOf, i);
      OwnedWithout(links, Repr, i);
      RemoveListed(keys, values, i);
      values := values - {key};
      var link := linkOf[key];
      linkOf := linkOf - {key};
      Unlink(link, i);
      keys := keys[..i] + keys[i + 1..];
      return None;
    }

    /** `len(od)`, inherited from the dictionary of values. */
    method Len() returns (n: nat)
      requires Valid()
      ensures n == |Items()|
    {
      CountedKeys(keys, values);
      return |values|;
    }

    /** `key in od`, inherited from the dictionary of values. */
    method Contains(key: K) returns (b: bool)
      requires Valid()
      ensures b <==> HasKey(Items(), key)
    {
      ItemsAreKeyed(keys, values);
      return key in values;
    }

    /** `od[key]`, likewise; a missing key raises. */
    method GetItem(key: K) returns (r: Result<V, Error>)
      requires Valid()
      ensures r == match Lookup(Items(), key)
                   case Some(v) => Ok(v)
                   case None => Err(KeyError)
    {
      ItemsAreKeyed(keys, values);
      LookupAbsent(Items(), key);
      if key in values {
        return Ok(values[key]);
      }
      return Err(KeyError);
    }

    /** `iter(od)`, run to the end: forward along the ring from the sentinel to the sentinel. */
    method Iterate() returns (ks: seq<K>)
      requires Valid()
      ensures ks == keys
    {
      ks := [];
      assert root == At(root, links, -1);
      var curr := root.next;
      while curr != root
        invariant |ks| <= |links| && ks == keys[..|ks|]
        invariant curr == At(root, links, |ks|)
        decreases |links| - |ks|
      {
        ks := ks + [curr.key.value];
        curr := curr.next;
      }
      AtDiffer(root, links, |ks|, |links|);
    }

    /** `reversed(od)`, run to the end: the same keys, last first. */
    method IterateReversed() returns (ks: seq<K>)
      requires Valid()
      ensures |ks| == |keys| && forall i :: 0 <= i < |ks| ==> ks[i] == keys[|keys| - 1 - i]
    {
      ks := [];
      assert root == At(root, links, |links|);
      var curr := root.prev;
      while curr != root
        invariant |ks| <= |links| && forall i :: 0 <= i < |ks| ==> ks[i] == keys[|keys| - 1 - i]
        invariant curr == At(root, links, |links| - 1 - |ks|)
        decreases |links| - |ks|
      {
        ks := ks + [curr.key.value];
        curr := curr.prev;
      }
      AtDiffer(root, links, |links| - 1 - |ks|, -1);
    }

    method Clear()
      requires Valid()
      modifies Repr
      ensures Valid() && Repr == old(Repr)
      ensures Items() == []
    {
      var nodes := linkOf.Values;
      while nodes != {}
        invariant nodes <= linkOf.Values && linkOf == old(linkOf)
        invariant links == old(links) && keys == old(keys) && Repr == old(Repr)
        decreases nodes
      {
        var node :| node in nodes;
        assert exists k :: k in linkOf && linkOf[k] == node;
        node.prev, node.next := null, null;
        nodes := nodes - {node};
      }
      root.prev, root.next := root, root;
      linkOf := map[];
      values := map[];
      links, keys := [], [];
    }

    /** `od.pop(key, default)`: the value of the key, which goes; else the default, else `KeyError`. */
    method Pop(key: K, default: Option<V>) returns (r: Result<V, Error>)
      requires Valid()
      modifies Repr
      ensures Valid() && Repr == old(Repr)
      ensures Items() == Remove(old(Items()), key)
      ensures r == match Lookup(old(Items()), key)
                   case Some(v) => Ok(v)
                   case None => if default.Some? then Ok(default.value) else Err(KeyError)
    {
      ItemsAreKeyed(keys, values);
      LookupAbsent(Items(), key);
      if key in values {
        var result := values[key];
        var _ := DelItem(key);
        return Ok(result);
      }
      RemoveAbsent(Items(), key);
      if default.None? {
        return Err(KeyError);
      }
      return Ok(default.value);
    }

    /** `od.popitem(last)`: takes the last or the first item; an empty dictionary raises. */
    method PopItem(last: bool) returns (r: Result<(K, V), Error>)
      requires Valid()
      modifies Repr
      ensures Valid() && Repr == old(Repr)
      ensures Items() == Step(old(Items()), ItemLists.PopItem(last))
      ensures r == if old(Items()) == [] then Err(KeyError)
                   else Ok(old(Items())[if last then |old(Items())| - 1 else 0])
    {
      hide Ring, Keyed, ItemsOf, Remove, HasKey, Lookup, Step;
      ItemsAreKeyed(keys, values);
      EmptyItems(keys, values);
      if |values| == 0 {
        return Err(KeyError);
      }
      EndLinks(root, links, keys, linkOf);
      var first := if last then root.prev else root.next;
      var key := first.key.value;
      PopItemIsRemove(Items(), last);
      var value := Pop(key, None);
      return Ok((key, value.value));
    }

    /** `od.setdefault(key, default)`: the value of the key, after setting it if it was missing. */
    method SetDefault(key: K, default: V) returns (v: V)
      requires Valid()
      modifies Repr
      ensures Valid() && fresh(Repr - old(Repr))
      ensures Items() == if HasKey(old(Items()), key) then old(Items()) else Set(old(Items()), key, default)
      ensures Some(v) == if HasKey(old(Items()), key) then Lookup(old(Items()), key) else Some(default)
    {
      hide Ring, Keyed, ItemsOf, HasKey, Lookup, Set;
      ItemsAreKeyed(keys, values);
      if key in values {
        return values[key];
      }
      SetItem(key, default);
      return default;
    }

    /** `od.items()`: the keys in order, each with its value. */
    method ItemList() returns (items: seq<(K, V)>)
      requires Valid()
      ensures items == Items()
    {
      var ks := Iterate();
      items := [];
      for i := 0 to |ks|
        invariant |items| == i
        invariant forall j :: 0 <= j < i ==> items[j] == (ks[j], values[ks[j]])
      {
        items := items + [(ks[i], values[ks[i]])];
      }
    }

    /** Against another `OrderedDict`, equality minds the order. */
    method EqualsOrdered(other: OrderedDict<K, V>) returns (b: bool)
      requires Valid() && other.Valid()
      ensures b <==> Items() == other.Items()
    {
      if |values| != |other.values| {
        CountedKeys(keys, values);
        CountedKeys(other.keys, other.values);
        return false;
      }
      var mine := ItemList();
      var theirs := other.ItemList();
      return mine == theirs;
    }

    /** Against any other mapping, equality does not. */
    method EqualsMapping(other: map<K, V>) returns (b: bool)
      requires Valid()
      ensures b <==> forall k :: Lookup(Items(), k) == Get(other, k)
    {
      SameMapping(keys, values, other);
      return values == other;
    }
  }

  lemma {:induction false} CountedKeys<K(!new), V>(keys: seq<K>, values: map<K, V>)
    requires Listed(keys, values)
    ensures |values| == |keys|
    decreases |keys|
  {
    if keys == [] {
      assert values == map[];
    } else {
      var k := keys[|keys| - 1];
      RemoveListed(keys, values, |keys| - 1);
      assert keys[..|keys| - 1] + keys[|keys|..] == keys[..|keys| - 1];
      CountedKeys(keys[..|keys| - 1], values - {k});
      assert (values - {k}).Keys == values.Keys - {k};
      assert |values.Keys| == |(values - {k}).Keys| + 1;
    }
  }

  lemma RunOfNone<K, V>()
    ensures Run<K, V>([]) == []
  {
  }

  lemma RunPrefix<K, V>(ops: seq<Op<K, V>>, i: nat)
    requires i < |ops|
    ensures Run(ops[..i + 1]) == Step(Run(ops[..i]), ops[i])
    ensures Step(Run(ops[..i]), ops[i]) ==
            match ops[i]
            case SetItem(key, value) => Set(Run(ops[..i]), key, value)
            case SetDefault(key, value) =>
              if HasKey(Run(ops[..i]), key) then Run(ops[..i]) else Set(Run(ops[..i]), key, value)
            case Delete(key) => Remove(Run(ops[..i]), key)
            case Pop(key, _) => Remove(Run(ops[..i]), key)
            case PopItem(last) => Step(Run(ops[..i]), ItemLists.PopItem(last))
            case Clear => []
  {
    assert ops[..i + 1][..i] == ops[..i];
  }

  /** Any run of operations on a new dictionary leaves a proper ring, and the items the run calls for. */
  method Perform<K(==,!new), V(==)>(ops: seq<Op<K, V>>) returns (od: OrderedDict<K, V>)
    ensures fresh(od) && od.Valid() && od.Items() == Run(ops)
    ensures InsertionOrdered(od.Items(), ops)
  {
    hide *;
    od := new OrderedDict();
    RunOfNone<K, V>();
    for i := 0 to |ops|
      invariant od.Valid() && fresh(od.Repr)
      invariant od.Items() == Run(ops[..i])
    {
      RunPrefix(ops, i);
      match ops[i]
      case SetItem(key, value) =>
        od.SetItem(key, value);
      case SetDefault(key, value) =>
        var _ := od.SetDefault(key, value);
      case Delete(key) =>
        var _ := od.DelItem(key);
      case Pop(key, default) =>
        var _ := od.Pop(key, default);
      case PopItem(last) =>
        var _ := od.PopItem(last);
      case Clear =>
        od.Clear();
    }
    assert ops[..|ops|] == ops;
    RunIsInsertionOrdered(ops);
  }
}
