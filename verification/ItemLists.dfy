/**
 What an insertion-ordered dictionary holds: a list of items with distinct keys, and what
 each operation of `OrderedDict` makes of it.
 */
module ItemLists {
  import opened Wrappers

  predicate HasKey<K(==), V>(items: seq<(K, V)>, key: K) {
    exists i :: 0 <= i < |items| && items[i].0 == key
  }

  ghost predicate DistinctKeys<K, V>(items: seq<(K, V)>) {
    forall i, j :: 0 <= i < j < |items| ==> items[i].0 != items[j].0
  }

  /** Overwrites in place, or appends. */
  function Set<K(==), V>(items: seq<(K, V)>, key: K, value: V): seq<(K, V)> {
    if items == [] then [(key, value)]
    else if items[0].0 == key then [(key, value)] + items[1..]
    else [items[0]] + Set(items[1..], key, value)
  }

  function Remove<K(==), V>(items: seq<(K, V)>, key: K): seq<(K, V)> {
    if items == [] then []
    else if items[0].0 == key then items[1..]
    else [items[0]] + Remove(items[1..], key)
  }

  function Lookup<K(==), V>(items: seq<(K, V)>, key: K): Option<V> {
    if items == [] then None
    else if items[0].0 == key then Some(items[0].1)
    else Lookup(items[1..], key)
  }

  lemma {:induction false} LookupAt<K, V>(items: seq<(K, V)>, i: nat)
    requires i < |items| && DistinctKeys(items)
    ensures Lookup(items, items[i].0) == Some(items[i].1)
  {
    if i > 0 {
      assert items[0].0 != items[i].0;
      LookupAt(items[1..], i - 1);
    }
  }

  lemma {:induction false} LookupAbsent<K, V>(items: seq<(K, V)>, key: K)
    ensures Lookup(items, key).None? <==> !HasKey(items, key)
  {
    if items != [] {
      LookupAbsent(items[1..], key);
      if HasKey(items[1..], key) {
        var i :| 0 <= i < |items[1..]| && items[1..][i].0 == key;
        assert items[i + 1].0 == key;
      }
      if HasKey(items, key) && items[0].0 != key {
        var i :| 0 <= i < |items| && items[i].0 == key;
        assert items[1..][i - 1].0 == key;
      }
    }
  }

  /** Setting an absent key appends it; setting a present one keeps its place. */
  lemma {:induction false} SetPlaces<K, V>(items: seq<(K, V)>, key: K, value: V)
    ensures !HasKey(items, key) ==> Set(items, key, value) == items + [(key, value)]
    ensures forall i :: 0 <= i < |items| && items[i].0 == key && DistinctKeys(items) ==>
              Set(items, key, value) == items[i := (key, value)]
  {
    if items != [] {
      SetPlaces(items[1..], key, value);
      if !HasKey(items, key) {
        assert items[0].0 != key;
        forall i | 0 <= i < |items[1..]|
          ensures items[1..][i].0 != key
        {
          assert items[i + 1].0 != key;
        }
      }
      forall i | 0 <= i < |items| && items[i].0 == key && DistinctKeys(items)
        ensures Set(items, key, value) == items[i := (key, value)]
      {
        if i > 0 {
          assert items[1..][i - 1].0 == key;
          assert items[i := (key, value)] == [items[0]] + items[1..][i - 1 := (key, value)];
        } else {
          assert items[0 := (key, value)] == [(key, value)] + items[1..];
        }
      }
    }
  }

  /** Removing a key closes the gap it leaves. */
  lemma {:induction false} RemoveAt<K, V>(items: seq<(K, V)>, i: nat)
    requires i < |items| && DistinctKeys(items)
    ensures Remove(items, items[i].0) == items[..i] + items[i + 1..]
  {
    if i > 0 {
      assert items[0].0 != items[i].0;
      RemoveAt(items[1..], i - 1);
      assert [items[0]] + (items[1..][..i - 1] + items[1..][i..]) == items[..i] + items[i + 1..];
    }
  }

  lemma {:induction false} RemoveAbsent<K, V>(items: seq<(K, V)>, key: K)
    requires !HasKey(items, key)
    ensures Remove(items, key) == items
  {
    if items != [] {
      assert items[0].0 != key;
      forall i | 0 <= i < |items[1..]|
        ensures items[1..][i].0 != key
      {
        assert items[i + 1].0 != key;
      }
      RemoveAbsent(items[1..], key);
    }
  }

  // ----- Items held as a list of keys and a map of values

  ghost predicate Listed<K(!new), V>(keys: seq<K>, values: map<K, V>) {
    && (forall i, j :: 0 <= i < j < |keys| ==> keys[i] != keys[j])
    && (forall k :: k in keys <==> k in values)
  }

  function ItemsOf<K(!new), V>(keys: seq<K>, values: map<K, V>): (items: seq<(K, V)>)
    requires forall k :: k in keys ==> k in values
    ensures |items| == |keys|
    ensures forall i :: 0 <= i < |keys| ==> items[i] == (keys[i], values[keys[i]])
  {
    if keys == [] then [] else [(keys[0], values[keys[0]])] + ItemsOf(keys[1..], values)
  }

  lemma ItemsAreKeyed<K(!new), V>(keys: seq<K>, values: map<K, V>)
    requires Listed(keys, values)
    ensures DistinctKeys(ItemsOf(keys, values))
    ensures forall k :: k in values <==> HasKey(ItemsOf(keys, values), k)
    ensures forall k :: k in values ==> Lookup(ItemsOf(keys, values), k) == Some(values[k])
  {
    var items := ItemsOf(keys, values);
    forall k
      ensures k in values <==> HasKey(items, k)
      ensures k in values ==> Lookup(items, k) == Some(values[k])
    {
      if k in values {
        var i :| 0 <= i < |keys| && keys[i] == k;
        assert items[i].0 == k;
        LookupAt(items, i);
      }
    }
  }

  function Get<K, V>(m: map<K, V>, key: K): Option<V> {
    if key in m then Some(m[key]) else None
  }

  lemma {:induction false} SameMapping<K(!new), V>(keys: seq<K>, values: map<K, V>, other: map<K, V>)
    requires Listed(keys, values)
    ensures values == other <==> forall k :: Lookup(ItemsOf(keys, values), k) == Get(other, k)
  {
    hide Lookup, HasKey, ItemsOf;
    ItemsAreKeyed(keys, values);
    forall k
      ensures Lookup(ItemsOf(keys, values), k) == Get(values, k)
    {
      LookupAbsent(ItemsOf(keys, values), k);
    }
    if forall k :: Lookup(ItemsOf(keys, values), k) == Get(other, k) {
      assert forall k :: Get(values, k) == Get(other, k);
      forall k
        ensures k in values <==> k in other
        ensures k in values && k in other ==> values[k] == other[k]
      {
        assert Get(values, k) == Get(other, k);
      }
    }
  }

  lemma ItemsOverwritten<K(!new), V>(keys: seq<K>, values: map<K, V>, i: nat, value: V)
    requires Listed(keys, values) && i < |keys|
    ensures Listed(keys, values[keys[i] := value])
    ensures ItemsOf(keys, values[keys[i] := value]) == ItemsOf(keys, values)[i := (keys[i], value)]
  {
  }

  lemma ItemsExtended<K(!new), V>(keys: seq<K>, values: map<K, V>, key: K, value: V)
    requires Listed(keys, values) && key !in values
    ensures Listed(keys + [key], values[key := value])
    ensures ItemsOf(keys + [key], values[key := value]) == ItemsOf(keys, values) + [(key, value)]
  {
  }

  lemma KeyAt<K(!new), V>(keys: seq<K>, values: map<K, V>, key: K) returns (i: nat)
    requires Listed(keys, values) && key in values
    ensures i < |keys| && keys[i] == key && ItemsOf(keys, values)[i] == (key, values[key])
  {
    i :| 0 <= i < |keys| && keys[i] == key;
  }

  lemma SetListed<K(!new), V>(keys: seq<K>, values: map<K, V>, key: K, value: V)
    requires Listed(keys, values)
    ensures var keys' := if key in values then keys else keys + [key];
            && Listed(keys', values[key := value])
            && ItemsOf(keys', values[key := value]) == Set(ItemsOf(keys, values), key, value)
  {
    assert forall k :: k in keys ==> k in values;
    hide *;
    ItemsAreKeyed(keys, values);
    SetPlaces(ItemsOf(keys, values), key, value);
    if key in values {
      var i := KeyAt(keys, values, key);
      ItemsOverwritten(keys, values, i, value);
    } else {
      ItemsExtended(keys, values, key, value);
    }
  }

  /** What sits where in a list with place `i` taken out. */
  lemma GapIndex<K>(s: seq<K>, i: nat)
    requires i < |s|
    ensures var t := s[..i] + s[i + 1..];
            |t| == |s| - 1 && forall j {:trigger t[j]} :: 0 <= j < |t| ==> t[j] == s[if j < i then j else j + 1]
  {
  }

  lemma GapKeepsOthers<K>(s: seq<K>, i: nat)
    requires i < |s| && forall j, k :: 0 <= j < k < |s| ==> s[j] != s[k]
    ensures forall x :: x in s[..i] + s[i + 1..] <==> x in s && x != s[i]
    ensures var t := s[..i] + s[i + 1..]; forall j, k :: 0 <= j < k < |t| ==> t[j] != t[k]
  {
    var t := s[..i] + s[i + 1..];
    forall x | x in s && x != s[i]
      ensures x in t
    {
      var j :| 0 <= j < |s| && s[j] == x;
      assert t[if j < i then j else j - 1] == x;
    }
  }

  lemma ItemsGap<K(!new), V>(keys: seq<K>, values: map<K, V>, i: nat)
    requires i < |keys| && (forall k :: k in keys ==> k in values)
    requires forall k :: k in keys[..i] + keys[i + 1..] ==> k in keys && k != keys[i]
    ensures ItemsOf(keys[..i] + keys[i + 1..], values - {keys[i]}) ==
              ItemsOf(keys, values)[..i] + ItemsOf(keys, values)[i + 1..]
  {
    var a := ItemsOf(keys[..i] + keys[i + 1..], values - {keys[i]});
    var b := ItemsOf(keys, values)[..i] + ItemsOf(keys, values)[i + 1..];
    forall j | 0 <= j < |a|
      ensures a[j] == b[j]
    {
      assert (keys[..i] + keys[i + 1..])[j] in keys[..i] + keys[i + 1..];
    }
  }

  lemma RemoveListed<K(!new), V>(keys: seq<K>, values: map<K, V>, i: nat)
    requires Listed(keys, values) && i < |keys|
    ensures Listed(keys[..i] + keys[i + 1..], values - {keys[i]})
    ensures ItemsOf(keys[..i] + keys[i + 1..], values - {keys[i]}) == Remove(ItemsOf(keys, values), keys[i])
  {
    GapKeepsOthers(keys, i);
    ItemsAreKeyed(keys, values);
    assert Listed(keys[..i] + keys[i + 1..], values - {keys[i]});
    hide *;
    RemoveAt(ItemsOf(keys, values), i);
    ItemsGap(keys, values, i);
  }

  // ----- Runs

  datatype Op<K, V> =
    | SetItem(key: K, value: V)
    | SetDefault(key: K, value: V)
    | Delete(key: K)
    | Pop(key: K, default: Option<V>)
    | PopItem(last: bool)
    | Clear

  /** The items after one operation; operations that raise leave them alone. */
  function Step<K(==), V>(items: seq<(K, V)>, op: Op<K, V>): seq<(K, V)> {
    match op
    case SetItem(key, value) => Set(items, key, value)
    case SetDefault(key, value) => if HasKey(items, key) then items else Set(items, key, value)
    case Delete(key) => Remove(items, key)
    case Pop(key, _) => Remove(items, key)
    case PopItem(last) => if items == [] then [] else if last then items[..|items| - 1] else items[1..]
    case Clear => []
  }

  function Run<K(==), V>(ops: seq<Op<K, V>>): seq<(K, V)> {
    if ops == [] then [] else Step(Run(ops[..|ops| - 1]), ops[|ops| - 1])
  }

  /** The operation gives its key its value. */
  predicate Sets<K(==), V>(items: seq<(K, V)>, op: Op<K, V>) {
    op.SetItem? || (op.SetDefault? && !HasKey(items, op.key))
  }

  /** When the key was last inserted: the latest operation that set it while it was absent. */
  function Born<K(==), V>(ops: seq<Op<K, V>>, key: K): nat {
    if ops == [] then 0
    else
      var before, op := ops[..|ops| - 1], ops[|ops| - 1];
      if Sets(Run(before), op) && op.key == key && !HasKey(Run(before), key) then |before| else Born(before, key)
  }

  /** The value the key was last set to. */
  function LastSet<K(==), V>(ops: seq<Op<K, V>>, key: K): Option<V> {
    if ops == [] then None
    else
      var before, op := ops[..|ops| - 1], ops[|ops| - 1];
      if Sets(Run(before), op) && op.key == key then Some(op.value) else LastSet(before, key)
  }

  /** The items are in order of insertion, and hold the values last set. */
  ghost predicate InsertionOrdered<K(!new), V>(items: seq<(K, V)>, ops: seq<Op<K, V>>) {
    && DistinctKeys(items)
    && (forall i :: 0 <= i < |items| ==> Born(ops, items[i].0) < |ops| && LastSet(ops, items[i].0) == Some(items[i].1))
    && (forall i, j :: 0 <= i < j < |items| ==> Born(ops, items[i].0) < Born(ops, items[j].0))
  }

  /** `sub` keeps some of the items, in order. */
  ghost predicate Kept<K, V>(sub: seq<(K, V)>, items: seq<(K, V)>, gap: nat) {
    && |sub| <= |items|
    && forall i :: 0 <= i < |sub| ==> sub[i] == items[if i < gap then i else i + |items| - |sub|]
  }

  lemma GapIsKept<K, V>(items: seq<(K, V)>, i: nat)
    requires i < |items|
    ensures Kept(items[..i] + items[i + 1..], items, i)
  {
  }

  lemma RemoveKeeps<K, V>(items: seq<(K, V)>, key: K) returns (gap: nat)
    requires DistinctKeys(items)
    ensures Kept(Remove(items, key), items, gap)
  {
    gap := 0;
    if HasKey(items, key) {
      gap :| 0 <= gap < |items| && items[gap].0 == key;
      RemoveAt(items, gap);
      GapIsKept(items, gap);
    } else {
      RemoveAbsent(items, key);
    }
  }

  lemma StepKeeps<K, V>(items: seq<(K, V)>, op: Op<K, V>)
    requires DistinctKeys(items) && !Sets(items, op)
    ensures exists gap: nat :: Kept(Step(items, op), items, gap)
  {
    match op
    case SetDefault(_, _) => assert Kept(Step(items, op), items, 0);
    case Delete(key) =>
      var gap := RemoveKeeps(items, key);
      assert Kept(Step(items, op), items, gap);
    case Pop(key, _) =>
      var gap := RemoveKeeps(items, key);
      assert Kept(Step(items, op), items, gap);
    case PopItem(last) => assert Kept(Step(items, op), items, if last then |items| else 0);
    case Clear => assert Kept(Step(items, op), items, 0);
  }

  lemma RunStep<K, V>(before: seq<Op<K, V>>, op: Op<K, V>, key: K)
    ensures Run(before + [op]) == Step(Run(before), op)
    ensures var sets := Sets(Run(before), op) && op.key == key;
            && Born(before + [op], key) == (if sets && !HasKey(Run(before), key) then |before| else Born(before, key))
            && LastSet(before + [op], key) == (if sets then Some(op.value) else LastSet(before, key))
  {
    assert (before + [op])[..|before|] == before;
  }

  lemma SetKeepsOrder<K(!new), V>(before: seq<Op<K, V>>, op: Op<K, V>)
    requires Sets(Run(before), op) && InsertionOrdered(Run(before), before)
    ensures InsertionOrdered(Run(before + [op]), before + [op])
  {
    forall key {
      RunStep(before, op, key);
    }
    var items := Run(before);
    SetPlaces(items, op.key, op.value);
    if HasKey(items, op.key) {
      var i :| 0 <= i < |items| && items[i].0 == op.key;
      OverwriteKeepsOrder(items, i, before, op);
    } else {
      AppendKeepsOrder(items, before, op);
    }
  }

  lemma OverwriteKeepsOrder<K(!new), V>(items: seq<(K, V)>, i: nat, before: seq<Op<K, V>>, op: Op<K, V>)
    requires (op.SetItem? || op.SetDefault?) && InsertionOrdered(items, before) && i < |items| && items[i].0 == op.key
    requires forall key :: Born(before + [op], key) == Born(before, key)
    requires forall key :: LastSet(before + [op], key) == if op.key == key then Some(op.value) else LastSet(before, key)
    ensures InsertionOrdered(items[i := (op.key, op.value)], before + [op])
  {
    hide Born, LastSet, Run, Step, HasKey;
  }

  lemma AppendKeepsOrder<K(!new), V>(items: seq<(K, V)>, before: seq<Op<K, V>>, op: Op<K, V>)
    requires (op.SetItem? || op.SetDefault?) && InsertionOrdered(items, before)
    requires forall i :: 0 <= i < |items| ==> items[i].0 != op.key
    requires forall key :: Born(before + [op], key) == if op.key == key then |before| else Born(before, key)
    requires forall key :: LastSet(before + [op], key) == if op.key == key then Some(op.value) else LastSet(before, key)
    ensures InsertionOrdered(items + [(op.key, op.value)], before + [op])
  {
    hide Born, LastSet, Run, Step, HasKey;
  }

  lemma RemovalKeepsOrder<K(!new), V>(before: seq<Op<K, V>>, op: Op<K, V>)
    requires !Sets(Run(before), op) && InsertionOrdered(Run(before), before)
    ensures InsertionOrdered(Run(before + [op]), before + [op])
  {
    forall key {
      RunStep(before, op, key);
    }
    StepKeeps(Run(before), op);
  }

  /** Over every run, the items stay in order of insertion, with the values last set. */
  lemma {:induction false} RunIsInsertionOrdered<K(!new), V>(ops: seq<Op<K, V>>)
    ensures InsertionOrdered(Run(ops), ops)
  {
    if ops != [] {
      var before, op := ops[..|ops| - 1], ops[|ops| - 1];
      RunIsInsertionOrdered(before);
      assert ops == before + [op];
      if Sets(Run(before), op) {
        SetKeepsOrder(before, op);
      } else {
        RemovalKeepsOrder(before, op);
      }
    }
  }

  /** `popitem` is written as a removal of the end item's key. */
  lemma PopItemIsRemove<K, V>(items: seq<(K, V)>, last: bool)
    requires items != [] && DistinctKeys(items)
    ensures var victim := items[if last then |items| - 1 else 0];
            && Step(items, PopItem(last)) == Remove(items, victim.0)
            && Lookup(items, victim.0) == Some(victim.1)
  {
    hide Lookup, Remove;
    LookupAt(items, if last then |items| - 1 else 0);
    RemoveAt(items, if last then |items| - 1 else 0);
  }

  /** `popitem` takes the surviving key inserted last, or the one inserted first, and no other. */
  lemma {:induction false} PopItemByAge<K(!new), V>(ops: seq<Op<K, V>>, last: bool, key: K)
    requires Run(ops) != []
    ensures var items := Run(ops);
            var victim := items[if last then |items| - 1 else 0].0;
            && (HasKey(items, key) ==>
              if last then Born(ops, key) <= Born(ops, victim) else Born(ops, victim) <= Born(ops, key))
            && (HasKey(Step(items, PopItem(last)), key) <==> HasKey(items, key) && key != victim)
  {
    RunIsInsertionOrdered(ops);
    var items := Run(ops);
    var rest := Step(items, PopItem(last));
    if HasKey(items, key) {
      var i :| 0 <= i < |items| && items[i].0 == key;
      if last {
        assert i < |items| - 1 ==> rest[i].0 == key;
      } else {
        assert i > 0 ==> rest[i - 1].0 == key;
      }
    }
    if HasKey(rest, key) {
      var i :| 0 <= i < |rest| && rest[i].0 == key;
      assert items[if last then i else i + 1].0 == key;
    }
  }
}