/**
 The virtual tables a rewritten query mentions, and `vt_distinct` of `sqltransform.py`,
 which merges lists of them.  SQL text is a list of tokens: a virtual-table name, the
 alias that stands in for it, or any other text.
 */
module VirtualTables {
  import opened Wrappers
  import opened ItemLists
  import opened OrderedDicts

  /** `vt_N`, `table_N`, or text in which neither occurs. */
  datatype Token = Name(id: nat) | Alias(id: nat) | Text(text: string)

  type Sql = seq<Token>

  /**
   A virtual table: its name, the operator that fills it and its arguments; a fourth tuple member
   marks it permanent.
   */
  datatype VTable = VTable(name: nat, op: string, args: Sql, permanent: bool)

  // ----- What the merge keeps

  function Merge(d: seq<VTable>, v: VTable): seq<VTable> {
    if d == [] then [v]
    else if d[0].name != v.name then [d[0]] + Merge(d[1..], v)
    else if d[0].permanent then d
    else [v] + d[1..]
  }

  function Distinct(vt: seq<VTable>): seq<VTable> {
    if vt == [] then [] else Merge(Distinct(vt[..|vt| - 1]), vt[|vt| - 1])
  }

  /** The entry that stands for a name: the first permanent one, or failing that the last. */
  function Winner(vt: seq<VTable>, name: nat): Option<VTable> {
    if vt == [] then None
    else
      var earlier, v := Winner(vt[..|vt| - 1], name), vt[|vt| - 1];
      if v.name != name || (earlier.Some? && earlier.value.permanent) then earlier else Some(v)
  }

  /** Place `i` holds the entry that stands for its name. */
  ghost predicate Stands(vt: seq<VTable>, i: nat) {
    && i < |vt|
    && if vt[i].permanent then forall j :: 0 <= j < i && vt[j].name == vt[i].name ==> !vt[j].permanent
       else forall j :: 0 <= j < |vt| && vt[j].name == vt[i].name ==> j <= i && !vt[j].permanent
  }

  /** Names added to a list one by one, each only if it is new. */
  function AddNew(acc: seq<nat>, names: seq<nat>): seq<nat> {
    if names == [] then acc
    else
      var earlier, n := AddNew(acc, names[..|names| - 1]), names[|names| - 1];
      if n in earlier then earlier else earlier + [n]
  }

  /** The names of a list, each where it is first seen. */
  function FirstSeen(names: seq<nat>): seq<nat> {
    AddNew([], names)
  }

  function Names(vt: seq<VTable>): (ns: seq<nat>)
    ensures |ns| == |vt|
    ensures forall i :: 0 <= i < |vt| ==> ns[i] == vt[i].name
  {
    if vt == [] then [] else Names(vt[..|vt| - 1]) + [vt[|vt| - 1].name]
  }

  lemma {:induction false} WinnerStands(vt: seq<VTable>, i: nat)
    requires Stands(vt, i)
    ensures Winner(vt, vt[i].name) == Some(vt[i])
  {
    var before := vt[..|vt| - 1];
    if i < |before| {
      assert Stands(before, i);
      WinnerStands(before, i);
      assert vt[|before|].name == vt[i].name ==> vt[i].permanent;
    } else {
      WinnerFrom(before, vt[i].name);
    }
  }

  lemma {:induction false} WinnerFrom(vt: seq<VTable>, name: nat)
    ensures Winner(vt, name).None? <==> name !in Names(vt)
    ensures Winner(vt, name).Some? ==> Winner(vt, name).value in vt && Winner(vt, name).value.name == name
    ensures name in Names(vt) ==> exists i :: 0 <= i < |vt| && vt[i].name == name
  {
    if vt != [] {
      WinnerFrom(vt[..|vt| - 1], name);
    }
  }

  // ----- One entry per name, in first-seen order, each the winner

  ghost predicate OnePerName(d: seq<VTable>) {
    forall i, j :: 0 <= i < j < |d| ==> d[i].name != d[j].name
  }

  lemma {:induction false} MergeNew(d: seq<VTable>, v: VTable)
    requires forall i :: 0 <= i < |d| ==> d[i].name != v.name
    ensures Merge(d, v) == d + [v]
  {
    if d != [] {
      assert d[0].name != v.name;
      MergeNew(d[1..], v);
    }
  }

  lemma {:induction false} MergeOld(d: seq<VTable>, i: nat, v: VTable)
    requires OnePerName(d) && i < |d| && d[i].name == v.name
    ensures Merge(d, v) == if d[i].permanent then d else d[i := v]
  {
    if i > 0 {
      assert d[0].name != d[i].name;
      MergeOld(d[1..], i - 1, v);
      assert d == [d[0]] + d[1..];
    }
  }

  /** `d` merges `vt`: its names are those of `vt` where first seen, its entries the ones that stand for them. */
  ghost predicate Merges(d: seq<VTable>, vt: seq<VTable>) {
    && OnePerName(d)
    && Names(d) == FirstSeen(Names(vt))
    && forall i :: 0 <= i < |d| ==> Winner(vt, d[i].name) == Some(d[i])
  }

  lemma OneMore(vt: seq<VTable>, v: VTable, name: nat)
    ensures Winner(vt + [v], name) ==
            if v.name != name || (Winner(vt, name).Some? && Winner(vt, name).value.permanent) then Winner(vt, name)
            else Some(v)
    ensures Names(vt + [v]) == Names(vt) + [v.name]
  {
    assert (vt + [v])[..|vt|] == vt;
  }

  lemma FirstSeenOneMore(names: seq<nat>, n: nat)
    ensures FirstSeen(names + [n]) == if n in FirstSeen(names) then FirstSeen(names) else FirstSeen(names) + [n]
  {
    assert (names + [n])[..|names|] == names;
  }

  lemma MergesOverwritten(d: seq<VTable>, vt: seq<VTable>, i: nat, v: VTable)
    requires Merges(d, vt) && i < |d| && d[i].name == v.name
    ensures Merges(if d[i].permanent then d else d[i := v], vt + [v])
  {
    hide Winner, FirstSeen, AddNew, Names;
    var d' := if d[i].permanent then d else d[i := v];
    assert Names(d') == Names(d) by { assert forall j :: 0 <= j < |d| ==> d'[j].name == d[j].name; }
    assert Names(d)[i] == v.name;
    FirstSeenOneMore(Names(vt), v.name);
    forall name {
      OneMore(vt, v, name);
    }
  }

  lemma MergesExtended(d: seq<VTable>, vt: seq<VTable>, v: VTable)
    requires Merges(d, vt) && v.name !in Names(d)
    ensures Merges(d + [v], vt + [v])
  {
    hide Winner, FirstSeen, AddNew, Names;
    assert forall j :: 0 <= j < |d| ==> Names(d)[j] in Names(d);
    OneMore(d, v, v.name);
    FirstSeenOneMore(Names(vt), v.name);
    NotYetSeen(vt, v.name);
    forall name {
      OneMore(vt, v, name);
    }
  }

  lemma NotYetSeen(vt: seq<VTable>, name: nat)
    requires name !in FirstSeen(Names(vt))
    ensures Winner(vt, name).None?
  {
    WinnerFrom(vt, name);
    AddNewMembers([], Names(vt), name);
  }

  lemma MergesOneMore(d: seq<VTable>, vt: seq<VTable>, v: VTable)
    requires Merges(d, vt)
    ensures Merges(Merge(d, v), vt + [v])
  {
    if v.name in Names(d) {
      var i :| 0 <= i < |d| && Names(d)[i] == v.name;
      MergeOld(d, i, v);
      hide *;
      MergesOverwritten(d, vt, i, v);
    } else {
      assert forall i :: 0 <= i < |d| ==> Names(d)[i] in Names(d);
      MergeNew(d, v);
      hide *;
      MergesExtended(d, vt, v);
    }
  }

  lemma {:induction false} AddNewMembers(acc: seq<nat>, names: seq<nat>, n: nat)
    ensures n in AddNew(acc, names) <==> n in acc || n in names
  {
    if names != [] {
      AddNewMembers(acc, names[..|names| - 1], n);
      assert names == names[..|names| - 1] + [names[|names| - 1]];
    }
  }

  /** What `vt_distinct` keeps of any list. */
  lemma {:induction false} DistinctMerges(vt: seq<VTable>)
    ensures Merges(Distinct(vt), vt)
  {
    if vt != [] {
      var before := vt[..|vt| - 1];
      DistinctMerges(before);
      MergesOneMore(Distinct(before), before, vt[|vt| - 1]);
      assert vt == before + [vt[|vt| - 1]];
    }
  }

  lemma MergesUniquely(d: seq<VTable>, d': seq<VTable>, vt: seq<VTable>)
    requires Merges(d, vt) && Merges(d', vt)
    ensures d == d'
  {
    forall i | 0 <= i < |d|
      ensures |d| == |d'| && d[i] == d'[i]
    {
      assert Names(d)[i] == Names(d')[i];
    }
    assert |Names(d)| == |Names(d')|;
  }

  // ----- The same, entry by entry

  lemma {:induction false} EntryStands(vt: seq<VTable>, name: nat) returns (i: nat)
    requires Winner(vt, name).Some?
    ensures Stands(vt, i) && Winner(vt, name) == Some(vt[i]) && vt[i].name == name
  {
    var before, last := vt[..|vt| - 1], vt[|vt| - 1];
    if last.name != name || (Winner(before, name).Some? && Winner(before, name).value.permanent) {
      i := EntryStands(before, name);
      assert forall j :: 0 <= j < |vt| && vt[j].name == name ==> j == |before| || before[j].name == name;
    } else {
      i := |before|;
      if Winner(before, name).Some? {
        var k := EntryStands(before, name);
        assert forall j :: 0 <= j < |before| && vt[j].name == name ==> before[j].name == name;
      } else {
        WinnerFrom(before, name);
        assert forall j :: 0 <= j < |before| ==> Names(before)[j] in Names(before);
      }
    }
  }

  /** Where the name is first seen. */
  function FirstAt(vt: seq<VTable>, name: nat): (i: nat)
    ensures i <= |vt| && (i < |vt| ==> vt[i].name == name)
  {
    if vt == [] || vt[0].name == name then 0 else 1 + FirstAt(vt[1..], name)
  }

  lemma {:induction false} FirstAtGrows(vt: seq<VTable>, v: VTable, name: nat)
    ensures FirstAt(vt + [v], name) ==
            if FirstAt(vt, name) < |vt| || v.name == name then FirstAt(vt, name) else |vt| + 1
    ensures forall j :: 0 <= j < FirstAt(vt, name) ==> vt[j].name != name
  {
    if vt != [] && vt[0].name != name {
      FirstAtGrows(vt[1..], v, name);
      assert (vt + [v])[1..] == vt[1..] + [v];
      assert forall j :: 0 < j < |vt| ==> vt[j] == vt[1..][j - 1];
    }
  }

  /** Names that occur in the list, in the order in which they are first seen there. */
  ghost predicate SeenInOrder(vt: seq<VTable>, names: seq<nat>) {
    && (forall i :: 0 <= i < |names| ==> FirstAt(vt, names[i]) < |vt|)
    && (forall i, j :: 0 <= i < j < |names| ==> FirstAt(vt, names[i]) < FirstAt(vt, names[j]))
  }

  lemma SeenInOrderGrows(vt: seq<VTable>, v: VTable, names: seq<nat>)
    requires SeenInOrder(vt, names)
    ensures SeenInOrder(vt + [v], names)
    ensures FirstAt(vt, v.name) == |vt| ==> SeenInOrder(vt + [v], names + [v.name])
  {
    hide FirstAt;
    forall name {
      FirstAtGrows(vt, v, name);
    }
  }

  lemma {:induction false} FirstSeenInOrder(vt: seq<VTable>)
    ensures SeenInOrder(vt, FirstSeen(Names(vt)))
  {
    hide *;
    if vt == [] {
      NothingSeen();
    } else {
      var before, v := vt[..|vt| - 1], vt[|vt| - 1];
      assert vt == before + [v];
      FirstSeenInOrder(before);
      SeenInOrderGrows(before, v, FirstSeen(Names(before)));
      OneMore(before, v, v.name);
      FirstSeenOneMore(Names(before), v.name);
      if v.name !in FirstSeen(Names(before)) {
        NotAmong(before, v.name);
      }
    }
  }

  lemma NothingSeen()
    ensures SeenInOrder([], FirstSeen(Names([])))
  {
  }

  lemma NotAmong(vt: seq<VTable>, name: nat)
    requires name !in FirstSeen(Names(vt))
    ensures FirstAt(vt, name) == |vt|
  {
    AddNewMembers([], Names(vt), name);
    assert forall i :: 0 <= i < |vt| ==> Names(vt)[i] in Names(vt);
  }

  /** The merged list: an entry for each name, the one that stands for it, in the order the names are first seen. */
  ghost predicate EntryPerName(d: seq<VTable>, vt: seq<VTable>) {
    && (forall v :: v in vt ==> exists i :: 0 <= i < |d| && d[i].name == v.name)
    && (forall i :: 0 <= i < |d| ==> exists j: nat :: Stands(vt, j) && vt[j] == d[i])
    && (forall i, j :: 0 <= i < j < |d| ==> FirstAt(vt, d[i].name) < FirstAt(vt, d[j].name))
  }

  lemma MergesKeeps(d: seq<VTable>, vt: seq<VTable>)
    requires Merges(d, vt)
    ensures EntryPerName(d, vt)
  {
    hide Winner, AddNew, FirstSeen, FirstAt;
    FirstSeenInOrder(vt);
    forall i | 0 <= i < |d|
      ensures exists j: nat :: Stands(vt, j) && vt[j] == d[i]
    {
      var j := EntryStands(vt, d[i].name);
    }
    forall v | v in vt
      ensures exists i :: 0 <= i < |d| && d[i].name == v.name
    {
      var k :| 0 <= k < |vt| && vt[k] == v;
      assert Names(vt)[k] in Names(vt);
      HasWinner(vt, v.name);
      var i :| 0 <= i < |Names(d)| && Names(d)[i] == v.name;
      assert d[i].name == v.name;
    }
  }

  lemma HasWinner(vt: seq<VTable>, name: nat)
    requires name in Names(vt)
    ensures name in FirstSeen(Names(vt))
  {
    AddNewMembers([], Names(vt), name);
  }

  // ----- Merging merges

  lemma {:induction false} WinnerConcat(a: seq<VTable>, b: seq<VTable>, name: nat)
    ensures Winner(a + b, name) ==
            if Winner(b, name).None? || (Winner(a, name).Some? && Winner(a, name).value.permanent) then Winner(a, name)
            else Winner(b, name)
  {
    if b == [] {
      assert a + b == a;
    } else {
      WinnerConcat(a, b[..|b| - 1], name);
      assert (a + b)[..|a + b| - 1] == a + b[..|b| - 1];
    }
  }

  lemma {:induction false} AddNewConcat(acc: seq<nat>, a: seq<nat>, b: seq<nat>)
    ensures AddNew(acc, a + b) == AddNew(AddNew(acc, a), b)
  {
    if b == [] {
      assert a + b == a;
    } else {
      AddNewConcat(acc, a, b[..|b| - 1]);
      assert (a + b)[..|a + b| - 1] == a + b[..|b| - 1];
    }
  }

  lemma {:induction false} AddNewOnce(acc: seq<nat>, names: seq<nat>)
    ensures AddNew(acc, FirstSeen(names)) == AddNew(acc, names)
  {
    if names != [] {
      var before, n := names[..|names| - 1], names[|names| - 1];
      AddNewOnce(acc, before);
      AddNewMembers(acc, before, n);
      AddNewMembers([], before, n);
      if n !in FirstSeen(before) {
        assert (FirstSeen(before) + [n])[..|FirstSeen(before)|] == FirstSeen(before);
      }
    }
  }

  lemma {:induction false} NamesConcat(a: seq<VTable>, b: seq<VTable>)
    ensures Names(a + b) == Names(a) + Names(b)
  {
  }

  /** A merged list stands for what the list it merges stands for. */
  lemma WinnerOfMerged(d: seq<VTable>, vt: seq<VTable>, name: nat)
    requires Merges(d, vt)
    ensures Winner(d, name) == Winner(vt, name)
  {
    if name in Names(d) {
      var i :| 0 <= i < |d| && Names(d)[i] == name;
      assert Stands(d, i);
      WinnerStands(d, i);
    } else {
      WinnerFrom(d, name);
      WinnerFrom(vt, name);
      AddNewMembers([], Names(vt), name);
    }
  }

  /** `vt_distinct` may be applied at every level and again at the top: merging the merged parts merges the whole. */
  lemma DistinctIsMerge(a: seq<VTable>, b: seq<VTable>)
    ensures Distinct(a + b) == Distinct(Distinct(a) + Distinct(b))
  {
    var da, db := Distinct(a), Distinct(b);
    DistinctMerges(a);
    DistinctMerges(b);
    DistinctMerges(a + b);
    DistinctMerges(da + db);
    forall name
      ensures Winner(da + db, name) == Winner(a + b, name)
    {
      WinnerConcat(a, b, name);
      WinnerConcat(da, db, name);
      WinnerOfMerged(da, a, name);
      WinnerOfMerged(db, b, name);
    }
    NamesConcat(a, b);
    NamesConcat(da, db);
    AddNewConcat([], Names(a), Names(b));
    AddNewConcat([], Names(da), Names(db));
    AddNewOnce([], Names(a));
    AddNewOnce(FirstSeen(Names(a)), Names(b));
    MergesUniquely(Distinct(da + db), Distinct(a + b), a + b);
  }

  // ----- The loop

  function Keyed(d: seq<VTable>): (items: seq<(nat, VTable)>)
    ensures |items| == |d|
    ensures forall i :: 0 <= i < |d| ==> items[i] == (d[i].name, d[i])
  {
    if d == [] then [] else [(d[0].name, d[0])] + Keyed(d[1..])
  }

  /** Setting the entry under its name is merging it, unless a permanent one stands there. */
  lemma SetIsMerge(d: seq<VTable>, v: VTable)
    requires OnePerName(d)
    ensures var items := Keyed(d);
            && (HasKey(items, v.name) <==> v.name in Names(d))
            && (HasKey(items, v.name) ==>
                  && Lookup(items, v.name).Some? && Lookup(items, v.name).value in d
                  && Lookup(items, v.name).value.name == v.name)
            && Keyed(Merge(d, v)) ==
               if HasKey(items, v.name) && Lookup(items, v.name).value.permanent then items else Set(items, v.name, v)
  {
    hide Set, Lookup, Merge, Names, Keyed, HasKey;
    var items := Keyed(d);
    SetPlaces(items, v.name, v);
    if v.name in Names(d) {
      var i :| 0 <= i < |d| && Names(d)[i] == v.name;
      assert items[i].0 == v.name;
      KeyPresent(items, i);
      LookupAt(items, i);
      MergeOld(d, i, v);
      KeyedOverwritten(d, i, v);
    } else {
      forall i | 0 <= i < |d|
        ensures d[i].name != v.name
      {
        assert Names(d)[i] != v.name;
      }
      KeyAbsent(items, v.name);
      MergeNew(d, v);
      KeyedExtended(d, v);
    }
  }

  lemma KeyPresent(items: seq<(nat, VTable)>, i: nat)
    requires i < |items|
    ensures HasKey(items, items[i].0)
  {
  }

  lemma KeyAbsent(items: seq<(nat, VTable)>, key: nat)
    requires forall i :: 0 <= i < |items| ==> items[i].0 != key
    ensures !HasKey(items, key)
  {
  }

  lemma KeyedOverwritten(d: seq<VTable>, i: nat, v: VTable)
    requires i < |d| && d[i].name == v.name
    ensures Keyed(d[i := v]) == Keyed(d)[i := (v.name, v)]
  {
  }

  lemma KeyedExtended(d: seq<VTable>, v: VTable)
    ensures Keyed(d + [v]) == Keyed(d) + [(v.name, v)]
  {
  }

  lemma DistinctPrefix(vt: seq<VTable>, i: nat)
    requires i < |vt|
    ensures Distinct(vt[..i + 1]) == Merge(Distinct(vt[..i]), vt[i])
    ensures OnePerName(Distinct(vt[..i]))
  {
    assert vt[..i + 1][..i] == vt[..i];
    DistinctMerges(vt[..i]);
  }

  lemma DistinctOfNone(vt: seq<VTable>)
    ensures Keyed(Distinct(vt[..0])) == []
  {
  }

  method VtDistinct(vt: seq<VTable>) returns (out: seq<VTable>)
    ensures out == Distinct(vt)
    ensures EntryPerName(out, vt)
  {
    hide *;
    DistinctOfNone(vt);
    DistinctMerges(vt);
    MergesKeeps(Distinct(vt), vt);
    var vtOut := new OrderedDict<nat, VTable>();
    for i := 0 to |vt|
      invariant vtOut.Valid() && fresh(vtOut.Repr)
      invariant vtOut.Items() == Keyed(Distinct(vt[..i]))
    {
      var v := vt[i];
      DistinctPrefix(vt, i);
      SetIsMerge(Distinct(vt[..i]), v);
      var seen := vtOut.Contains(v.name);
      if !seen {
        vtOut.SetItem(v.name, v);
      } else {
        var kept := vtOut.GetItem(v.name);
        if !kept.value.permanent {
          vtOut.SetItem(v.name, v);
        }
      }
    }
    assert vt[..|vt|] == vt;
    var items := vtOut.ItemList();
    out := [];
    for i := 0 to |items|
      invariant |out| == i && out == Distinct(vt)[..i]
    {
      out := out + [items[i].1];
    }
  }
}
