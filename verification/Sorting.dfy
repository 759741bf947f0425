/**
 Python's `sorted` with a key: a stable sort under a total preorder.  The order is a
 comparison function, so that the same sort serves rows compared on one column and
 networks compared on a pair.
 */
module Sorting {

  ghost predicate TotalPreorder<T(!new)>(le: (T, T) -> bool) {
    && (forall x, y :: le(x, y) || le(y, x))
    && (forall x, y, z :: le(x, y) && le(y, z) ==> le(x, z))
  }

  ghost predicate SortedBy<T>(le: (T, T) -> bool, s: seq<T>) {
    forall i, j :: 0 <= i < j < |s| ==> le(s[i], s[j])
  }

  /** Puts `x` before the first element it does not exceed, so equal elements keep their order. */
  function Insert<T>(le: (T, T) -> bool, x: T, s: seq<T>): (r: seq<T>)
    ensures |r| == |s| + 1
  {
    if s == [] || le(x, s[0]) then [x] + s else [s[0]] + Insert(le, x, s[1..])
  }

  function Sort<T>(le: (T, T) -> bool, s: seq<T>): (r: seq<T>)
    ensures |r| == |s|
  {
    if s == [] then [] else Insert(le, s[0], Sort(le, s[1..]))
  }

  lemma {:induction false} InsertAdds<T>(le: (T, T) -> bool, x: T, s: seq<T>)
    ensures multiset(Insert(le, x, s)) == multiset(s) + multiset{x}
  {
    if s == [] || le(x, s[0]) {
    } else {
      InsertAdds(le, x, s[1..]);
      assert s == [s[0]] + s[1..];
    }
  }

  /** A sort rearranges its input. */
  lemma {:induction false} SortPermutes<T>(le: (T, T) -> bool, s: seq<T>)
    ensures multiset(Sort(le, s)) == multiset(s)
  {
    if s == [] {
    } else {
      SortPermutes(le, s[1..]);
      InsertAdds(le, s[0], Sort(le, s[1..]));
      assert s == [s[0]] + s[1..];
    }
  }

  lemma {:induction false} InsertKeepsSorted<T(!new)>(le: (T, T) -> bool, x: T, s: seq<T>)
    requires TotalPreorder(le) && SortedBy(le, s)
    ensures SortedBy(le, Insert(le, x, s))
  {
    if s == [] || le(x, s[0]) {
    } else {
      InsertKeepsSorted(le, x, s[1..]);
      InsertAdds(le, x, s[1..]);
      var r := Insert(le, x, s[1..]);
      forall y | y in r
        ensures le(s[0], y)
      {
        assert y in multiset(r);
        assert y == x || y in s[1..];
      }
    }
  }

  lemma {:induction false} SortIsSorted<T(!new)>(le: (T, T) -> bool, s: seq<T>)
    requires TotalPreorder(le)
    ensures SortedBy(le, Sort(le, s))
  {
    if s != [] {
      SortIsSorted(le, s[1..]);
      InsertKeepsSorted(le, s[0], Sort(le, s[1..]));
    }
  }

  lemma SortKeepsElements<T>(le: (T, T) -> bool, s: seq<T>)
    ensures forall x :: x in Sort(le, s) <==> x in s
  {
    SortPermutes(le, s);
    forall x
      ensures x in Sort(le, s) <==> x in s
    {
      assert x in Sort(le, s) <==> x in multiset(Sort(le, s));
      assert x in s <==> x in multiset(s);
    }
  }

  ghost predicate NoRepeats<T>(s: seq<T>) {
    forall i, j :: 0 <= i < j < |s| ==> s[i] != s[j]
  }

  lemma {:induction false} NoRepeatsCount<T(!new)>(s: seq<T>)
    ensures NoRepeats(s) <==> forall x :: multiset(s)[x] <= 1
  {
    if s != [] {
      var rest := s[..|s| - 1];
      var last := s[|s| - 1];
      NoRepeatsCount(rest);
      assert s == rest + [last];
      assert multiset(rest)[last] > 0 <==> last in rest;
      if NoRepeats(s) {
        assert forall i, j :: 0 <= i < j < |rest| ==> s[i] != s[j];
      }
      if forall x :: multiset(s)[x] <= 1 {
        forall x
          ensures multiset(rest)[x] <= 1
        {
          assert multiset(s)[x] <= 1;
        }
        assert multiset(s)[last] == multiset(rest)[last] + 1;
      }
    }
  }

  /** Sorting repeats nothing that was not repeated. */
  lemma SortKeepsDistinct<T(!new)>(le: (T, T) -> bool, s: seq<T>)
    ensures NoRepeats(Sort(le, s)) <==> NoRepeats(s)
  {
    SortPermutes(le, s);
    NoRepeatsCount(s);
    NoRepeatsCount(Sort(le, s));
  }

  /** Leaves one of each run of equal elements. */
  function Dedup<T(==)>(s: seq<T>): seq<T> {
    if |s| <= 1 then s else if s[0] == s[1] then Dedup(s[1..]) else [s[0]] + Dedup(s[1..])
  }

  lemma {:induction false} DedupKeepsElements<T>(s: seq<T>)
    ensures forall x :: x in Dedup(s) <==> x in s
    ensures s != [] ==> Dedup(s) != [] && Dedup(s)[0] == s[0]
  {
    if |s| > 1 {
      DedupKeepsElements(s[1..]);
      assert s == [s[0]] + s[1..];
      assert s[1] in s[1..];
    }
  }

  /** `sorted(set(s))` */
  function SortedSet<T(==)>(le: (T, T) -> bool, s: seq<T>): seq<T> {
    Dedup(Sort(le, s))
  }

  lemma SortedSetElements<T>(le: (T, T) -> bool, s: seq<T>)
    ensures forall x :: x in SortedSet(le, s) <==> x in s
  {
    SortKeepsElements(le, s);
    DedupKeepsElements(Sort(le, s));
  }

  lemma {:induction false} DedupKeepsSorted<T(!new)>(le: (T, T) -> bool, s: seq<T>)
    requires SortedBy(le, s)
    ensures SortedBy(le, Dedup(s))
    ensures forall i :: 0 <= i < |Dedup(s)| - 1 ==> Dedup(s)[i] != Dedup(s)[i + 1]
  {
    if |s| > 1 {
      DedupKeepsSorted(le, s[1..]);
      DedupKeepsElements(s[1..]);
      forall x | x in Dedup(s[1..])
        ensures le(s[0], x)
      {
        assert x in s[1..];
      }
    }
  }

  lemma SortedSetIsSorted<T(!new)>(le: (T, T) -> bool, s: seq<T>)
    requires TotalPreorder(le)
    ensures SortedBy(le, SortedSet(le, s))
    ensures forall i :: 0 <= i < |SortedSet(le, s)| - 1 ==> SortedSet(le, s)[i] != SortedSet(le, s)[i + 1]
  {
    SortIsSorted(le, s);
    DedupKeepsSorted(le, Sort(le, s));
  }

  function Filter<T(!new)>(p: T -> bool, s: seq<T>): (r: seq<T>)
    ensures forall x :: x in r <==> x in s && p(x)
  {
    if s == [] then [] else (if p(s[0]) then [s[0]] else []) + Filter(p, s[1..])
  }

  lemma FilterCons<T(!new)>(p: T -> bool, x: T, s: seq<T>)
    ensures Filter(p, [x] + s) == (if p(x) then [x] else []) + Filter(p, s)
  {
    assert ([x] + s)[1..] == s;
  }

  lemma {:induction false} FilterAppends<T(!new)>(p: T -> bool, a: seq<T>, b: seq<T>)
    ensures Filter(p, a + b) == Filter(p, a) + Filter(p, b)
  {
    if a == [] {
      assert a + b == b;
    } else {
      assert (a + b)[1..] == a[1..] + b;
      FilterAppends(p, a[1..], b);
    }
  }

  lemma {:induction false} FilterKeepsSorted<T(!new)>(p: T -> bool, le: (T, T) -> bool, s: seq<T>)
    requires SortedBy(le, s)
    ensures SortedBy(le, Filter(p, s))
  {
    if s != [] {
      FilterKeepsSorted(p, le, s[1..]);
      forall x | x in Filter(p, s[1..])
        ensures le(s[0], x)
      {
        assert x in s[1..];
      }
    }
  }

  /** The first of the chosen elements comes no later than any of them. */
  lemma {:induction false} FilterFirst<T(!new)>(p: T -> bool, s: seq<T>, j: nat) returns (m: nat)
    requires j < |s| && p(s[j])
    ensures m <= j && Filter(p, s) != [] && Filter(p, s)[0] == s[m]
  {
    if p(s[0]) {
      m := 0;
    } else {
      m := FilterFirst(p, s[1..], j - 1);
      m := m + 1;
    }
  }

  lemma {:induction false} InsertIsStable<T(!new)>(le: (T, T) -> bool, p: T -> bool, x: T, s: seq<T>)
    requires forall y, z :: p(y) && p(z) ==> le(y, z)
    ensures Filter(p, Insert(le, x, s)) == Filter(p, [x] + s)
  {
    hide Filter;
    if s == [] || le(x, s[0]) {
    } else {
      InsertIsStable(le, p, x, s[1..]);
      assert [s[0]] + s[1..] == s;
      FilterCons(p, x, s);
      FilterCons(p, x, s[1..]);
      FilterCons(p, s[0], s[1..]);
      FilterCons(p, s[0], Insert(le, x, s[1..]));
    }
  }

  /** Elements that compare equal keep their order. */
  lemma {:induction false} SortIsStable<T(!new)>(le: (T, T) -> bool, p: T -> bool, s: seq<T>)
    requires forall y, z :: p(y) && p(z) ==> le(y, z)
    ensures Filter(p, Sort(le, s)) == Filter(p, s)
  {
    if s != [] {
      SortIsStable(le, p, s[1..]);
      InsertIsStable(le, p, s[0], Sort(le, s[1..]));
      assert ([s[0]] + Sort(le, s[1..]))[1..] == Sort(le, s[1..]);
    }
  }
}
