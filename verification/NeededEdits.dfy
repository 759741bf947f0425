/**
 The textbook distance with unrestricted transpositions is the number of moves needed; so the
 Damerau distance of the code is that number exactly where it agrees with the textbook's.
 */
module NeededEdits {
  import opened Wrappers
  import opened Naturals
  import opened EditDistance
  import opened CrossingEdits

  /** The last place of `x` among the first `n` elements, counted from 1; 0 if it is not among them. */
  function Last<T(==)>(s: seq<T>, n: nat, x: T): (k: nat)
    requires n <= |s|
    ensures k <= n && (k > 0 ==> s[k - 1] == x)
    ensures forall m :: k <= m < n ==> s[m] != x
  {
    if n == 0 then 0 else if s[n - 1] == x then n else Last(s, n - 1, x)
  }

  function Best(deleted: nat, inserted: nat, changed: nat, crossed: Option<nat>): nat {
    var m := Min(Min(deleted, inserted), changed);
    if crossed.Some? then Min(m, crossed.value) else m
  }

  /** For two prefixes, where a pair may cross over all that stands between its last places. */
  function Needed<T(==)>(a: seq<T>, b: seq<T>, i: nat, j: nat): nat
    requires i <= |a| && j <= |b|
    decreases i + j
  {
    if i == 0 then j
    else if j == 0 then i
    else
      var k, l := Last(a, i - 1, b[j - 1]), Last(b, j - 1, a[i - 1]);
      Best(Needed(a, b, i - 1, j) + 1,
           Needed(a, b, i, j - 1) + 1,
           Needed(a, b, i - 1, j - 1) + Differ(a[i - 1], b[j - 1]),
           if k > 0 && l > 0 then Some(Needed(a, b, k - 1, l - 1) + (i - 1 - k) + 1 + (j - 1 - l)) else None)
  }

  lemma BestIsLeast()
    ensures forall p: nat, q: nat, r: nat, crossed: Option<nat> :: Best(p, q, r, crossed) <= p
              && Best(p, q, r, crossed) <= q && Best(p, q, r, crossed) <= r
              && (crossed.Some? ==> Best(p, q, r, crossed) <= crossed.value)
  {
  }

  lemma NeededIs<T>(a: seq<T>, b: seq<T>, i: nat, j: nat)
    requires i <= |a| && j <= |b|
    ensures i == 0 ==> Needed(a, b, i, j) == j
    ensures j == 0 ==> Needed(a, b, i, j) == i
    ensures i > 0 && j > 0 ==>
              var k, l := Last(a, i - 1, b[j - 1]), Last(b, j - 1, a[i - 1]);
              Needed(a, b, i, j) ==
                Best(Needed(a, b, i - 1, j) + 1, Needed(a, b, i, j - 1) + 1,
                     Needed(a, b, i - 1, j - 1) + Differ(a[i - 1], b[j - 1]),
                     if k > 0 && l > 0 then Some(Needed(a, b, k - 1, l - 1) + (i - 1 - k) + 1 + (j - 1 - l)) else None)
  {
    hide Last, Best, Differ;
  }

  // ----- A crossing script that costs no more

  lemma Extend<T(!new)>(a: seq<T>, b: seq<T>, i: nat, j: nat, c: int, p: Piece<T>, i': nat, j': nat)
    requires i <= i' <= |a| && j <= j' <= |b| && Affords(a[..i], b[..j], c)
    requires Before(p) == a[i..i'] && After(p) == b[j..j']
    ensures Affords(a[..i'], b[..j'], c + Price(p))
  {
    hide *;
    One(p);
    Join(a[..i], b[..j], c, Before(p), After(p), Price(p));
    assert a[..i] + a[i..i'] == a[..i'] && b[..j] + b[j..j'] == b[..j'];
  }

  lemma HowNeeded<T>(a: seq<T>, b: seq<T>, i: nat, j: nat)
    requires i <= |a| && j <= |b|
    ensures i == 0 ==> Needed(a, b, i, j) == j
    ensures j == 0 ==> Needed(a, b, i, j) == i
    ensures i > 0 && j > 0 ==>
              || Needed(a, b, i, j) == Needed(a, b, i, j - 1) + 1
              || Needed(a, b, i, j) == Needed(a, b, i - 1, j) + 1
              || Needed(a, b, i, j) == Needed(a, b, i - 1, j - 1) + Differ(a[i - 1], b[j - 1])
              || var k, l := Last(a, i - 1, b[j - 1]), Last(b, j - 1, a[i - 1]);
                 k > 0 && l > 0 && Needed(a, b, i, j) == Needed(a, b, k - 1, l - 1) + (i - 1 - k) + 1 + (j - 1 - l)
  {
    hide Needed, Last, Differ;
    NeededIs(a, b, i, j);
  }

  lemma CrossingAt<T>(a: seq<T>, b: seq<T>, k: nat, l: nat, i: nat, j: nat)
    requires k + 1 < i <= |a| && l + 1 < j <= |b| && a[k] == b[j - 1] && b[l] == a[i - 1]
    ensures var p := Crossed(a[k], a[k + 1..i - 1], a[i - 1], b[l + 1..j - 1]);
            Before(p) == a[k..i] && After(p) == b[l..j] && Price(p) == (i - k - 2) + (j - l - 2) + 1
  {
    Ends(a, k, i);
    Ends(b, l, j);
  }

  lemma Ends<T>(s: seq<T>, k: nat, i: nat)
    requires k + 1 < i <= |s|
    ensures [s[k]] + s[k + 1..i - 1] + [s[i - 1]] == s[k..i]
  {
  }

  lemma AddedAt<T(!new)>(a: seq<T>, b: seq<T>, i: nat, j: nat, c: int)
    requires i <= |a| && j < |b| && Affords(a[..i], b[..j], c)
    ensures Affords(a[..i], b[..j + 1], c + 1)
  {
    hide Affords;
    Extend(a, b, i, j, c, Added(b[j]), i, j + 1);
  }

  lemma RemovedAt<T(!new)>(a: seq<T>, b: seq<T>, i: nat, j: nat, c: int)
    requires i < |a| && j <= |b| && Affords(a[..i], b[..j], c)
    ensures Affords(a[..i + 1], b[..j], c + 1)
  {
    hide Affords;
    Extend(a, b, i, j, c, Removed(a[i]), i + 1, j);
  }

  lemma ChangedAt<T(!new)>(a: seq<T>, b: seq<T>, i: nat, j: nat, c: int)
    requires i < |a| && j < |b| && Affords(a[..i], b[..j], c)
    ensures Affords(a[..i + 1], b[..j + 1], c + Differ(a[i], b[j]))
  {
    hide Affords;
    Extend(a, b, i, j, c, if a[i] == b[j] then Kept(a[i]) else Changed(a[i], b[j]), i + 1, j + 1);
  }

  lemma CrossedAt<T(!new)>(a: seq<T>, b: seq<T>, k: nat, l: nat, i: nat, j: nat, c: int)
    requires k + 1 < i <= |a| && l + 1 < j <= |b| && a[k] == b[j - 1] && b[l] == a[i - 1]
    requires Affords(a[..k], b[..l], c)
    ensures Affords(a[..i], b[..j], c + (i - k - 2) + 1 + (j - l - 2))
  {
    hide *;
    CrossingAt(a, b, k, l, i, j);
    Extend(a, b, k, l, c, Crossed(a[k], a[k + 1..i - 1], a[i - 1], b[l + 1..j - 1]), i, j);
  }

  lemma {:induction false} NeededAffords<T(!new)>(a: seq<T>, b: seq<T>, i: nat, j: nat)
    requires i <= |a| && j <= |b|
    ensures Affords(a[..i], b[..j], Needed(a, b, i, j))
    decreases i + j
  {
    hide *;
    HowNeeded(a, b, i, j);
    if i == 0 && j == 0 {
      Nothing<T>();
      assert a[..0] == [] && b[..0] == [];
    } else if i == 0 {
      HowNeeded(a, b, 0, j - 1);
      NeededAffords(a, b, i, j - 1);
      AddedAt(a, b, i, j - 1, Needed(a, b, i, j - 1));
    } else if j == 0 {
      HowNeeded(a, b, i - 1, 0);
      NeededAffords(a, b, i - 1, j);
      RemovedAt(a, b, i - 1, j, Needed(a, b, i - 1, j));
    } else if Needed(a, b, i, j) == Needed(a, b, i, j - 1) + 1 {
      NeededAffords(a, b, i, j - 1);
      AddedAt(a, b, i, j - 1, Needed(a, b, i, j - 1));
    } else if Needed(a, b, i, j) == Needed(a, b, i - 1, j) + 1 {
      NeededAffords(a, b, i - 1, j);
      RemovedAt(a, b, i - 1, j, Needed(a, b, i - 1, j));
    } else if Needed(a, b, i, j) == Needed(a, b, i - 1, j - 1) + Differ(a[i - 1], b[j - 1]) {
      NeededAffords(a, b, i - 1, j - 1);
      ChangedAt(a, b, i - 1, j - 1, Needed(a, b, i - 1, j - 1));
    } else {
      var k, l := Last(a, i - 1, b[j - 1]), Last(b, j - 1, a[i - 1]);
      NeededAffords(a, b, k - 1, l - 1);
      CrossedAt(a, b, k - 1, l - 1, i, j, Needed(a, b, k - 1, l - 1));
    }
  }

  // ----- No crossing script costs less

  lemma OneStep<T>(a: seq<T>, b: seq<T>, i: nat, j: nat)
    requires i <= |a| && j <= |b|
    ensures i > 0 ==> Needed(a, b, i, j) <= Needed(a, b, i - 1, j) + 1
    ensures j > 0 ==> Needed(a, b, i, j) <= Needed(a, b, i, j - 1) + 1
    ensures i > 0 && j > 0 ==> Needed(a, b, i, j) <= Needed(a, b, i - 1, j - 1) + Differ(a[i - 1], b[j - 1])
    ensures i > 0 && j > 0 ==>
              var k, l := Last(a, i - 1, b[j - 1]), Last(b, j - 1, a[i - 1]);
              k > 0 && l > 0 ==> Needed(a, b, i, j) <= Needed(a, b, k - 1, l - 1) + (i - 1 - k) + 1 + (j - 1 - l)
  {
    hide Needed, Last, Differ, Best;
    BestIsLeast();
    NeededIs(a, b, i, j);
    if i > 0 {
      NeededIs(a, b, i - 1, j);
    }
    if j > 0 {
      NeededIs(a, b, i, j - 1);
    }
  }

  lemma {:induction false} GrowsSlowly<T>(a: seq<T>, b: seq<T>, i: nat, j: nat, i': nat, j': nat)
    requires i <= i' <= |a| && j <= j' <= |b|
    ensures Needed(a, b, i', j') <= Needed(a, b, i, j) + (i' - i) + (j' - j)
    decreases i' + j'
  {
    hide Needed;
    OneStep(a, b, i', j');
    if i < i' {
      GrowsSlowly(a, b, i, j, i' - 1, j');
    } else if j < j' {
      GrowsSlowly(a, b, i, j, i', j' - 1);
    }
  }

  /** Crossing any pair costs at least what crossing from its last places does. */
  lemma CrossStep<T>(a: seq<T>, b: seq<T>, k: nat, l: nat, i: nat, j: nat)
    requires k + 1 < i <= |a| && l + 1 < j <= |b| && a[k] == b[j - 1] && b[l] == a[i - 1]
    ensures Needed(a, b, i, j) <= Needed(a, b, k, l) + (i - k - 2) + 1 + (j - l - 2)
  {
    hide Needed, Last;
    OneStep(a, b, i, j);
    var k', l' := Last(a, i - 1, b[j - 1]), Last(b, j - 1, a[i - 1]);
    assert k' > k && l' > l;
    GrowsSlowly(a, b, k, l, k' - 1, l' - 1);
  }

  lemma PieceStep<T(!new)>(a: seq<T>, b: seq<T>, i: nat, j: nat, p: Piece<T>, i': nat, j': nat)
    requires i <= i' <= |a| && j <= j' <= |b|
    requires Before(p) == a[i..i'] && After(p) == b[j..j']
    ensures Needed(a, b, i', j') <= Needed(a, b, i, j) + Price(p)
  {
    hide Needed;
    OneStep(a, b, i', j');
    if p.Crossed? {
      assert Before(p)[0] == a[i] && Before(p)[|p.u| + 1] == a[i' - 1];
      assert After(p)[0] == b[j] && After(p)[|p.v| + 1] == b[j' - 1];
      CrossStep(a, b, i, j, i', j');
    } else {
      assert p.Kept? || p.Changed? ==> Before(p)[0] == a[i] && After(p)[0] == b[j];
    }
  }

  lemma {:induction false} NeededIsCheapest<T(!new)>(a: seq<T>, b: seq<T>, s: seq<Piece<T>>, i: nat, j: nat)
    requires i <= |a| && j <= |b| && AllBefore(s) == a[..i] && AllAfter(s) == b[..j]
    ensures Needed(a, b, i, j) <= TotalPrice(s)
    decreases |s|
  {
    hide *;
    NoPieces<T>();
    if s == [] {
      NothingNeeded(a, b);
    } else {
      var rest, p := s[..|s| - 1], s[|s| - 1];
      assert s == rest + [p] && [p] == [p] + [];
      PiecesConcat(rest, [p]);
      FirstPiece(p, []);
      var i', j' := |AllBefore(rest)|, |AllAfter(rest)|;
      assert a[..i][..i'] == a[..i'] == AllBefore(rest) && a[..i][i'..] == a[i'..i] == Before(p);
      assert b[..j][..j'] == b[..j'] == AllAfter(rest) && b[..j][j'..] == b[j'..j] == After(p);
      NeededIsCheapest(a, b, rest, i', j');
      PieceStep(a, b, i', j', p, i, j);
    }
  }

  lemma NothingNeeded<T>(a: seq<T>, b: seq<T>)
    ensures Needed(a, b, 0, 0) == 0
  {
  }

  // ----- The number of moves

  /** The textbook distance is the least number of moves that lead from one sequence to the other. */
  lemma NeededIsLeast<T(!new)>(a: seq<T>, b: seq<T>)
    ensures forall c: int :: Reaches(a, b, c) <==> Needed(a, b, |a|, |b|) <= c
  {
    hide *;
    var n := Needed(a, b, |a|, |b|);
    NeededAffords(a, b, |a|, |b|);
    assert a[..|a|] == a && b[..|b|] == b;
    forall c: int
      ensures Reaches(a, b, c) <==> n <= c
    {
      NeededIsLeastPrice(a, b, c);
      if n <= c {
        Cheaper(a, b, n, c);
      }
      if Affords(a, b, c) {
        var s := ScriptFor(a, b, c);
        NeededIsCheapest(a, b, s, |a|, |b|);
      }
    }
  }

  /** No moves are fewer than the Damerau distance says if and only if it is the textbook distance. */
  lemma DamerauIsNeededIff<T(!new)>(a: seq<T>, b: seq<T>)
    ensures Needed(a, b, |a|, |b|) <= Distance(true, a, b)
    ensures (forall moves: seq<Move<T>> :: Leads(true, moves, a, b) ==> Distance(true, a, b) <= |moves|)
            <==> Distance(true, a, b) == Needed(a, b, |a|, |b|)
    ensures !Straddles(a, b) && !Straddles(b, a) ==> Distance(true, a, b) == Needed(a, b, |a|, |b|)
  {
    hide *;
    var n, d := Needed(a, b, |a|, |b|), Distance(true, a, b);
    NeededIsLeast(a, b);
    DamerauReaches(a, b);
    assert Reaches(a, b, d);
    var least := MovesFor(a, b, n);
    forall moves: seq<Move<T>> | Leads(true, moves, a, b)
      ensures n <= |moves|
    {
      ReachesBy(moves, a, b, |moves|);
    }
    if !Straddles(a, b) && !Straddles(b, a) {
      DamerauIsNeeded(a, b);
    }
  }
}
