/**
 The edit distances of `stringdists.py`: dynamic programs that keep two or three rows of
 the matrix, against a definition by recursion on prefixes and against the cost of edit
 scripts.
 */
module EditDistance {
  import opened Naturals

  // ----- Scripts

  /** What an edit script does with the next elements of its two sequences. */
  datatype Edit<T> = Keep(x: T) | Substitute(x: T, y: T) | Add(y: T) | Remove(x: T) | Exchange(x: T, y: T)

  function From<T>(e: Edit<T>): seq<T> {
    match e
    case Keep(x) => [x]
    case Substitute(x, _) => [x]
    case Add(_) => []
    case Remove(x) => [x]
    case Exchange(x, y) => [x, y]
  }

  function To<T>(e: Edit<T>): seq<T> {
    match e
    case Keep(x) => [x]
    case Substitute(_, y) => [y]
    case Add(y) => [y]
    case Remove(_) => []
    case Exchange(x, y) => [y, x]
  }

  function Source<T>(script: seq<Edit<T>>): seq<T> {
    if script == [] then [] else Source(script[..|script| - 1]) + From(script[|script| - 1])
  }

  function Target<T>(script: seq<Edit<T>>): seq<T> {
    if script == [] then [] else Target(script[..|script| - 1]) + To(script[|script| - 1])
  }

  /** Keeping is free, and every edit costs one. */
  function Cost<T>(script: seq<Edit<T>>): nat {
    if script == [] then 0 else Cost(script[..|script| - 1]) + if script[|script| - 1].Keep? then 0 else 1
  }

  /** Only the distance with transpositions exchanges neighbours. */
  predicate Allowed<T>(swaps: bool, script: seq<Edit<T>>) {
    swaps || forall i :: 0 <= i < |script| ==> !script[i].Exchange?
  }

  // ----- The distance by recursion on prefixes

  function Differ<T(==)>(x: T, y: T): nat {
    if x != y then 1 else 0
  }

  /** The last two elements of one prefix are those of the other, exchanged. */
  predicate Transposed<T(==)>(a: seq<T>, b: seq<T>, i: nat, j: nat)
    requires i <= |a| && j <= |b|
  {
    i > 1 && j > 1 && a[i - 1] == b[j - 2] && a[i - 2] == b[j - 1] && a[i - 1] != b[j - 1]
  }

  /** The distance of the first `i` elements of `a` from the first `j` of `b`, with or without transpositions. */
  function Dist<T(==)>(swaps: bool, a: seq<T>, b: seq<T>, i: nat, j: nat): nat
    requires i <= |a| && j <= |b|
    decreases i + j
  {
    if i == 0 then j
    else if j == 0 then i
    else
      var m := Min(Min(Dist(swaps, a, b, i - 1, j) + 1, Dist(swaps, a, b, i, j - 1) + 1),
                   Dist(swaps, a, b, i - 1, j - 1) + Differ(a[i - 1], b[j - 1]));
      if swaps && Transposed(a, b, i, j) then Min(m, Dist(swaps, a, b, i - 2, j - 2) + 1) else m
  }

  function Distance<T(==)>(swaps: bool, a: seq<T>, b: seq<T>): nat {
    Dist(swaps, a, b, |a|, |b|)
  }

  // ----- The distance is the cost of a best script

  lemma ScriptAppend<T>(script: seq<Edit<T>>, e: Edit<T>)
    ensures Source(script + [e]) == Source(script) + From(e)
    ensures Target(script + [e]) == Target(script) + To(e)
    ensures Cost(script + [e]) == Cost(script) + if e.Keep? then 0 else 1
    ensures Allowed(true, script)
    ensures Allowed(false, script) && !e.Exchange? ==> Allowed(false, script + [e])
  {
    assert (script + [e])[..|script|] == script;
  }

  /** The prefixes end in what the edit takes and gives. */
  ghost predicate Matches<T>(a: seq<T>, b: seq<T>, i: nat, j: nat, e: Edit<T>)
    requires i <= |a| && j <= |b|
  {
    && |From(e)| <= i && a[i - |From(e)|..i] == From(e)
    && |To(e)| <= j && b[j - |To(e)|..j] == To(e)
  }

  lemma MatchesIs<T>(a: seq<T>, b: seq<T>, i: nat, j: nat, e: Edit<T>)
    requires i <= |a| && j <= |b|
    ensures Matches(a, b, i, j, e) <==>
              |From(e)| <= i && a[i - |From(e)|..i] == From(e) && |To(e)| <= j && b[j - |To(e)|..j] == To(e)
  {
  }

  lemma Ending<T>(a: seq<T>, i: nat)
    requires i <= |a|
    ensures a[i..i] == []
    ensures i > 0 ==> a[i - 1..i] == [a[i - 1]]
    ensures i > 1 ==> a[i - 2..i] == [a[i - 2], a[i - 1]]
  {
  }

  lemma MatchingEdits<T>(a: seq<T>, b: seq<T>, i: nat, j: nat)
    requires i <= |a| && j <= |b|
    ensures i > 0 ==> Matches(a, b, i, j, Remove(a[i - 1]))
    ensures j > 0 ==> Matches(a, b, i, j, Add(b[j - 1]))
    ensures i > 0 && j > 0 ==> Matches(a, b, i, j, Substitute(a[i - 1], b[j - 1]))
    ensures i > 0 && j > 0 && a[i - 1] == b[j - 1] ==> Matches(a, b, i, j, Keep(a[i - 1]))
    ensures Transposed(a, b, i, j) ==> Matches(a, b, i, j, Exchange(a[i - 2], a[i - 1]))
  {
    hide *;
    if i > 0 {
      MatchesOne(a, b, i, j, Remove(a[i - 1]));
    }
    if j > 0 {
      MatchesOne(a, b, i, j, Add(b[j - 1]));
    }
    if i > 0 && j > 0 {
      MatchesOne(a, b, i, j, Substitute(a[i - 1], b[j - 1]));
      MatchesOne(a, b, i, j, Keep(a[i - 1]));
      MatchesTwo(a, b, i, j);
    }
    TransposedIs(a, b, i, j);
  }

  lemma TransposedIs<T>(a: seq<T>, b: seq<T>, i: nat, j: nat)
    requires i <= |a| && j <= |b|
    ensures Transposed(a, b, i, j) ==> i > 1 && j > 1
  {
  }

  lemma MatchesOne<T>(a: seq<T>, b: seq<T>, i: nat, j: nat, e: Edit<T>)
    requires i <= |a| && j <= |b| && !e.Exchange?
    ensures i > 0 && e == Remove(a[i - 1]) ==> Matches(a, b, i, j, e)
    ensures j > 0 && e == Add(b[j - 1]) ==> Matches(a, b, i, j, e)
    ensures i > 0 && j > 0 && e == Substitute(a[i - 1], b[j - 1]) ==> Matches(a, b, i, j, e)
    ensures i > 0 && j > 0 && a[i - 1] == b[j - 1] && e == Keep(a[i - 1]) ==> Matches(a, b, i, j, e)
  {
    hide Matches;
    Ending(a, i);
    Ending(b, j);
    if e.Remove? {
      if i > 0 && e.x == a[i - 1] {
        MatchesBy(a, b, i, j, e, i - 1, j);
      }
    } else if e.Add? {
      if j > 0 && e.y == b[j - 1] {
        MatchesBy(a, b, i, j, e, i, j - 1);
      }
    } else if i > 0 && j > 0 {
      if From(e) == [a[i - 1]] && To(e) == [b[j - 1]] {
        MatchesBy(a, b, i, j, e, i - 1, j - 1);
      }
    }
  }

  lemma MatchesBy<T>(a: seq<T>, b: seq<T>, i: nat, j: nat, e: Edit<T>, k: nat, l: nat)
    requires k <= i <= |a| && l <= j <= |b| && From(e) == a[k..i] && To(e) == b[l..j]
    ensures Matches(a, b, i, j, e)
  {
    hide From, To;
    assert |From(e)| == i - k && |To(e)| == j - l;
  }

  lemma MatchesTwo<T>(a: seq<T>, b: seq<T>, i: nat, j: nat)
    requires i <= |a| && j <= |b|
    ensures Transposed(a, b, i, j) ==> Matches(a, b, i, j, Exchange(a[i - 2], a[i - 1]))
  {
    hide Matches;
    Ending(a, i);
    Ending(b, j);
    if Transposed(a, b, i, j) {
      MatchesIs(a, b, i, j, Exchange(a[i - 2], a[i - 1]));
    }
  }

  /** The last edit of a best script: the choice that the recursion takes. */
  lemma BestEdit<T>(swaps: bool, a: seq<T>, b: seq<T>, i: nat, j: nat) returns (e: Edit<T>)
    requires i <= |a| && j <= |b| && i + j > 0
    ensures Matches(a, b, i, j, e) && (e.Exchange? ==> swaps) && |From(e)| + |To(e)| > 0
    ensures Dist(swaps, a, b, i, j) == Dist(swaps, a, b, i - |From(e)|, j - |To(e)|) + if e.Keep? then 0 else 1
  {
    hide Dist, Matches;
    DistChoices(swaps, a, b, i, j);
    MatchingEdits(a, b, i, j);
    if i > 0 && Dist(swaps, a, b, i, j) == Dist(swaps, a, b, i - 1, j) + 1 {
      e := Remove(a[i - 1]);
    } else if j > 0 && Dist(swaps, a, b, i, j) == Dist(swaps, a, b, i, j - 1) + 1 {
      e := Add(b[j - 1]);
    } else if Dist(swaps, a, b, i, j) == Dist(swaps, a, b, i - 1, j - 1) + Differ(a[i - 1], b[j - 1]) {
      e := if a[i - 1] != b[j - 1] then Substitute(a[i - 1], b[j - 1]) else Keep(a[i - 1]);
    } else {
      e := Exchange(a[i - 2], a[i - 1]);
    }
  }

  /** The recursion takes one of its choices. */
  lemma DistChoices<T>(swaps: bool, a: seq<T>, b: seq<T>, i: nat, j: nat)
    requires i <= |a| && j <= |b|
    ensures i == 0 ==> Dist(swaps, a, b, i, j) == j
    ensures j == 0 ==> Dist(swaps, a, b, i, j) == i
    ensures j == 0 && i > 0 ==> Dist(swaps, a, b, i, j) == Dist(swaps, a, b, i - 1, j) + 1
    ensures i == 0 && j > 0 ==> Dist(swaps, a, b, i, j) == Dist(swaps, a, b, i, j - 1) + 1
    ensures i > 0 && j > 0 ==>
              || Dist(swaps, a, b, i, j) == Dist(swaps, a, b, i - 1, j) + 1
              || Dist(swaps, a, b, i, j) == Dist(swaps, a, b, i, j - 1) + 1
              || Dist(swaps, a, b, i, j) == Dist(swaps, a, b, i - 1, j - 1) + Differ(a[i - 1], b[j - 1])
              || (swaps && Transposed(a, b, i, j) && Dist(swaps, a, b, i, j) == Dist(swaps, a, b, i - 2, j - 2) + 1)
  {
  }

  /** A script that costs as little as the distance says. */
  lemma {:induction false} BestScript<T>(swaps: bool, a: seq<T>, b: seq<T>, i: nat, j: nat)
    returns (script: seq<Edit<T>>)
    requires i <= |a| && j <= |b|
    ensures Source(script) == a[..i] && Target(script) == b[..j] && Allowed(swaps, script)
    ensures Cost(script) == Dist(swaps, a, b, i, j)
    decreases i + j
  {
    hide *;
    if i + j == 0 {
      script := NoScript(swaps, a, b);
    } else {
      var e := BestEdit(swaps, a, b, i, j);
      MatchesIs(a, b, i, j, e);
      var k, l := i - |From(e)|, j - |To(e)|;
      script := BestScript(swaps, a, b, k, l);
      script := Extend(swaps, script, e);
      assert a[..i] == a[..k] + a[k..i];
      assert b[..j] == b[..l] + b[l..j];
    }
  }

  lemma NoScript<T>(swaps: bool, a: seq<T>, b: seq<T>) returns (script: seq<Edit<T>>)
    ensures Source(script) == a[..0] && Target(script) == b[..0] && Allowed(swaps, script)
    ensures Cost(script) == Dist(swaps, a, b, 0, 0)
  {
    script := [];
  }

  lemma Extend<T>(swaps: bool, script: seq<Edit<T>>, e: Edit<T>) returns (longer: seq<Edit<T>>)
    requires Allowed(swaps, script) && (e.Exchange? ==> swaps)
    ensures Source(longer) == Source(script) + From(e) && Target(longer) == Target(script) + To(e)
    ensures Cost(longer) == Cost(script) + (if e.Keep? then 0 else 1) && Allowed(swaps, longer)
  {
    longer := script + [e];
    ScriptAppend(script, e);
  }

  /** The recursion bounds the distance from above by each of its choices. */
  lemma DistSteps<T>(swaps: bool, a: seq<T>, b: seq<T>, i: nat, j: nat)
    requires i <= |a| && j <= |b|
    ensures i > 0 ==> Dist(swaps, a, b, i, j) <= Dist(swaps, a, b, i - 1, j) + 1
    ensures j > 0 ==> Dist(swaps, a, b, i, j) <= Dist(swaps, a, b, i, j - 1) + 1
    ensures i > 0 && j > 0 ==> Dist(swaps, a, b, i, j) <= Dist(swaps, a, b, i - 1, j - 1) + Differ(a[i - 1], b[j - 1])
    ensures swaps && Transposed(a, b, i, j) ==> Dist(swaps, a, b, i, j) <= Dist(swaps, a, b, i - 2, j - 2) + 1
  {
  }

  /** No script costs less than the distance. */
  lemma {:induction false} NoCheaperScript<T>(swaps: bool, a: seq<T>, b: seq<T>, i: nat, j: nat, script: seq<Edit<T>>)
    requires i <= |a| && j <= |b| && Source(script) == a[..i] && Target(script) == b[..j] && Allowed(swaps, script)
    ensures Dist(swaps, a, b, i, j) <= Cost(script)
    decreases |script|
  {
    hide *;
    if script == [] {
      EmptyScript(swaps, a, b, i, j, script);
    } else {
      var init, e := script[..|script| - 1], script[|script| - 1];
      var k, l := |From(e)|, |To(e)|;
      ScriptStep(script);
      AllowedStep(swaps, script);
      assert |a[..i]| == |Source(init)| + k && |b[..j]| == |Target(init)| + l;
      assert Source(init) == a[..i][..i - k] == a[..i - k];
      assert Target(init) == b[..j][..j - l] == b[..j - l];
      NoCheaperScript(swaps, a, b, i - k, j - l, init);
      Ends(a, i, init, From(e), Source(init));
      Ends(b, j, init, To(e), Target(init));
      MatchesIs(a, b, i, j, e);
      LastEdit(swaps, a, b, i, j, e);
    }
  }

  lemma EmptyScript<T>(swaps: bool, a: seq<T>, b: seq<T>, i: nat, j: nat, script: seq<Edit<T>>)
    requires i <= |a| && j <= |b| && Source(script) == a[..i] && Target(script) == b[..j] && script == []
    ensures Dist(swaps, a, b, i, j) <= Cost(script)
  {
    assert |a[..i]| == 0 && |b[..j]| == 0;
  }

  lemma AllowedStep<T>(swaps: bool, script: seq<Edit<T>>)
    requires Allowed(swaps, script) && script != []
    ensures Allowed(swaps, script[..|script| - 1]) && (script[|script| - 1].Exchange? ==> swaps)
  {
  }

  lemma Ends<T>(a: seq<T>, i: nat, init: seq<Edit<T>>, last: seq<T>, before: seq<T>)
    requires i <= |a| && a[..i] == before + last
    ensures |last| <= i && a[i - |last|..i] == last
  {
    assert a[..i][i - |last|..] == last;
  }

  lemma ScriptStep<T>(script: seq<Edit<T>>)
    requires script != []
    ensures Source(script) == Source(script[..|script| - 1]) + From(script[|script| - 1])
    ensures Target(script) == Target(script[..|script| - 1]) + To(script[|script| - 1])
    ensures Cost(script) == Cost(script[..|script| - 1]) + if script[|script| - 1].Keep? then 0 else 1
  {
  }

  lemma LastEdit<T>(swaps: bool, a: seq<T>, b: seq<T>, i: nat, j: nat, e: Edit<T>)
    requires i <= |a| && j <= |b| && Matches(a, b, i, j, e) && (e.Exchange? ==> swaps)
    ensures Dist(swaps, a, b, i, j) <= Dist(swaps, a, b, i - |From(e)|, j - |To(e)|) + if e.Keep? then 0 else 1
  {
    hide Dist;
    DistSteps(swaps, a, b, i, j);
    if e.Keep? {
      assert a[i - 1..i][0] == e.x && b[j - 1..j][0] == e.x;
    } else if e.Exchange? {
      assert a[i - 2..i][0] == e.x && a[i - 2..i][1] == e.y;
      assert b[j - 2..j][0] == e.y && b[j - 2..j][1] == e.x;
      DistSteps(swaps, a, b, i - 1, j - 1);
    }
  }

  /** The distance is the least cost of a script, with no restriction on either sequence. */
  lemma DistanceIsLeastCost<T>(swaps: bool, a: seq<T>, b: seq<T>)
    ensures exists script: seq<Edit<T>> :: Source(script) == a && Target(script) == b &&
              Allowed(swaps, script) && Cost(script) == Distance(swaps, a, b)
    ensures forall script: seq<Edit<T>> ::
              Source(script) == a && Target(script) == b && Allowed(swaps, script) ==>
                Distance(swaps, a, b) <= Cost(script)
  {
    assert a[..|a|] == a && b[..|b|] == b;
    var best := BestScript(swaps, a, b, |a|, |b|);
    forall script: seq<Edit<T>> | Source(script) == a && Target(script) == b && Allowed(swaps, script)
      ensures Distance(swaps, a, b) <= Cost(script)
    {
      NoCheaperScript(swaps, a, b, |a|, |b|, script);
    }
  }

  // ----- A metric, for insertions, deletions and substitutions

  lemma {:induction false} DistIsSymmetric<T>(swaps: bool, a: seq<T>, b: seq<T>, i: nat, j: nat)
    requires i <= |a| && j <= |b|
    ensures Dist(swaps, a, b, i, j) == Dist(swaps, b, a, j, i)
    decreases i + j
  {
    hide Dist;
    DistChoices(swaps, a, b, i, j);
    DistChoices(swaps, b, a, j, i);
    DistSteps(swaps, a, b, i, j);
    DistSteps(swaps, b, a, j, i);
    if i > 0 && j > 0 {
      DistIsSymmetric(swaps, a, b, i - 1, j);
      DistIsSymmetric(swaps, a, b, i, j - 1);
      DistIsSymmetric(swaps, a, b, i - 1, j - 1);
      if Transposed(a, b, i, j) {
        DistIsSymmetric(swaps, a, b, i - 2, j - 2);
      }
    }
  }

  /** Both distances are symmetric, which lets the code swap its arguments. */
  lemma DistanceIsSymmetric<T>(swaps: bool, a: seq<T>, b: seq<T>)
    ensures Distance(swaps, a, b) == Distance(swaps, b, a)
  {
    DistIsSymmetric(swaps, a, b, |a|, |b|);
  }

  lemma {:induction false} DistBounds<T>(swaps: bool, a: seq<T>, b: seq<T>, i: nat, j: nat)
    requires i <= |a| && j <= |b|
    ensures i - j <= Dist(swaps, a, b, i, j) && j - i <= Dist(swaps, a, b, i, j)
    ensures Dist(swaps, a, b, i, j) <= i || Dist(swaps, a, b, i, j) <= j
    decreases i + j
  {
    hide Dist;
    DistChoices(swaps, a, b, i, j);
    DistSteps(swaps, a, b, i, j);
    if i > 0 && j > 0 {
      DistBounds(swaps, a, b, i - 1, j);
      DistBounds(swaps, a, b, i, j - 1);
      DistBounds(swaps, a, b, i - 1, j - 1);
      if Transposed(a, b, i, j) {
        DistBounds(swaps, a, b, i - 2, j - 2);
      }
    }
  }

  /** At least the difference of the lengths, and at most the longer length. */
  lemma DistanceBounds<T>(swaps: bool, a: seq<T>, b: seq<T>)
    ensures |a| - |b| <= Distance(swaps, a, b) && |b| - |a| <= Distance(swaps, a, b)
    ensures Distance(swaps, a, b) <= |a| || Distance(swaps, a, b) <= |b|
  {
    DistBounds(swaps, a, b, |a|, |b|);
  }

  lemma {:induction false} DistZero<T>(swaps: bool, a: seq<T>, b: seq<T>, i: nat, j: nat)
    requires i <= |a| && j <= |b|
    ensures Dist(swaps, a, b, i, j) == 0 <==> a[..i] == b[..j]
    decreases i + j
  {
    hide Dist;
    DistChoices(swaps, a, b, i, j);
    DistSteps(swaps, a, b, i, j);
    assert a[..i] == b[..j] ==> |a[..i]| == |b[..j]|;
    if i > 0 && j > 0 {
      DistZero(swaps, a, b, i - 1, j - 1);
      assert a[..i] == a[..i - 1] + [a[i - 1]];
      assert b[..j] == b[..j - 1] + [b[j - 1]];
      if a[..i] == b[..j] {
        assert a[i - 1] == a[..i][i - 1] == b[j - 1];
        assert a[..i - 1] == a[..i][..i - 1] == b[..j - 1];
      }
    }
  }

  /** Only equal sequences are at distance zero. */
  lemma DistanceZero<T>(swaps: bool, a: seq<T>, b: seq<T>)
    ensures Distance(swaps, a, b) == 0 <==> a == b
  {
    DistZero(swaps, a, b, |a|, |b|);
    assert a[..|a|] == a && b[..|b|] == b;
  }

  lemma {:induction false} DistTriangle<T>(a: seq<T>, b: seq<T>, c: seq<T>, i: nat, j: nat, k: nat)
    requires i <= |a| && j <= |b| && k <= |c|
    ensures Dist(false, a, c, i, k) <= Dist(false, a, b, i, j) + Dist(false, b, c, j, k)
    decreases i + j + k
  {
    hide Dist;
    DistChoices(false, a, b, i, j);
    DistChoices(false, b, c, j, k);
    DistBounds(false, a, c, i, k);
    DistSteps(false, a, c, i, k);
    DistBounds(false, a, b, i, j);
    DistBounds(false, b, c, j, k);
    if i > 0 && j > 0 {
      DistTriangle(a, b, c, i - 1, j, k);
    }
    if j > 0 && k > 0 {
      DistTriangle(a, b, c, i, j, k - 1);
    }
    if i > 0 && j > 0 && k > 0 {
      DistTriangle(a, b, c, i, j - 1, k);
      DistTriangle(a, b, c, i, j - 1, k - 1);
      DistTriangle(a, b, c, i - 1, j - 1, k);
      DistTriangle(a, b, c, i - 1, j - 1, k - 1);
    } else if i == 0 || k == 0 {
      DistChoices(false, a, c, i, k);
    }
  }

  lemma LevenshteinTriangle<T>(a: seq<T>, b: seq<T>, c: seq<T>)
    ensures Distance(false, a, c) <= Distance(false, a, b) + Distance(false, b, c)
  {
    DistTriangle(a, b, c, |a|, |b|, |c|);
  }

  lemma {:induction false} SwapsNeverHurt<T>(a: seq<T>, b: seq<T>, i: nat, j: nat)
    requires i <= |a| && j <= |b|
    ensures Dist(true, a, b, i, j) <= Dist(false, a, b, i, j)
    decreases i + j
  {
    hide Dist;
    DistChoices(false, a, b, i, j);
    DistSteps(true, a, b, i, j);
    DistChoices(true, a, b, i, j);
    if i > 0 && j > 0 {
      SwapsNeverHurt(a, b, i - 1, j);
      SwapsNeverHurt(a, b, i, j - 1);
      SwapsNeverHurt(a, b, i - 1, j - 1);
    }
  }

  /** The distance with transpositions never exceeds the one without. */
  lemma DamerauAtMostLevenshtein<T>(a: seq<T>, b: seq<T>)
    ensures Distance(true, a, b) <= Distance(false, a, b)
  {
    SwapsNeverHurt(a, b, |a|, |b|);
  }

  // ----- Moves: one change to a sequence at a time

  datatype Move<T> = Insert(at: nat, y: T) | Delete(at: nat) | Replace(at: nat, y: T) | Transpose(at: nat)

  function Apply<T>(m: Move<T>, s: seq<T>): seq<T>
    requires Applies(m, s)
  {
    match m
    case Insert(at, y) => s[..at] + [y] + s[at..]
    case Delete(at) => s[..at] + s[at + 1..]
    case Replace(at, y) => s[..at] + [y] + s[at + 1..]
    case Transpose(at) => s[..at] + [s[at + 1], s[at]] + s[at + 2..]
  }

  predicate Applies<T>(m: Move<T>, s: seq<T>) {
    match m
    case Insert(at, _) => at <= |s|
    case Delete(at) => at < |s|
    case Replace(at, _) => at < |s|
    case Transpose(at) => at + 1 < |s|
  }

  /** The moves, one after the other, lead from `s` to `t`. */
  predicate Leads<T(==)>(swaps: bool, moves: seq<Move<T>>, s: seq<T>, t: seq<T>) {
    if moves == [] then s == t
    else Applies(moves[0], s) && (moves[0].Transpose? ==> swaps) && Leads(swaps, moves[1..], Apply(moves[0], s), t)
  }

  lemma FirstMove<T>(swaps: bool, m: Move<T>, moves: seq<Move<T>>, s: seq<T>, t: seq<T>)
    ensures Leads(swaps, [], t, t)
    ensures Leads(swaps, [m] + moves, s, t) <==>
              Applies(m, s) && (m.Transpose? ==> swaps) && Leads(swaps, moves, Apply(m, s), t)
  {
    assert ([m] + moves)[1..] == moves;
  }

  /** The move that an edit makes at a position. */
  function MoveOf<T>(e: Edit<T>, at: nat): Move<T>
    requires !e.Keep?
  {
    match e
    case Substitute(_, y) => Replace(at, y)
    case Add(y) => Insert(at, y)
    case Remove(_) => Delete(at)
    case Exchange(_, _) => Transpose(at)
  }

  lemma EditMoves<T>(e: Edit<T>, before: seq<T>, rest: seq<T>)
    requires !e.Keep?
    ensures var m, s := MoveOf(e, |before|), before + From(e) + rest;
            && Applies(m, s) && Apply(m, s) == before + (To(e) + rest)
            && (m.Transpose? <==> e.Exchange?)
  {
    var s := before + From(e) + rest;
    Parts(before, From(e), rest);
    assert before + To(e) + rest == before + (To(e) + rest);
    match e
    case Substitute(x, y) =>
    case Add(y) =>
      assert s[|before|..] == rest;
    case Remove(x) =>
      assert before + [] + rest == before + rest;
    case Exchange(x, y) =>
      ExchangeMove(s, before, rest, x, y);
  }

  lemma ExchangeMove<T>(s: seq<T>, before: seq<T>, rest: seq<T>, x: T, y: T)
    requires s == before + [x, y] + rest
    ensures |before| + 1 < |s| && s[..|before|] == before && s[|before| + 2..] == rest
    ensures s[|before|] == x && s[|before| + 1] == y
  {
  }

  lemma Parts<T>(before: seq<T>, mid: seq<T>, after: seq<T>)
    ensures var s := before + mid + after;
            s[..|before|] == before && s[|before| + |mid|..] == after
    ensures forall i :: 0 <= i < |mid| ==> (before + mid + after)[|before| + i] == mid[i]
  {
  }

  /** A script's edits, last one first, are as many moves as it costs. */
  lemma {:induction false} ScriptMoves<T>(swaps: bool, script: seq<Edit<T>>, rest: seq<T>) returns (moves: seq<Move<T>>)
    requires Allowed(swaps, script)
    ensures |moves| == Cost(script)
    ensures Leads(swaps, moves, Source(script) + rest, Target(script) + rest)
  {
    hide *;
    NoEdits<T>();
    FirstMove(swaps, Delete(0), [], rest, rest);
    if script == [] {
      moves := [];
      assert [] + rest == rest;
    } else {
      var init, e := script[..|script| - 1], script[|script| - 1];
      ScriptStep(script);
      AllowedInit(swaps, script);
      moves := ScriptMoves(swaps, init, To(e) + rest);
      assert Target(script) + rest == Target(init) + (To(e) + rest);
      if e.Keep? {
        KeepBoth(e);
        assert Source(script) + rest == Source(init) + (To(e) + rest);
      } else {
        EditMoves(e, Source(init), rest);
        FirstMove(swaps, MoveOf(e, |Source(init)|), moves, Source(script) + rest, Target(script) + rest);
        moves := [MoveOf(e, |Source(init)|)] + moves;
      }
    }
  }

  lemma NoEdits<T>()
    ensures Source<T>([]) == [] && Target<T>([]) == [] && Cost<T>([]) == 0
  {
  }

  lemma KeepBoth<T>(e: Edit<T>)
    ensures e.Keep? ==> From(e) == To(e)
  {
  }

  lemma AllowedInit<T>(swaps: bool, script: seq<Edit<T>>)
    requires script != [] && Allowed(swaps, script)
    ensures Allowed(swaps, script[..|script| - 1]) && (script[|script| - 1].Exchange? ==> swaps)
  {
  }

  lemma {:induction false} ScriptConcat<T>(s: seq<Edit<T>>, t: seq<Edit<T>>)
    ensures Source(s + t) == Source(s) + Source(t) && Target(s + t) == Target(s) + Target(t)
    ensures Cost(s + t) == Cost(s) + Cost(t)
    ensures Allowed(false, s) && Allowed(false, t) ==> Allowed(false, s + t)
  {
    hide *;
    NoEdits<T>();
    if t == [] {
      assert s + t == s;
    } else {
      var init, e := t[..|t| - 1], t[|t| - 1];
      ScriptConcat(s, init);
      ScriptStep(t);
      assert s + t == (s + init) + [e];
      ScriptAppend(s + init, e);
      AllowedConcat(s, t);
    }
  }

  lemma AllowedConcat<T>(s: seq<Edit<T>>, t: seq<Edit<T>>)
    ensures Allowed(false, s) && Allowed(false, t) ==> Allowed(false, s + t)
  {
  }

  lemma {:induction false} KeepAll<T>(s: seq<T>) returns (script: seq<Edit<T>>)
    ensures Source(script) == Target(script) == s && Cost(script) == 0 && Allowed(false, script)
  {
    script := [];
    if s != [] {
      script := KeepAll(s[..|s| - 1]);
      script := Extend(false, script, Keep(s[|s| - 1]));
    }
  }

  lemma Splice<T>(before: seq<T>, mid: seq<Edit<T>>, after: seq<T>)
    requires Allowed(false, mid)
    ensures Distance(false, before + Source(mid) + after, before + Target(mid) + after) <= Cost(mid)
  {
    hide *;
    var p := KeepAll(before);
    var q := KeepAll(after);
    ScriptConcat(p, mid);
    ScriptConcat(p + mid, q);
    DistanceIsLeastCost(false, before + Source(mid) + after, before + Target(mid) + after);
  }

  /** One move changes a sequence by at most one edit, or two for a transposition. */
  lemma MoveDistance<T>(m: Move<T>, s: seq<T>)
    requires Applies(m, s)
    ensures Distance(false, s, Apply(m, s)) <= if m.Transpose? then 2 else 1
  {
    hide Distance;
    match m
    case Insert(at, y) =>
      OneEdit(Add(y));
      Splice(s[..at], [Add(y)], s[at..]);
      assert s == s[..at] + [] + s[at..];
    case Delete(at) =>
      OneEdit(Remove(s[at]));
      Splice(s[..at], [Remove(s[at])], s[at + 1..]);
      assert s == s[..at] + [s[at]] + s[at + 1..];
      assert Apply(m, s) == s[..at] + [] + s[at + 1..];
    case Replace(at, y) =>
      OneEdit(Substitute(s[at], y));
      Splice(s[..at], [Substitute(s[at], y)], s[at + 1..]);
      assert s == s[..at] + [s[at]] + s[at + 1..];
    case Transpose(at) =>
      TwoEdits(s[at], s[at + 1]);
      Splice(s[..at], [Substitute(s[at], s[at + 1]), Substitute(s[at + 1], s[at])], s[at + 2..]);
      assert s == s[..at] + [s[at], s[at + 1]] + s[at + 2..];
  }

  lemma OneEdit<T>(e: Edit<T>)
    ensures Source([e]) == From(e) && Target([e]) == To(e) && Cost([e]) == if e.Keep? then 0 else 1
  {
    ScriptAppend([], e);
    assert [] + [e] == [e];
  }

  lemma TwoEdits<T>(x: T, y: T)
    ensures var e := [Substitute(x, y), Substitute(y, x)];
            Source(e) == [x, y] && Target(e) == [y, x] && Cost(e) == 2
  {
    OneEdit(Substitute(x, y));
    ScriptAppend([Substitute(x, y)], Substitute(y, x));
    assert [Substitute(x, y)] + [Substitute(y, x)] == [Substitute(x, y), Substitute(y, x)];
  }

  lemma {:induction false} MovesDistance<T>(swaps: bool, moves: seq<Move<T>>, s: seq<T>, t: seq<T>)
    requires Leads(swaps, moves, s, t)
    ensures Distance(false, s, t) <= (if swaps then 2 else 1) * |moves|
  {
    hide Distance;
    if moves == [] {
      DistanceZero(false, s, t);
    } else {
      MovesDistance(swaps, moves[1..], Apply(moves[0], s), t);
      MoveDistance(moves[0], s);
      LevenshteinTriangle(s, Apply(moves[0], s), t);
    }
  }

  /**
   The Levenshtein distance is the least number of insertions, deletions and substitutions that lead
   from one sequence to the other.
   */
  lemma LevenshteinCountsMoves<T>(a: seq<T>, b: seq<T>)
    ensures exists moves: seq<Move<T>> :: Leads(false, moves, a, b) && |moves| == Distance(false, a, b)
    ensures forall moves: seq<Move<T>> :: Leads(false, moves, a, b) ==> Distance(false, a, b) <= |moves|
  {
    hide Distance;
    var moves := DistanceMoves(false, a, b);
    forall moves: seq<Move<T>> | Leads(false, moves, a, b)
      ensures Distance(false, a, b) <= |moves|
    {
      MovesDistance(false, moves, a, b);
    }
  }

  lemma DistanceMoves<T>(swaps: bool, a: seq<T>, b: seq<T>) returns (moves: seq<Move<T>>)
    ensures Leads(swaps, moves, a, b) && |moves| == Distance(swaps, a, b)
  {
    var script := BestScript(swaps, a, b, |a|, |b|);
    moves := ScriptMoves(swaps, script, []);
    assert a[..|a|] + [] == a && b[..|b|] + [] == b;
  }

  /**
   The Damerau distance is documented as the number of insertions, deletions, substitutions
   and transpositions needed.  As many always suffice, but fewer may: the code never edits a
   transposed pair again.  It is at most twice the number needed.
   */
  lemma DamerauCountsMoves<T>(a: seq<T>, b: seq<T>)
    ensures exists moves: seq<Move<T>> :: Leads(true, moves, a, b) && |moves| == Distance(true, a, b)
    ensures forall moves: seq<Move<T>> :: Leads(true, moves, a, b) ==> Distance(true, a, b) <= 2 * |moves|
  {
    hide Distance;
    var moves := DistanceMoves(true, a, b);
    forall moves: seq<Move<T>> | Leads(true, moves, a, b)
      ensures Distance(true, a, b) <= 2 * |moves|
    {
      MovesDistance(true, moves, a, b);
      DamerauAtMostLevenshtein(a, b);
    }
  }

  /** Two moves lead from `ca` to `abc`, but the code says three; so the triangle inequality fails. */
  lemma TwoMovesCountedAsThree()
    ensures Leads(true, [Transpose(0), Insert(1, 'b')], "ca", "abc")
    ensures Distance(true, "ca", "abc") == 3
    ensures Distance(true, "ca", "ac") == 1 && Distance(true, "ac", "abc") == 1
  {
    hide *;
    TwoMoves();
    CountedAsThree();
    CountedAsOne();
  }

  lemma TwoMoves()
    ensures Leads(true, [Transpose(0), Insert(1, 'b')], "ca", "abc")
  {
    hide Leads;
    assert Apply(Transpose(0), "ca") == "ac";
    assert Apply(Insert(1, 'b'), "ac") == "abc";
    FirstMove(true, Insert(1, 'b'), [], "ac", "abc");
    assert [Insert(1, 'b')] + [] == [Insert(1, 'b')];
    FirstMove(true, Transpose(0), [Insert(1, 'b')], "ca", "abc");
    assert [Transpose(0)] + [Insert(1, 'b')] == [Transpose(0), Insert(1, 'b')];
  }

  lemma Cell(a: string, b: string, i: nat, j: nat)
    requires i <= |a| && j <= |b|
    ensures i == 0 ==> Dist(true, a, b, i, j) == j
    ensures j == 0 ==> Dist(true, a, b, i, j) == i
    ensures i > 0 && j > 0 && !Transposed(a, b, i, j) ==>
              Dist(true, a, b, i, j) == Min(Min(Dist(true, a, b, i - 1, j) + 1, Dist(true, a, b, i, j - 1) + 1),
                                            Dist(true, a, b, i - 1, j - 1) + Differ(a[i - 1], b[j - 1]))
  {
    hide Dist;
    DistChoices(true, a, b, i, j);
    DistSteps(true, a, b, i, j);
  }

  lemma CountedAsThree()
    ensures Distance(true, "ca", "abc") == 3
  {
    hide Dist;
    var a, b := "ca", "abc";
    forall i: nat, j: nat | i <= 2 && j <= 3 && (i == 0 || j == 0)
      ensures Dist(true, a, b, i, j) == i + j
    {
      Cell(a, b, i, j);
    }
    Cell(a, b, 1, 1);
    Cell(a, b, 1, 2);
    Cell(a, b, 1, 3);
    Cell(a, b, 2, 1);
    Cell(a, b, 2, 2);
    Cell(a, b, 2, 3);
  }

  lemma CountedAsOne()
    ensures Distance(true, "ca", "ac") == 1 && Distance(true, "ac", "abc") == 1
  {
    hide Dist;
    DistSteps(true, "ca", "ac", 2, 2);
    DistChoices(true, "ca", "ac", 0, 0);
    DistanceZero(true, "ca", "ac");
    DistSteps(true, "ac", "abc", 2, 3);
    DistSteps(true, "ac", "abc", 1, 2);
    DistSteps(true, "ac", "abc", 1, 1);
    DistChoices(true, "ac", "abc", 0, 0);
    DistanceZero(true, "ac", "abc");
  }

  // ----- The programs

  /** What the rows hold, for the loops. */
  lemma DistIs<T>(swaps: bool, a: seq<T>, b: seq<T>, i: nat, j: nat)
    requires i <= |a| && j <= |b|
    ensures i == 0 ==> Dist(swaps, a, b, i, j) == j
    ensures j == 0 ==> Dist(swaps, a, b, i, j) == i
    ensures i > 0 && j > 0 ==>
              var m := Min(Min(Dist(swaps, a, b, i - 1, j) + 1, Dist(swaps, a, b, i, j - 1) + 1),
                           Dist(swaps, a, b, i - 1, j - 1) + Differ(a[i - 1], b[j - 1]));
              Dist(swaps, a, b, i, j) ==
                if swaps && Transposed(a, b, i, j) then Min(m, Dist(swaps, a, b, i - 2, j - 2) + 1) else m
  {
    hide Dist;
    DistChoices(swaps, a, b, i, j);
    DistSteps(swaps, a, b, i, j);
  }

  /** `levenshtein_dist` */
  method LevenshteinDist<T(==)>(a: seq<T>, b: seq<T>) returns (d: nat)
    ensures d == Distance(false, a, b)
  {
    hide Dist;
    DistanceIsSymmetric(false, a, b);
    var (a', b') := (a, b);
    if |a| > |b| {
      a', b' := b, a;
    }
    var n, m := |a'|, |b'|;
    var current := new nat[n + 1](j => j);
    forall j: nat | j <= n
      ensures Dist(false, a', b', j, 0) == j
    {
      DistIs(false, a', b', j, 0);
    }
    for i := 1 to m + 1
      invariant current.Length > n && forall j: nat :: j <= n ==> current[j] == Dist(false, a', b', j, i - 1)
    {
      var previous := current;
      current := new nat[m + 1](j => if j == 0 then i else 0);
      DistIs(false, a', b', 0, i);
      for j := 1 to n + 1
        invariant current.Length == m + 1 && fresh(current) && current != previous
        invariant previous.Length > n && forall k: nat :: k <= n ==> previous[k] == Dist(false, a', b', k, i - 1)
        invariant forall k: nat :: k < j ==> current[k] == Dist(false, a', b', k, i)
      {
        DistIs(false, a', b', j, i);
        var add, delete := previous[j] + 1, current[j - 1] + 1;
        var change := previous[j - 1];
        if a'[j - 1] != b'[i - 1] {
          change := change + 1;
        }
        current[j] := Min(Min(add, delete), change);
      }
    }
    return current[n];
  }

  /** Python's list index: a negative one counts from the end. */
  function Wrap(i: int, length: int): int {
    if i < 0 then i + length else i
  }

  /** The entry of column `j + 1`, which the list keeps at index `j`. */
  ghost function Next<T>(a: seq<T>, b: seq<T>, r: nat, j: nat): nat
    requires r <= |a| && j < |b|
  {
    Dist(true, a, b, r, j + 1)
  }

  /** The first `n` columns of row `r` of the matrix, after the leftmost one, which the list stores last. */
  ghost predicate Filled<T>(a: seq<T>, b: seq<T>, row: seq<nat>, r: nat, n: nat)
    requires r <= |a| && n <= |b|
  {
    |row| == |b| + 1 && row[|b|] == r && forall j: nat :: j < n ==> row[j] == Next(a, b, r, j)
  }

  /** The entries that one step of the loop reads, by the columns they are in. */
  lemma Columns<T>(a: seq<T>, b: seq<T>, x: nat, y: nat)
    requires x < |a| && y < |b|
    ensures Next(a, b, x + 1, y) == Dist(true, a, b, x + 1, y + 1) && Next(a, b, x, y) == Dist(true, a, b, x, y + 1)
    ensures Dist(true, a, b, x + 1, y) == if y == 0 then x + 1 else Next(a, b, x + 1, y - 1)
    ensures Dist(true, a, b, x, y) == if y == 0 then x else Next(a, b, x, y - 1)
    ensures x > 0 && y > 0 ==> Dist(true, a, b, x - 1, y - 1) == if y == 1 then x - 1 else Next(a, b, x - 1, y - 2)
  {
    hide Dist;
    DistIs(true, a, b, x + 1, 0);
    DistIs(true, a, b, x, 0);
    if x > 0 {
      DistIs(true, a, b, x - 1, 0);
    }
  }

  predicate Swapped<T(==)>(a: seq<T>, b: seq<T>, x: nat, y: nat)
    requires x < |a| && y < |b|
  {
    x > 0 && y > 0 && a[x] == b[y - 1] && a[x - 1] == b[y] && a[x] != b[y]
  }

  /** One step of the inner loop reads what the recursion asks for. */
  lemma RowStep<T>(a: seq<T>, b: seq<T>, x: nat, y: nat, two: seq<nat>, one: seq<nat>, row: seq<nat>)
    requires x < |a| && y < |b|
    requires Filled(a, b, one, x, |b|) && (x > 0 ==> Filled(a, b, two, x - 1, |b|)) && Filled(a, b, row, x + 1, y)
    ensures |one| == |row| == |b| + 1 && (x > 0 ==> |two| == |b| + 1)
    ensures var best :=
                Min(Min(one[y] + 1, row[Wrap(y - 1, |b| + 1)] + 1), one[Wrap(y - 1, |b| + 1)] + Differ(a[x], b[y]));
            Next(a, b, x + 1, y) == if Swapped(a, b, x, y) then Min(best, two[Wrap(y - 2, |b| + 1)] + 1) else best
  {
    hide Dist, Next;
    DistIs(true, a, b, x + 1, y + 1);
    Columns(a, b, x, y);
  }

  lemma FillNext<T>(a: seq<T>, b: seq<T>, row: seq<nat>, r: nat, y: nat, more: seq<nat>)
    requires r <= |a| && y < |b| && Filled(a, b, row, r, y)
    ensures |row| == |b| + 1
    ensures more == row[y := Next(a, b, r, y)] ==> Filled(a, b, more, r, y + 1)
  {
    hide Next;
  }

  lemma FirstRow<T>(a: seq<T>, b: seq<T>, row: seq<nat>)
    requires |row| == |b| + 1 && forall y :: 0 <= y <= |b| ==> row[y] == if y < |b| then y + 1 else 0
    ensures Filled(a, b, row, 0, |b|)
  {
    hide Dist;
    forall j: nat | j < |b|
      ensures Next(a, b, 0, j) == j + 1
    {
      DistIs(true, a, b, 0, j + 1);
    }
  }

  lemma EmptyRow<T>(a: seq<T>, b: seq<T>, row: seq<nat>, r: nat)
    requires r <= |a| && |row| == |b| + 1 && row[|b|] == r
    ensures Filled(a, b, row, r, 0)
  {
  }

  lemma LastEntry<T>(a: seq<T>, b: seq<T>, row: seq<nat>)
    requires Filled(a, b, row, |a|, |b|)
    ensures |row| == |b| + 1 && row[Wrap(|b| - 1, |b| + 1)] == Distance(true, a, b)
  {
    hide Dist;
    DistIs(true, a, b, |a|, 0);
  }

  lemma WrapIs(i: int, length: int)
    requires -length <= i < length
    ensures 0 <= Wrap(i, length) < length && (i >= 0 ==> Wrap(i, length) == i)
  {
  }

  /** `dameraulevenshtein_dist` */
  method DamerauLevenshteinDist<T(==)>(seq1: seq<T>, seq2: seq<T>) returns (d: nat)
    ensures d == Distance(true, seq1, seq2)
  {
    hide *;
    var n := |seq2|;
    var oneago: array?<nat>, twoago: array?<nat> := null, null;
    var thisrow := new nat[n + 1](y => if y < n then y + 1 else 0);
    FirstRow(seq1, seq2, thisrow[..]);
    for x := 0 to |seq1|
      invariant thisrow.Length == n + 1 && Filled(seq1, seq2, thisrow[..], x, n)
      invariant x > 0 ==> oneago != null && oneago.Length == n + 1 && Filled(seq1, seq2, oneago[..], x - 1, n)
    {
      twoago, oneago, thisrow := oneago, thisrow, new nat[n + 1](y => if y < n then 0 else x + 1);
      ghost var two: seq<nat>, one := if twoago == null then [] else twoago[..], oneago[..];
      EmptyRow(seq1, seq2, thisrow[..], x + 1);
      for y := 0 to n
        invariant fresh(thisrow) && thisrow.Length == n + 1 && thisrow != oneago && thisrow != twoago
        invariant oneago != null && oneago.Length == n + 1 && oneago[..] == one
        invariant x > 0 ==> twoago != null && twoago.Length == n + 1 && twoago[..] == two
        invariant Filled(seq1, seq2, thisrow[..], x + 1, y)
      {
        RowStep(seq1, seq2, x, y, two, one, thisrow[..]);
        WrapIs(y - 1, n + 1);
        WrapIs(y - 2, n + 1);
        ghost var before := thisrow[..];
        var delcost := oneago[y] + 1;
        var addcost := thisrow[Wrap(y - 1, n + 1)] + 1;
        var subcost := oneago[Wrap(y - 1, n + 1)] + Differ(seq1[x], seq2[y]);
        thisrow[y] := Min(Min(delcost, addcost), subcost);
        if Swapped(seq1, seq2, x, y) {
          SwappedIs(seq1, seq2, x, y);
          thisrow[y] := Min(thisrow[y], twoago[Wrap(y - 2, n + 1)] + 1);
        }
        FillNext(seq1, seq2, before, x + 1, y, thisrow[..]);
      }
    }
    LastEntry(seq1, seq2, thisrow[..]);
    WrapIs(n - 1, n + 1);
    return thisrow[Wrap(n - 1, n + 1)];
  }

  lemma SwappedIs<T>(a: seq<T>, b: seq<T>, x: nat, y: nat)
    requires x < |a| && y < |b| && Swapped(a, b, x, y)
    ensures x > 0 && y > 0
  {
  }
}
