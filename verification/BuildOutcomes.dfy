/**
 How `rec_build_sql` ends, for every query and every list of virtual tables: with a text, with
 nothing, or not at all.  Names may be undefined, go round in circles, or both.
 */
module BuildOutcomes {
  import opened Wrappers
  import opened VirtualTables
  import opened BuildSql

  /** Every name in the unfolding of `n` is defined, and the unfolding ends. */
  ghost predicate BottomsOut(defs: seq<VTable>, n: nat) {
    exists k: nat :: n in Grounded(defs, k)
  }

  /** `Grounded(defs, k)` has all names that bottom out. */
  ghost predicate Settled(defs: seq<VTable>, k: nat) {
    Grounded(defs, k) == Grounded(defs, k + 1)
  }

  lemma {:induction false} GroundedLater(defs: seq<VTable>, j: nat, k: nat)
    requires j <= k
    ensures Grounded(defs, j) <= Grounded(defs, k)
    decreases k
  {
    hide *;
    if j < k {
      GroundedLater(defs, j, k - 1);
      GroundedGrows(defs, k - 1);
    }
  }

  lemma {:induction false} SettledLater(defs: seq<VTable>, k: nat, j: nat)
    requires Settled(defs, k) && k <= j
    ensures Grounded(defs, j) == Grounded(defs, k)
    decreases j
  {
    hide *;
    SettledIs(defs, k);
    if k < j {
      SettledLater(defs, k, j - 1);
      SameStep(defs, k, j - 1);
    }
  }

  /** What the next level holds depends on this one alone. */
  lemma SameStep(defs: seq<VTable>, k: nat, j: nat)
    requires Grounded(defs, j) == Grounded(defs, k)
    ensures Grounded(defs, j + 1) == Grounded(defs, k + 1)
  {
  }

  lemma SettledIsAll(defs: seq<VTable>, k: nat, n: nat)
    requires Settled(defs, k)
    ensures BottomsOut(defs, n) <==> n in Grounded(defs, k)
  {
    hide Grounded;
    if BottomsOut(defs, n) {
      var j: nat :| n in Grounded(defs, j);
      if j <= k {
        GroundedLater(defs, j, k);
      } else {
        SettledLater(defs, k, j);
      }
    }
  }

  /** What a name that bottoms out mentions bottoms out too; a defined name that does not mentions one that does not. */
  lemma SettledMentions(defs: seq<VTable>, k: nat, n: nat)
    requires Settled(defs, k)
    ensures n in Grounded(defs, k) ==> Find(defs, n).Some?
    ensures n in Grounded(defs, k) ==> Outside(Find(defs, n).value.args, Grounded(defs, k)).None?
    ensures n !in Grounded(defs, k) && Find(defs, n).Some? ==>
              Outside(Find(defs, n).value.args, Grounded(defs, k)).Some?
  {
    if n in Grounded(defs, k) {
      GroundedLater(defs, k - 1, k);
    } else if Find(defs, n).Some? {
      assert Find(defs, n).value in defs;
      assert n !in Grounded(defs, k + 1);
    }
  }

  // ----- The first name that does not bottom out

  ghost function Outside(e: Sql, g: set<nat>): (n: Option<nat>)
    ensures n.Some? ==> Name(n.value) in e && n.value !in g
    ensures n.None? ==> forall id :: Name(id) in e ==> id in g
  {
    if e == [] then None
    else if e[0].Name? && e[0].id !in g then Some(e[0].id)
    else Outside(e[1..], g)
  }

  lemma {:induction false} OutsideConcat(a: Sql, b: Sql, g: set<nat>)
    ensures Outside(a + b, g) == if Outside(a, g).Some? then Outside(a, g) else Outside(b, g)
  {
    if a == [] {
      assert a + b == b;
    } else {
      OutsideConcat(a[1..], b, g);
      assert (a + b)[1..] == a[1..] + b;
    }
  }

  lemma ExpansionOutside(v: VTable, g: set<nat>)
    ensures Outside(Expansion(v), g) == Outside(v.args, g)
  {
    var head, tail: Sql := [Text("(select * from " + v.op + "(")], [Text(")) as "), Alias(v.name)];
    OutsideConcat(head, v.args, g);
    OutsideConcat(head + v.args, tail, g);
    assert head[1..] == [] && tail[1..][1..] == [];
    assert Expansion(v) == head + v.args + tail;
  }

  lemma FirstOutside(e: Sql, g: set<nat>)
    ensures Outside(e, g).Some? ==> FirstName(e).Some?
    ensures FirstName(e).Some? && FirstName(e).value !in g ==> Outside(e, g) == FirstName(e)
  {
    if e != [] && !e[0].Name? {
      FirstOutside(e[1..], g);
    }
  }

  /** Replacing a name that bottoms out leaves the first one that does not where it was. */
  lemma {:induction false} SubstInside(e: Sql, n: nat, body: Sql, g: set<nat>)
    requires n in g && Outside(body, g).None?
    ensures Outside(Subst(e, n, body), g) == Outside(e, g)
  {
    if e != [] {
      SubstInside(e[1..], n, body, g);
      OutsideConcat(if e[0] == Name(n) then body else [e[0]], Subst(e[1..], n, body), g);
      assert [e[0]][1..] == [];
    }
  }

  /** Replacing the first name of all, if it does not bottom out, brings up the first such name of its call. */
  lemma {:induction false} SubstOutside(e: Sql, n: nat, body: Sql, g: set<nat>)
    requires FirstName(e) == Some(n) && Outside(body, g).Some?
    ensures Outside(Subst(e, n, body), g) == Outside(body, g)
  {
    OutsideConcat(if e[0] == Name(n) then body else [e[0]], Subst(e[1..], n, body), g);
    assert [e[0]][1..] == [];
    if !e[0].Name? {
      SubstOutside(e[1..], n, body, g);
    }
  }

  /** One round of the rewrite, as far as names that do not bottom out are concerned. */
  lemma RoundOutside(e: Sql, defs: seq<VTable>, k: nat)
    requires Settled(defs, k) && FirstName(e).Some? && Find(defs, FirstName(e).value).Some?
    ensures var g, n := Grounded(defs, k), FirstName(e).value;
            var v := Find(defs, n).value;
            var e' := Subst(e, n, Expansion(v));
            if n in g then Outside(e', g) == Outside(e, g)
            else Outside(e, g) == Some(n) && Outside(v.args, g).Some? && Outside(e', g) == Outside(v.args, g)
  {
    hide Grounded, Outside, Subst, Expansion, Find, FirstName, Settled;
    var g, n := Grounded(defs, k), FirstName(e).value;
    SettledMentions(defs, k, n);
    ExpansionOutside(Find(defs, n).value, g);
    if n in g {
      SubstInside(e, n, Expansion(Find(defs, n).value), g);
    } else {
      FirstOutside(e, g);
      SubstOutside(e, n, Expansion(Find(defs, n).value), g);
    }
  }

  // ----- Not a text

  /** A query that mentions a name that does not bottom out is never built. */
  lemma {:induction false} OutsideNeverBuilt(e: Sql, defs: seq<VTable>, k: nat, depth: nat)
    requires Settled(defs, k) && Outside(e, Grounded(defs, k)).Some?
    ensures !RecBuildSql(e, defs, depth).Built?
    decreases depth
  {
    hide *;
    var g := Grounded(defs, k);
    FirstOutside(e, g);
    NoRound(e, defs, depth);
    if Find(defs, FirstName(e).value).Some? {
      OneRound(e, defs, depth);
      RoundOutside(e, defs, k);
      var e' := Subst(e, FirstName(e).value, Expansion(Find(defs, FirstName(e).value).value));
      FirstOutside(e', g);
      if depth > 0 {
        OutsideNeverBuilt(e', defs, k, depth - 1);
      }
    }
  }

  /**
   From `n` on, the first name that does not bottom out in the arguments of the one before,
   and so on: within so many steps this comes to a name that is not defined.
   */
  ghost predicate Strays(defs: seq<VTable>, g: set<nat>, n: nat, steps: nat)
    decreases steps
  {
    match Find(defs, n)
    case None => true
    case Some(v) => steps > 0 && Outside(v.args, g).Some? && Strays(defs, g, Outside(v.args, g).value, steps - 1)
  }

  lemma StraysStep(defs: seq<VTable>, g: set<nat>, n: nat, steps: nat)
    ensures Find(defs, n).None? ==> Strays(defs, g, n, steps)
    ensures Find(defs, n).Some? ==>
              var args := Find(defs, n).value.args;
              Strays(defs, g, n, steps) <==>
                steps > 0 && Outside(args, g).Some? && Strays(defs, g, Outside(args, g).value, steps - 1)
  {
  }

  /** If the rewrite comes to nothing, the first name that does not bottom out strays. */
  lemma {:induction false} NothingStrays(e: Sql, defs: seq<VTable>, k: nat, depth: nat) returns (steps: nat)
    requires Settled(defs, k) && RecBuildSql(e, defs, depth) == Nothing
    ensures var g := Grounded(defs, k); Outside(e, g).Some? && Strays(defs, g, Outside(e, g).value, steps)
    decreases depth
  {
    hide *;
    var g := Grounded(defs, k);
    NoRound(e, defs, depth);
    BuiltOrNot(e);
    var n := FirstName(e).value;
    SettledMentions(defs, k, n);
    FirstOutside(e, g);
    if Find(defs, n).None? {
      StraysStep(defs, g, n, 0);
      return 0;
    }
    OneRound(e, defs, depth);
    RoundOutside(e, defs, k);
    steps := NothingStrays(Subst(e, n, Expansion(Find(defs, n).value)), defs, k, depth - 1);
    if n !in g {
      StraysStep(defs, g, n, steps + 1);
      steps := steps + 1;
    }
  }

  lemma BuiltOrNot(e: Sql)
    ensures Built(e) != Nothing && TooDeep != Nothing
  {
  }

  // ----- Nothing

  /** The part of a text that bottoms out. */
  ghost function OnlyGrounded(e: Sql, g: set<nat>): (r: Sql)
    ensures forall n :: Name(n) in r ==> n in g
  {
    if e == [] then []
    else (if e[0].Name? && e[0].id !in g then [] else [e[0]]) + OnlyGrounded(e[1..], g)
  }

  lemma OnlyStep(t: Token, e: Sql, g: set<nat>)
    ensures OnlyGrounded([t] + e, g) == (if t.Name? && t.id !in g then [] else [t]) + OnlyGrounded(e, g)
    ensures OnlyGrounded([], g) == []
  {
    assert ([t] + e)[1..] == e;
  }

  lemma {:induction false} OnlyConcat(a: Sql, b: Sql, g: set<nat>)
    ensures OnlyGrounded(a + b, g) == OnlyGrounded(a, g) + OnlyGrounded(b, g)
  {
    hide *;
    if a == [] {
      OnlyStep(Alias(0), [], g);
      assert a + b == b;
    } else {
      OnlyConcat(a[1..], b, g);
      OnlyStep(a[0], a[1..], g);
      OnlyStep(a[0], a[1..] + b, g);
      assert a == [a[0]] + a[1..] && a + b == [a[0]] + (a[1..] + b);
    }
  }

  lemma {:induction false} OnlyAll(e: Sql, g: set<nat>)
    ensures Outside(e, g).None? ==> OnlyGrounded(e, g) == e
    ensures forall n :: n in g ==> (Name(n) in OnlyGrounded(e, g) <==> Name(n) in e)
  {
    if e != [] {
      OnlyAll(e[1..], g);
      assert e == [e[0]] + e[1..];
    }
  }

  lemma SubstStep(t: Token, e: Sql, n: nat, body: Sql)
    ensures Subst([t] + e, n, body) == (if t == Name(n) then body else [t]) + Subst(e, n, body)
    ensures Subst([], n, body) == []
  {
    assert ([t] + e)[1..] == e;
  }

  lemma {:induction false} SubstConcat(a: Sql, b: Sql, n: nat, body: Sql)
    ensures Subst(a + b, n, body) == Subst(a, n, body) + Subst(b, n, body)
  {
    hide *;
    if a == [] {
      SubstStep(Alias(0), [], n, body);
      assert a + b == b;
    } else {
      SubstConcat(a[1..], b, n, body);
      SubstStep(a[0], a[1..], n, body);
      SubstStep(a[0], a[1..] + b, n, body);
      assert a == [a[0]] + a[1..] && a + b == [a[0]] + (a[1..] + b);
    }
  }

  lemma {:induction false} OnlySubst(e: Sql, n: nat, body: Sql, g: set<nat>)
    requires n in g && Outside(body, g).None?
    ensures OnlyGrounded(Subst(e, n, body), g) == Subst(OnlyGrounded(e, g), n, body)
  {
    if e != [] {
      OnlySubst(e[1..], n, body, g);
      OnlyAll(body, g);
      OnlyConcat(if e[0] == Name(n) then body else [e[0]], Subst(e[1..], n, body), g);
      SubstConcat(if e[0].Name? && e[0].id !in g then [] else [e[0]], OnlyGrounded(e[1..], g), n, body);
      assert [e[0]][1..] == [];
    }
  }

  lemma OnlyBelow(e: Sql, defs: seq<VTable>, k: nat)
    ensures Ranked(defs, Grounded(defs, k), LevelIn(defs, k))
    ensures Below(OnlyGrounded(e, Grounded(defs, k)), Grounded(defs, k), LevelIn(defs, k), k + 1)
  {
    hide Grounded, OnlyGrounded;
    GroundedRanked(defs, k);
  }

  /** How much substitution the part that bottoms out still needs. */
  ghost function Remaining(e: Sql, defs: seq<VTable>, k: nat): nat {
    OnlyBelow(e, defs, k);
    Weight(OnlyGrounded(e, Grounded(defs, k)), defs, Grounded(defs, k), LevelIn(defs, k), k + 1)
  }

  lemma RemainingFalls(e: Sql, defs: seq<VTable>, k: nat, n: nat)
    requires Settled(defs, k) && n in Grounded(defs, k) && Name(n) in e && Find(defs, n).Some?
    ensures Remaining(Subst(e, n, Expansion(Find(defs, n).value)), defs, k) < Remaining(e, defs, k)
  {
    hide Grounded, Outside, Subst, Expansion, Find, OnlyGrounded, Settled, Below, Ranked, Weight;
    var g, body := Grounded(defs, k), Expansion(Find(defs, n).value);
    SettledMentions(defs, k, n);
    ExpansionOutside(Find(defs, n).value, g);
    OnlySubst(e, n, body, g);
    OnlyAll(e, g);
    OnlyBelow(e, defs, k);
    OnlyBelow(Subst(e, n, body), defs, k);
    SubstUnfolds(OnlyGrounded(e, g), n, defs, g, LevelIn(defs, k), k + 1);
  }

  /** If the first name that does not bottom out strays, the rewrite comes to nothing. */
  lemma {:induction false} StraysNothing(e: Sql, defs: seq<VTable>, k: nat, steps: nat) returns (depth: nat)
    requires Settled(defs, k)
    requires var g := Grounded(defs, k); Outside(e, g).Some? && Strays(defs, g, Outside(e, g).value, steps)
    ensures RecBuildSql(e, defs, depth) == Nothing
    decreases steps, Remaining(e, defs, k)
  {
    hide *;
    var g := Grounded(defs, k);
    FirstOutside(e, g);
    var n := FirstName(e).value;
    NoRound(e, defs, 0);
    SettledMentions(defs, k, n);
    if Find(defs, n).None? {
      return 0;
    }
    var e' := Subst(e, n, Expansion(Find(defs, n).value));
    RoundOutside(e, defs, k);
    FirstOutside(e', g);
    if n in g {
      RemainingFalls(e, defs, k, n);
      depth := StraysNothing(e', defs, k, steps);
    } else {
      StraysStep(defs, g, n, steps);
      depth := StraysNothing(e', defs, k, steps - 1);
    }
    OneRound(e, defs, depth + 1);
    depth := depth + 1;
  }

  // ----- All three

  /** Given enough depth, it does not matter how much. */
  lemma {:induction false} DepthIrrelevant(e: Sql, defs: seq<VTable>, d: nat, d': nat)
    requires RecBuildSql(e, defs, d) != TooDeep && RecBuildSql(e, defs, d') != TooDeep
    ensures RecBuildSql(e, defs, d) == RecBuildSql(e, defs, d')
    decreases d
  {
    hide *;
    NoRound(e, defs, d);
    NoRound(e, defs, d');
    if FirstName(e).Some? && Find(defs, FirstName(e).value).Some? {
      OneRound(e, defs, d);
      OneRound(e, defs, d');
      var e' := Subst(e, FirstName(e).value, Expansion(Find(defs, FirstName(e).value).value));
      if FirstName(e').Some? {
        DepthIrrelevant(e', defs, d - 1, d' - 1);
      }
    }
  }

  /**
   The rewrite gives a text if every name in it bottoms out, and nothing if the first that does
   not strays; otherwise no depth is enough.
   */
  lemma Outcomes(e: Sql, defs: seq<VTable>, k: nat)
    requires Settled(defs, k)
    ensures (exists depth: nat :: RecBuildSql(e, defs, depth).Built?) <==> Outside(e, Grounded(defs, k)).None?
    ensures (exists depth: nat :: RecBuildSql(e, defs, depth) == Nothing) <==>
            (Outside(e, Grounded(defs, k)).Some? &&
              exists steps: nat :: Strays(defs, Grounded(defs, k), Outside(e, Grounded(defs, k)).value, steps))
  {
    hide *;
    var g := Grounded(defs, k);
    if Outside(e, g).None? {
      var depth := GroundedBuilds(e, defs, k);
    }
    forall depth: nat | Outside(e, g).Some?
      ensures !RecBuildSql(e, defs, depth).Built?
    {
      OutsideNeverBuilt(e, defs, k, depth);
    }
    if exists depth: nat :: RecBuildSql(e, defs, depth) == Nothing {
      var depth: nat :| RecBuildSql(e, defs, depth) == Nothing;
      var steps := NothingStrays(e, defs, k, depth);
    }
    if Outside(e, g).Some? && exists steps: nat :: Strays(defs, g, Outside(e, g).value, steps) {
      var steps: nat :| Strays(defs, g, Outside(e, g).value, steps);
      var depth := StraysNothing(e, defs, k, steps);
    }
  }

  /** A query whose names all bottom out is built, and is its complete unfolding. */
  lemma GroundedBuilds(e: Sql, defs: seq<VTable>, k: nat) returns (depth: nat)
    requires Settled(defs, k) && Outside(e, Grounded(defs, k)).None?
    ensures Ranked(defs, Grounded(defs, k), LevelIn(defs, k)) && Below(e, Grounded(defs, k), LevelIn(defs, k), k + 1)
    ensures RecBuildSql(e, defs, depth).Built?
    ensures Unfold(e, defs, Grounded(defs, k), LevelIn(defs, k), k + 1) == Some(RecBuildSql(e, defs, depth).sql)
  {
    hide *;
    var g := Grounded(defs, k);
    OnlyAll(e, g);
    OnlyBelow(e, defs, k);
    depth := Weight(e, defs, g, LevelIn(defs, k), k + 1);
    BuildIsUnfold(e, defs, g, LevelIn(defs, k), k + 1, depth);
    if RecBuildSql(e, defs, depth) == Nothing {
      var steps := NothingStrays(e, defs, k, depth);
    }
  }

  /**
   For any query and any list: the rewrite returns a text, at some depth and then at every depth
   at which it ends, if and only if all its names bottom out; and the text has no name in it.
   */
  lemma BuildsIffGrounded(e: Sql, defs: seq<VTable>)
    ensures (exists depth: nat :: RecBuildSql(e, defs, depth).Built?) <==>
              forall n :: Name(n) in e ==> BottomsOut(defs, n)
    ensures forall d: nat, d': nat :: RecBuildSql(e, defs, d).Built? && RecBuildSql(e, defs, d') != TooDeep ==>
              RecBuildSql(e, defs, d) == RecBuildSql(e, defs, d') && FirstName(RecBuildSql(e, defs, d).sql).None?
  {
    hide *;
    var k := GroundedSettles(defs, 0);
    SettledIs(defs, k);
    Outcomes(e, defs, k);
    forall n
      ensures BottomsOut(defs, n) <==> n in Grounded(defs, k)
    {
      SettledIsAll(defs, k, n);
    }
    forall d: nat, d': nat | RecBuildSql(e, defs, d).Built? && RecBuildSql(e, defs, d') != TooDeep
      ensures RecBuildSql(e, defs, d) == RecBuildSql(e, defs, d') && FirstName(RecBuildSql(e, defs, d).sql).None?
    {
      DepthIrrelevant(e, defs, d, d');
      var depth := GroundedBuilds(e, defs, k);
      DepthIrrelevant(e, defs, d, depth);
      UnfoldedIsNameFree(e, defs, Grounded(defs, k), LevelIn(defs, k), k + 1);
    }
  }

  lemma SettledIs(defs: seq<VTable>, k: nat)
    ensures Settled(defs, k) <==> Grounded(defs, k) == Grounded(defs, k + 1)
  {
  }

  // ----- The same, without levels

  /** Names none of which bottoms out: each is undefined or mentions another of them. */
  ghost predicate Lost(defs: seq<VTable>, s: set<nat>) {
    forall n :: n in s && Find(defs, n).Some? ==> exists m :: m in s && Name(m) in Find(defs, n).value.args
  }

  lemma {:induction false} LostStays(defs: seq<VTable>, s: set<nat>, n: nat, k: nat)
    requires Lost(defs, s) && n in s
    ensures n !in Grounded(defs, k)
    decreases k
  {
    if k > 0 && Find(defs, n).Some? {
      var m :| m in s && Name(m) in Find(defs, n).value.args;
      LostStays(defs, s, m, k - 1);
    }
  }

  /** All names that the query or the definitions mention, but those that bottom out. */
  ghost function LostNames(e: Sql, defs: seq<VTable>, g: set<nat>): set<nat> {
    (set t | t in e && t.Name? :: t.id) + (set v, t | v in defs && t in v.args && t.Name? :: t.id) - g
  }

  lemma RestIsLost(e: Sql, defs: seq<VTable>, k: nat)
    requires Settled(defs, k)
    ensures Lost(defs, LostNames(e, defs, Grounded(defs, k)))
  {
    hide Grounded, Outside, Find, Settled;
    var g := Grounded(defs, k);
    var s := LostNames(e, defs, g);
    forall n | n in s && Find(defs, n).Some?
      ensures exists m :: m in s && Name(m) in Find(defs, n).value.args
    {
      SettledMentions(defs, k, n);
      var v := Find(defs, n).value;
      var m := Outside(v.args, g).value;
      assert v in defs && Name(m) in v.args;
      assert m in s;
    }
  }

  /** The rewrite returns a text if and only if the query mentions no lost names. */
  lemma BuildsIffNotLost(e: Sql, defs: seq<VTable>)
    ensures (exists depth: nat :: RecBuildSql(e, defs, depth).Built?) <==>
              !(exists s :: Lost(defs, s) && Mentions(e, s))
  {
    hide *;
    var k := GroundedSettles(defs, 0);
    SettledIs(defs, k);
    Outcomes(e, defs, k);
    var g := Grounded(defs, k);
    if Outside(e, g).Some? {
      RestIsLost(e, defs, k);
      LostMentioned(e, defs, g);
    }
    forall s | Lost(defs, s) && Mentions(e, s)
      ensures Outside(e, g).Some?
    {
      var n := MentionedIn(e, s);
      LostStays(defs, s, n, k);
    }
  }

  lemma LostMentioned(e: Sql, defs: seq<VTable>, g: set<nat>)
    requires Outside(e, g).Some?
    ensures Mentions(e, LostNames(e, defs, g))
  {
    assert Name(Outside(e, g).value).id in LostNames(e, defs, g);
  }

  lemma MentionedIn(e: Sql, s: set<nat>) returns (n: nat)
    requires Mentions(e, s)
    ensures n in s && Name(n) in e
  {
    n :| n in s && Name(n) in e;
  }

  // ----- Inputs on which it does not return a text

  /** A name for which there is no table. */
  lemma UndefinedGivesNothing(depth: nat)
    ensures RecBuildSql([Name(1)], [], depth) == Nothing
  {
  }

  /** A table that mentions itself. */
  function Ouroboros(): VTable {
    VTable(1, "op", [Name(1)], false)
  }

  lemma FindsItself(n: nat)
    ensures Find([Ouroboros()], n) == if n == 1 then Some(Ouroboros()) else None
    ensures forall m :: Name(m) in Ouroboros().args <==> m == 1
  {
    assert Name(1) in Ouroboros().args;
    if n != 1 {
      assert Find([Ouroboros()], n) == Find([], n);
    }
  }

  lemma CircularIsTooDeep(depth: nat)
    ensures RecBuildSql([Name(1)], [Ouroboros()], depth) == TooDeep
  {
    hide *;
    NamesItself();
    EndlessNeverReturns([Name(1)], [Ouroboros()], {1}, depth);
  }

  lemma NamesItself()
    ensures Closed([Name(1)], [Ouroboros()]) && Endless([Ouroboros()], {1}) && Mentions([Name(1)], {1})
  {
    hide Find, Ouroboros;
    forall n
      ensures Find([Ouroboros()], n) == if n == 1 then Some(Ouroboros()) else None
      ensures forall m :: Name(m) in Ouroboros().args <==> m == 1
    {
      FindsItself(n);
    }
    assert Name(1) in [Name(1)];
  }
}
