/**
 The text that `rec_build_sql` builds, token by token: a name becomes the call of the first table of
 that name, with its arguments built likewise, and anything else stays.
 */
module BuildText {
  import opened Wrappers
  import opened VirtualTables
  import opened BuildSql
  import opened BuildOutcomes

  /** The rewrite of the query returns this text, if it may go deep enough. */
  ghost predicate Builds(e: Sql, defs: seq<VTable>, sql: Sql) {
    exists depth: nat :: RecBuildSql(e, defs, depth) == Built(sql)
  }

  /** The table at place `i` is the first of that name. */
  predicate FirstOf(defs: seq<VTable>, n: nat, i: nat) {
    i < |defs| && defs[i].name == n && forall j :: 0 <= j < i ==> defs[j].name != n
  }

  lemma {:induction false} FindIsFirst(defs: seq<VTable>, n: nat)
    ensures Find(defs, n).Some? <==> exists i: nat :: FirstOf(defs, n, i)
    ensures forall i: nat :: FirstOf(defs, n, i) ==> Find(defs, n) == Some(defs[i])
  {
    if defs != [] {
      FindIsFirst(defs[1..], n);
      if defs[0].name == n {
        assert FirstOf(defs, n, 0);
      }
      if i: nat :| FirstOf(defs[1..], n, i) {
        assert defs[0].name != n ==> FirstOf(defs, n, i + 1);
      }
      forall i: nat | FirstOf(defs, n, i)
        ensures Find(defs, n) == Some(defs[i])
      {
        if i > 0 {
          assert FirstOf(defs[1..], n, i - 1);
        }
      }
    }
  }

  // ----- As a complete unfolding

  /** The complete unfolding, if all names bottom out. */
  ghost function Whole(e: Sql, defs: seq<VTable>, k: nat): Option<Sql>
    requires Settled(defs, k)
  {
    if Outside(e, Grounded(defs, k)).None? then
      InOrder(e, defs, k);
      Unfold(e, defs, Grounded(defs, k), LevelIn(defs, k), k + 1)
    else None
  }

  lemma InOrder(e: Sql, defs: seq<VTable>, k: nat)
    requires Settled(defs, k) && Outside(e, Grounded(defs, k)).None?
    ensures Ranked(defs, Grounded(defs, k), LevelIn(defs, k)) && Below(e, Grounded(defs, k), LevelIn(defs, k), k + 1)
  {
    hide *;
    var depth := GroundedBuilds(e, defs, k);
  }

  lemma BuildsWhole(e: Sql, defs: seq<VTable>, k: nat, sql: Sql)
    requires Settled(defs, k)
    ensures Builds(e, defs, sql) <==> Whole(e, defs, k) == Some(sql)
  {
    hide *;
    WholeIs(e, defs, k);
    Outcomes(e, defs, k);
    if Outside(e, Grounded(defs, k)).None? {
      var d := GroundedBuilds(e, defs, k);
      BuiltAt(e, defs, d, RecBuildSql(e, defs, d).sql);
      if Builds(e, defs, sql) {
        var d' := BuiltWhere(e, defs, sql);
        DepthIrrelevant(e, defs, d, d');
      }
    } else if Builds(e, defs, sql) {
      var d := BuiltWhere(e, defs, sql);
      OutsideNeverBuilt(e, defs, k, d);
    }
  }

  lemma WholeIs(e: Sql, defs: seq<VTable>, k: nat)
    requires Settled(defs, k)
    ensures Outside(e, Grounded(defs, k)).Some? ==> Whole(e, defs, k) == None
    ensures Outside(e, Grounded(defs, k)).None? ==>
              && Ranked(defs, Grounded(defs, k), LevelIn(defs, k))
              && Below(e, Grounded(defs, k), LevelIn(defs, k), k + 1)
              && Whole(e, defs, k) == Unfold(e, defs, Grounded(defs, k), LevelIn(defs, k), k + 1)
  {
    hide Outside, Unfold, Grounded, Settled, Below, Ranked;
    if Outside(e, Grounded(defs, k)).None? {
      InOrder(e, defs, k);
    }
  }

  lemma BuiltAt(e: Sql, defs: seq<VTable>, depth: nat, sql: Sql)
    requires RecBuildSql(e, defs, depth) == Built(sql)
    ensures Builds(e, defs, sql)
  {
  }

  lemma BuiltWhere(e: Sql, defs: seq<VTable>, sql: Sql) returns (depth: nat)
    requires Builds(e, defs, sql)
    ensures RecBuildSql(e, defs, depth) == Built(sql)
  {
    depth :| RecBuildSql(e, defs, depth) == Built(sql);
  }

  lemma WholeConcat(a: Sql, b: Sql, defs: seq<VTable>, k: nat)
    requires Settled(defs, k)
    ensures Whole(a + b, defs, k) == Join(Whole(a, defs, k), Whole(b, defs, k))
  {
    hide *;
    OutsideConcat(a, b, Grounded(defs, k));
    WholeIs(a, defs, k);
    WholeIs(b, defs, k);
    WholeIs(a + b, defs, k);
    JoinNone(Whole(a, defs, k), Whole(b, defs, k));
    if Outside(a + b, Grounded(defs, k)).None? {
      Concat(a, b, defs, Grounded(defs, k), LevelIn(defs, k), k + 1);
    }
  }

  lemma JoinNone(a: Option<Sql>, b: Option<Sql>)
    ensures Join(a, b).Some? <==> a.Some? && b.Some?
    ensures a.Some? && b.Some? ==> Join(a, b) == Some(a.value + b.value)
  {
  }

  lemma WholeToken(t: Token, defs: seq<VTable>, k: nat)
    requires Settled(defs, k) && !t.Name?
    ensures Whole([t], defs, k) == Some([t])
  {
    hide *;
    OutsideOther(t, Grounded(defs, k));
    WholeIs([t], defs, k);
    Singleton(t, defs, Grounded(defs, k), LevelIn(defs, k), k + 1);
    TokenUnfolds(t, defs, Grounded(defs, k), LevelIn(defs, k), k + 1);
  }

  lemma OutsideOther(t: Token, g: set<nat>)
    ensures !t.Name? ==> Outside([t], g).None?
  {
    assert [t][1..] == [];
  }

  lemma TokenUnfolds(t: Token, defs: seq<VTable>, g: set<nat>, rank: nat -> nat, bound: nat)
    requires Ranked(defs, g, rank) && Below([t], g, rank, bound) && !t.Name?
    ensures UnfoldToken(t, defs, g, rank, bound) == Some([t])
  {
  }

  lemma OutsideName(n: nat, g: set<nat>)
    ensures Outside([Name(n)], g).None? <==> n in g
  {
    assert [Name(n)][1..] == [];
    assert Name(n) in [Name(n)];
  }

  lemma WholeCall(v: VTable, defs: seq<VTable>, k: nat)
    requires Settled(defs, k)
    ensures Whole(Expansion(v), defs, k) ==
              Join(Join(Some([Text("(select * from " + v.op + "(")]), Whole(v.args, defs, k)),
                   Some([Text(")) as "), Alias(v.name)]))
  {
    hide *;
    var head, tail: Sql := [Text("(select * from " + v.op + "(")], [Text(")) as "), Alias(v.name)];
    CallParts(v);
    WholeConcat(head + v.args, tail, defs, k);
    WholeConcat(head, v.args, defs, k);
    WholeToken(Text("(select * from " + v.op + "("), defs, k);
    WholeToken(Text(")) as "), defs, k);
    WholeToken(Alias(v.name), defs, k);
    WholeConcat([Text(")) as ")], [Alias(v.name)], defs, k);
    assert tail == [Text(")) as ")] + [Alias(v.name)];
    JoinNone(Some([Text(")) as ")]), Some([Alias(v.name)]));
  }

  lemma CallParts(v: VTable)
    ensures Expansion(v) == [Text("(select * from " + v.op + "(")] + v.args + [Text(")) as "), Alias(v.name)]
  {
  }

  lemma WholeName(n: nat, defs: seq<VTable>, k: nat)
    requires Settled(defs, k)
    ensures Whole([Name(n)], defs, k) ==
              if Find(defs, n).Some? then Whole(Expansion(Find(defs, n).value), defs, k) else None
  {
    hide *;
    var g, rank := Grounded(defs, k), LevelIn(defs, k);
    OutsideName(n, g);
    SettledMentions(defs, k, n);
    WholeIs([Name(n)], defs, k);
    if Find(defs, n).Some? {
      var v := Find(defs, n).value;
      ExpansionOutside(v, g);
      WholeIs(Expansion(v), defs, k);
      if n in g {
        Singleton(Name(n), defs, g, rank, k + 1);
        NameUnfolds(n, defs, g, rank, k + 1);
        ExpansionBelow(n, defs, g, rank);
        BoundIrrelevant(Expansion(v), defs, g, rank, rank(n), k + 1);
      }
    }
  }

  lemma NameUnfolds(n: nat, defs: seq<VTable>, g: set<nat>, rank: nat -> nat, bound: nat)
    requires Ranked(defs, g, rank) && Below([Name(n)], g, rank, bound) && n in g && Find(defs, n).Some?
    ensures Below(Expansion(Find(defs, n).value), g, rank, rank(n))
    ensures UnfoldToken(Name(n), defs, g, rank, bound) == Unfold(Expansion(Find(defs, n).value), defs, g, rank, rank(n))
  {
    hide Unfold, Expansion, Find;
    ExpansionBelow(n, defs, g, rank);
  }

  // ----- What is built, with nothing but `Builds`

  /** Nothing else is built for the same query. */
  lemma BuildsOneText(e: Sql, defs: seq<VTable>, sql: Sql, sql': Sql)
    requires Builds(e, defs, sql) && Builds(e, defs, sql')
    ensures sql == sql'
  {
    hide RecBuildSql, Whole;
    var k := GroundedSettles(defs, 0);
    SettledIs(defs, k);
    BuildsWhole(e, defs, k, sql);
    BuildsWhole(e, defs, k, sql');
  }

  /** A token that is no name stays, and so does nothing at all. */
  lemma OtherTokenStays(t: Token, defs: seq<VTable>, sql: Sql)
    ensures !t.Name? ==> (Builds([t], defs, sql) <==> sql == [t])
    ensures Builds([], defs, sql) <==> sql == []
  {
    hide *;
    var k := GroundedSettles(defs, 0);
    SettledIs(defs, k);
    if !t.Name? {
      BuildsWhole([t], defs, k, sql);
      WholeToken(t, defs, k);
    }
    NothingBuilt(defs);
    if Builds([], defs, sql) {
      BuildsOneText([], defs, sql, []);
    }
  }

  lemma NothingBuilt(defs: seq<VTable>)
    ensures Builds([], defs, [])
  {
    assert RecBuildSql([], defs, 0) == Built([]);
  }

  /** One part after the other. */
  lemma PartsBuilt(a: Sql, b: Sql, defs: seq<VTable>, sql: Sql)
    ensures Builds(a + b, defs, sql) <==> exists x, y :: Builds(a, defs, x) && Builds(b, defs, y) && sql == x + y
  {
    hide *;
    var k := GroundedSettles(defs, 0);
    SettledIs(defs, k);
    BuildsWhole(a + b, defs, k, sql);
    WholeConcat(a, b, defs, k);
    JoinNone(Whole(a, defs, k), Whole(b, defs, k));
    forall x, y
      ensures Builds(a, defs, x) <==> Whole(a, defs, k) == Some(x)
      ensures Builds(b, defs, y) <==> Whole(b, defs, k) == Some(y)
    {
      BuildsWhole(a, defs, k, x);
      BuildsWhole(b, defs, k, y);
    }
    if Builds(a + b, defs, sql) {
      var x, y := Whole(a, defs, k).value, Whole(b, defs, k).value;
      assert Builds(a, defs, x) && Builds(b, defs, y) && sql == x + y;
    }
  }

  /** The call that stands for a name, around what its arguments come to. */
  ghost predicate IsCall(n: nat, defs: seq<VTable>, i: nat, inner: Sql, sql: Sql) {
    && FirstOf(defs, n, i) && Builds(defs[i].args, defs, inner)
    && sql == [Text("(select * from " + defs[i].op + "(")] + inner + [Text(")) as "), Alias(n)]
  }

  /** A name becomes its call; one that no table has builds nothing. */
  lemma NameBuilt(n: nat, defs: seq<VTable>, sql: Sql)
    ensures Builds([Name(n)], defs, sql) <==> exists i: nat, inner :: IsCall(n, defs, i, inner, sql)
  {
    hide *;
    var k := GroundedSettles(defs, 0);
    SettledIs(defs, k);
    BuildsWhole([Name(n)], defs, k, sql);
    WholeName(n, defs, k);
    FindIsFirst(defs, n);
    if Find(defs, n).Some? {
      var v := Find(defs, n).value;
      WholeCall(v, defs, k);
      var i: nat :| FirstOf(defs, n, i);
      FirstIs(defs, n, i);
      forall inner
        ensures Builds(v.args, defs, inner) <==> Whole(v.args, defs, k) == Some(inner)
      {
        BuildsWhole(v.args, defs, k, inner);
      }
      CallJoined(v, Whole(v.args, defs, k));
      if Builds([Name(n)], defs, sql) {
        IsCallBy(n, defs, i, Whole(v.args, defs, k).value, sql);
      }
    }
    if j: nat, inner :| IsCall(n, defs, j, inner, sql) {
      CallIs(n, defs, j, inner, sql);
    }
  }

  lemma CallJoined(v: VTable, inner: Option<Sql>)
    ensures Join(Join(Some([Text("(select * from " + v.op + "(")]), inner), Some([Text(")) as "), Alias(v.name)])) ==
              if inner.None? then None
              else Some([Text("(select * from " + v.op + "(")] + inner.value + [Text(")) as "), Alias(v.name)])
  {
  }

  lemma FirstIs(defs: seq<VTable>, n: nat, i: nat)
    requires FirstOf(defs, n, i)
    ensures i < |defs| && defs[i].name == n
  {
  }

  lemma IsCallBy(n: nat, defs: seq<VTable>, i: nat, inner: Sql, sql: Sql)
    requires FirstOf(defs, n, i) && i < |defs| && Builds(defs[i].args, defs, inner)
    requires sql == [Text("(select * from " + defs[i].op + "(")] + inner + [Text(")) as "), Alias(n)]
    ensures IsCall(n, defs, i, inner, sql)
  {
    hide Builds;
  }

  lemma CallIs(n: nat, defs: seq<VTable>, i: nat, inner: Sql, sql: Sql)
    requires IsCall(n, defs, i, inner, sql)
    ensures FirstOf(defs, n, i) && i < |defs| && defs[i].name == n && Builds(defs[i].args, defs, inner)
    ensures sql == [Text("(select * from " + defs[i].op + "(")] + inner + [Text(")) as "), Alias(n)]
  {
    hide Builds;
  }
}
