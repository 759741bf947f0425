/**
 `rec_build_sql` of `functions/__init__.py`: virtual-table names in a rewritten query are
 replaced by the calls they stand for, over and over, until none is left.
 */
module BuildSql {
  import opened Wrappers
  import opened VirtualTables

  /** The first name, as `re.search` finds it. */
  function FirstName(e: Sql): (n: Option<nat>)
    ensures n.Some? ==> Name(n.value) in e
    ensures n.None? ==> forall id :: Name(id) !in e
  {
    if e == [] then None
    else if e[0].Name? then Some(e[0].id)
    else FirstName(e[1..])
  }

  /** The first table of that name, as the loop over the list finds it. */
  function Find(defs: seq<VTable>, name: nat): (v: Option<VTable>)
    ensures v.Some? ==> v.value in defs && v.value.name == name
    ensures v.None? <==> forall i :: 0 <= i < |defs| ==> defs[i].name != name
  {
    if defs == [] then None
    else if defs[0].name == name then Some(defs[0])
    else Find(defs[1..], name)
  }

  /** `(select * from op(args)) as table_N` */
  function Expansion(v: VTable): Sql {
    [Text("(select * from " + v.op + "(")] + v.args + [Text(")) as "), Alias(v.name)]
  }

  /** Every occurrence of the name replaced, as `re.sub` does. */
  function Subst(e: Sql, name: nat, body: Sql): Sql {
    if e == [] then []
    else (if e[0] == Name(name) then body else [e[0]]) + Subst(e[1..], name, body)
  }

  /**
   An undefined name falls out of the loop, and the function returns nothing; recursion is bounded by
   the interpreter.
   */
  datatype Outcome = Built(sql: Sql) | Nothing | TooDeep

  function RecBuildSql(e: Sql, defs: seq<VTable>, depth: nat): Outcome
    decreases depth
  {
    match FirstName(e)
    case None => Built(e)
    case Some(n) =>
      match Find(defs, n)
      case None => Nothing
      case Some(v) =>
        var e' := Subst(e, n, Expansion(v));
        if FirstName(e').None? then Built(e')
        else if depth == 0 then TooDeep
        else RecBuildSql(e', defs, depth - 1)
  }

  // ----- The complete unfolding

  ghost predicate Within(e: Sql, names: set<nat>) {
    forall n :: Name(n) in e ==> n in names
  }

  /** Among `names`, definitions stay inside and go downhill: what a table mentions ranks below it. */
  ghost predicate Ranked(defs: seq<VTable>, names: set<nat>, rank: nat -> nat) {
    forall n, m :: n in names && Find(defs, n).Some? && Name(m) in Find(defs, n).value.args ==>
      m in names && rank(m) < rank(n)
  }

  ghost predicate Below(e: Sql, names: set<nat>, rank: nat -> nat, bound: nat) {
    forall n :: Name(n) in e ==> n in names && rank(n) < bound
  }

  /** Every name replaced by its call, inside out; none if a name on the way is undefined. */
  ghost function Unfold(e: Sql, defs: seq<VTable>, names: set<nat>, rank: nat -> nat, bound: nat): Option<Sql>
    requires Ranked(defs, names, rank) && Below(e, names, rank, bound)
    decreases bound, |e|
  {
    if e == [] then Some([])
    else Join(UnfoldToken(e[0], defs, names, rank, bound), Unfold(e[1..], defs, names, rank, bound))
  }

  ghost function UnfoldToken(t: Token, defs: seq<VTable>, names: set<nat>, rank: nat -> nat, bound: nat): Option<Sql>
    requires Ranked(defs, names, rank) && Below([t], names, rank, bound)
    decreases bound, 0
  {
    match t
    case Name(n) =>
      assert t in [t];
      (match Find(defs, n)
       case None => None
       case Some(v) => ExpansionBelow(n, defs, names, rank); Unfold(Expansion(v), defs, names, rank, rank(n)))
    case _ => Some([t])
  }

  function Join(a: Option<Sql>, b: Option<Sql>): Option<Sql> {
    if a.Some? && b.Some? then Some(a.value + b.value) else None
  }

  lemma ExpansionBelow(n: nat, defs: seq<VTable>, names: set<nat>, rank: nat -> nat)
    requires n in names && Find(defs, n).Some? && Ranked(defs, names, rank)
    ensures Below(Expansion(Find(defs, n).value), names, rank, rank(n))
  {
  }

  /** How much substitution an expression still needs: one for each name in its complete unfolding. */
  ghost function Weight(e: Sql, defs: seq<VTable>, names: set<nat>, rank: nat -> nat, bound: nat): nat
    requires Ranked(defs, names, rank) && Below(e, names, rank, bound)
    decreases bound, |e|
  {
    if e == [] then 0 else TokenWeight(e[0], defs, names, rank, bound) + Weight(e[1..], defs, names, rank, bound)
  }

  ghost function TokenWeight(t: Token, defs: seq<VTable>, names: set<nat>, rank: nat -> nat, bound: nat): nat
    requires Ranked(defs, names, rank) && Below([t], names, rank, bound)
    decreases bound, 0
  {
    match t
    case Name(n) =>
      assert t in [t];
      1 + (match Find(defs, n)
           case None => 0
           case Some(v) => ExpansionBelow(n, defs, names, rank); Weight(Expansion(v), defs, names, rank, rank(n)))
    case _ => 0
  }

  lemma {:induction false} BoundIrrelevant(e: Sql, defs: seq<VTable>, names: set<nat>, rank: nat -> nat, b: nat, c: nat)
    requires Ranked(defs, names, rank) && Below(e, names, rank, b) && Below(e, names, rank, c)
    ensures Unfold(e, defs, names, rank, b) == Unfold(e, defs, names, rank, c)
    ensures Weight(e, defs, names, rank, b) == Weight(e, defs, names, rank, c)
  {
    if e != [] {
      BoundIrrelevant(e[1..], defs, names, rank, b, c);
    }
  }

  lemma JoinAssociative(a: Option<Sql>, b: Option<Sql>, c: Option<Sql>)
    ensures Join(Join(a, b), c) == Join(a, Join(b, c))
    ensures Join(Some([]), a) == a == Join(a, Some([]))
  {
    if a.Some? && b.Some? && c.Some? {
      assert (a.value + b.value) + c.value == a.value + (b.value + c.value);
    }
    if a.Some? {
      assert [] + a.value == a.value == a.value + [];
    }
  }

  lemma {:induction false} Concat(a: Sql, b: Sql, defs: seq<VTable>, names: set<nat>, rank: nat -> nat, bound: nat)
    requires Ranked(defs, names, rank) && Below(a, names, rank, bound) && Below(b, names, rank, bound)
    ensures Below(a + b, names, rank, bound)
    ensures Unfold(a + b, defs, names, rank, bound) ==
              Join(Unfold(a, defs, names, rank, bound), Unfold(b, defs, names, rank, bound))
    ensures Weight(a + b, defs, names, rank, bound) ==
              Weight(a, defs, names, rank, bound) + Weight(b, defs, names, rank, bound)
  {
    if a == [] {
      assert a + b == b;
      JoinAssociative(Unfold(b, defs, names, rank, bound), None, None);
    } else {
      Concat(a[1..], b, defs, names, rank, bound);
      assert (a + b)[0] == a[0] && (a + b)[1..] == a[1..] + b;
      JoinAssociative(UnfoldToken(a[0], defs, names, rank, bound), Unfold(a[1..], defs, names, rank, bound),
        Unfold(b, defs, names, rank, bound));
    }
  }

  /** Replacing a name by its call changes nothing about the complete unfolding, and leaves less to do. */
  lemma {:induction false} SubstUnfolds(e: Sql, n: nat, defs: seq<VTable>, names: set<nat>, rank: nat -> nat,
      bound: nat)
    requires Ranked(defs, names, rank) && Below(e, names, rank, bound)
    requires n in names && rank(n) < bound && Find(defs, n).Some?
    ensures var e' := Subst(e, n, Expansion(Find(defs, n).value));
            && Below(e', names, rank, bound)
            && Unfold(e', defs, names, rank, bound) == Unfold(e, defs, names, rank, bound)
            && Weight(e', defs, names, rank, bound) <= Weight(e, defs, names, rank, bound)
            && (Name(n) in e ==> Weight(e', defs, names, rank, bound) < Weight(e, defs, names, rank, bound))
  {
    if e != [] {
      var body := Expansion(Find(defs, n).value);
      SubstUnfolds(e[1..], n, defs, names, rank, bound);
      ExpansionBelow(n, defs, names, rank);
      assert Below([e[0]], names, rank, bound);
      var head := if e[0] == Name(n) then body else [e[0]];
      Concat(head, Subst(e[1..], n, body), defs, names, rank, bound);
      if e[0] == Name(n) {
        BoundIrrelevant(body, defs, names, rank, bound, rank(n));
      } else {
        Singleton(e[0], defs, names, rank, bound);
      }
    }
  }

  lemma Singleton(t: Token, defs: seq<VTable>, names: set<nat>, rank: nat -> nat, bound: nat)
    requires Ranked(defs, names, rank) && Below([t], names, rank, bound)
    ensures Unfold([t], defs, names, rank, bound) == UnfoldToken(t, defs, names, rank, bound)
    ensures Weight([t], defs, names, rank, bound) == TokenWeight(t, defs, names, rank, bound)
  {
    JoinAssociative(UnfoldToken(t, defs, names, rank, bound), None, None);
    assert [t][1..] == [];
  }

  lemma {:induction false} NameFree(e: Sql, defs: seq<VTable>, names: set<nat>, rank: nat -> nat, bound: nat)
    requires Ranked(defs, names, rank) && Below(e, names, rank, bound)
    ensures FirstName(e).None? ==> Unfold(e, defs, names, rank, bound) == Some(e)
    ensures FirstName(e).None? <==> Weight(e, defs, names, rank, bound) == 0
    ensures forall n :: Name(n) in e && Find(defs, n).None? ==> Unfold(e, defs, names, rank, bound).None?
  {
    if e != [] {
      NameFree(e[1..], defs, names, rank, bound);
      assert e == [e[0]] + e[1..];
    }
  }

  /** The complete unfolding has no name left in it. */
  lemma {:induction false} UnfoldedIsNameFree(e: Sql, defs: seq<VTable>, names: set<nat>, rank: nat -> nat, bound: nat)
    requires Ranked(defs, names, rank) && Below(e, names, rank, bound)
    ensures Unfold(e, defs, names, rank, bound).Some? ==> FirstName(Unfold(e, defs, names, rank, bound).value).None?
    decreases bound, |e|
  {
    if e != [] && Unfold(e, defs, names, rank, bound).Some? {
      UnfoldedIsNameFree(e[1..], defs, names, rank, bound);
      assert e[0] in e;
      assert UnfoldToken(e[0], defs, names, rank, bound).Some?;
      if e[0].Name? {
        var n := e[0].id;
        ExpansionBelow(n, defs, names, rank);
        UnfoldedIsNameFree(Expansion(Find(defs, n).value), defs, names, rank, rank(n));
      }
    }
  }

  /** One round of the rewrite. */
  lemma OneRound(e: Sql, defs: seq<VTable>, depth: nat)
    requires FirstName(e).Some? && Find(defs, FirstName(e).value).Some?
    ensures var e' := Subst(e, FirstName(e).value, Expansion(Find(defs, FirstName(e).value).value));
            RecBuildSql(e, defs, depth) ==
            if FirstName(e').None? then Built(e') else if depth == 0 then TooDeep else RecBuildSql(e', defs, depth - 1)
  {
  }

  lemma NoRound(e: Sql, defs: seq<VTable>, depth: nat)
    ensures FirstName(e).None? ==> RecBuildSql(e, defs, depth) == Built(e)
    ensures FirstName(e).Some? && Find(defs, FirstName(e).value).None? ==> RecBuildSql(e, defs, depth) == Nothing
  {
  }

  lemma BelowFirst(e: Sql, names: set<nat>, rank: nat -> nat, bound: nat)
    requires Below(e, names, rank, bound) && FirstName(e).Some?
    ensures FirstName(e).value in names && rank(FirstName(e).value) < bound
  {
  }

  /** With ranked definitions the rewrite returns: the complete unfolding, or nothing if a name in it is undefined. */
  lemma {:induction false} BuildIsUnfold(e: Sql, defs: seq<VTable>, names: set<nat>, rank: nat -> nat,
      bound: nat, depth: nat)
    requires Ranked(defs, names, rank) && Below(e, names, rank, bound)
    requires depth >= Weight(e, defs, names, rank, bound)
    ensures RecBuildSql(e, defs, depth) == match Unfold(e, defs, names, rank, bound)
                                           case Some(sql) => Built(sql)
                                           case None => Nothing
    decreases depth
  {
    hide *;
    NameFree(e, defs, names, rank, bound);
    NoRound(e, defs, depth);
    if FirstName(e).Some? {
      var n := FirstName(e).value;
      BelowFirst(e, names, rank, bound);
      if Find(defs, n).Some? {
        OneRound(e, defs, depth);
        SubstUnfolds(e, n, defs, names, rank, bound);
        var e' := Subst(e, n, Expansion(Find(defs, n).value));
        NameFree(e', defs, names, rank, bound);
        if FirstName(e').Some? {
          BuildIsUnfold(e', defs, names, rank, bound, depth - 1);
        }
      }
    }
  }

  /** Substituting names one after the other, in any order, some of them perhaps absent by then. */
  function SubstAll(e: Sql, defs: seq<VTable>, order: seq<nat>): Sql
    requires forall n :: n in order ==> Find(defs, n).Some?
    decreases |order|
  {
    if order == [] then e
    else SubstAll(Subst(e, order[0], Expansion(Find(defs, order[0]).value)), defs, order[1..])
  }

  /** Whatever order names are replaced in, a text with no name left is the complete unfolding. */
  lemma {:induction false} AnyOrder(e: Sql, defs: seq<VTable>, names: set<nat>, rank: nat -> nat, bound: nat,
      order: seq<nat>)
    requires Ranked(defs, names, rank) && Below(e, names, rank, bound)
    requires forall n :: n in order ==> Find(defs, n).Some? && n in names && rank(n) < bound
    ensures FirstName(SubstAll(e, defs, order)).None? ==>
              Unfold(e, defs, names, rank, bound) == Some(SubstAll(e, defs, order))
    decreases |order|
  {
    NameFree(e, defs, names, rank, bound);
    if order != [] {
      SubstUnfolds(e, order[0], defs, names, rank, bound);
      AnyOrder(Subst(e, order[0], Expansion(Find(defs, order[0]).value)), defs, names, rank, bound, order[1..]);
    }
  }

  // ----- When the rewrite returns

  /** Names that never bottom out: each mentions another of them. */
  ghost predicate Endless(defs: seq<VTable>, s: set<nat>) {
    forall n :: n in s ==> Find(defs, n).Some? && exists m :: m in s && Name(m) in Find(defs, n).value.args
  }

  ghost predicate Mentions(e: Sql, s: set<nat>) {
    exists n :: n in s && Name(n) in e
  }

  /** Everything mentioned is defined. */
  ghost predicate Closed(e: Sql, defs: seq<VTable>) {
    && (forall n :: Name(n) in e ==> Find(defs, n).Some?)
    && (forall n, m :: Find(defs, n).Some? && Name(m) in Find(defs, n).value.args ==> Find(defs, m).Some?)
  }

  lemma {:induction false} SubstMembers(e: Sql, n: nat, body: Sql, t: Token)
    ensures t in Subst(e, n, body) <==> (t in e && t != Name(n)) || (Name(n) in e && t in body)
  {
    if e != [] {
      SubstMembers(e[1..], n, body, t);
      assert e == [e[0]] + e[1..];
    }
  }

  lemma SubstStaysClosed(e: Sql, defs: seq<VTable>, n: nat)
    requires Closed(e, defs) && Find(defs, n).Some?
    ensures Closed(Subst(e, n, Expansion(Find(defs, n).value)), defs)
  {
    var body := Expansion(Find(defs, n).value);
    forall m | Name(m) in Subst(e, n, body)
      ensures Find(defs, m).Some?
    {
      SubstMembers(e, n, body, Name(m));
    }
  }

  lemma ExpansionMentions(v: VTable, m: nat)
    requires Name(m) in v.args
    ensures Name(m) in Expansion(v)
  {
  }

  lemma SubstStaysEndless(e: Sql, defs: seq<VTable>, s: set<nat>, n: nat)
    requires Endless(defs, s) && Mentions(e, s) && Find(defs, n).Some?
    ensures Mentions(Subst(e, n, Expansion(Find(defs, n).value)), s)
  {
    hide Subst, Expansion, Find;
    var m :| m in s && Name(m) in e;
    if m == n {
      m :| m in s && Name(m) in Find(defs, n).value.args;
      ExpansionMentions(Find(defs, n).value, m);
    }
    SubstMembers(e, n, Expansion(Find(defs, n).value), Name(m));
  }

  lemma MentionsHasName(e: Sql, s: set<nat>)
    requires Mentions(e, s)
    ensures FirstName(e).Some?
  {
  }

  lemma ClosedFirst(e: Sql, defs: seq<VTable>)
    requires Closed(e, defs) && FirstName(e).Some?
    ensures Find(defs, FirstName(e).value).Some?
  {
  }

  /** A query that mentions endless names is rewritten until the interpreter gives up, however deep that is. */
  lemma {:induction false} EndlessNeverReturns(e: Sql, defs: seq<VTable>, s: set<nat>, depth: nat)
    requires Closed(e, defs) && Endless(defs, s) && Mentions(e, s)
    ensures RecBuildSql(e, defs, depth) == TooDeep
    decreases depth
  {
    hide *;
    MentionsHasName(e, s);
    ClosedFirst(e, defs);
    var n := FirstName(e).value;
    var e' := Subst(e, n, Expansion(Find(defs, n).value));
    SubstStaysClosed(e, defs, n);
    SubstStaysEndless(e, defs, s, n);
    MentionsHasName(e', s);
    OneRound(e, defs, depth);
    if depth > 0 {
      EndlessNeverReturns(e', defs, s, depth - 1);
    }
  }

  ghost function Defined(defs: seq<VTable>): set<nat> {
    set v | v in defs :: v.name
  }

  /** The names whose unfolding is at most `k` calls deep. */
  ghost function Grounded(defs: seq<VTable>, k: nat): (s: set<nat>)
    ensures s <= Defined(defs)
  {
    if k == 0 then {}
    else set n | n in Defined(defs) && Find(defs, n).Some? && forall m :: Name(m) in Find(defs, n).value.args ==>
      m in Grounded(defs, k - 1)
  }

  lemma {:induction false} GroundedGrows(defs: seq<VTable>, k: nat)
    ensures Grounded(defs, k) <= Grounded(defs, k + 1)
  {
    if k > 0 {
      GroundedGrows(defs, k - 1);
    }
  }

  lemma {:induction false} GroundedSettles(defs: seq<VTable>, k: nat) returns (j: nat)
    ensures Grounded(defs, j) == Grounded(defs, j + 1)
    decreases |Defined(defs)| - |Grounded(defs, k)|
  {
    GroundedGrows(defs, k);
    if Grounded(defs, k) == Grounded(defs, k + 1) {
      return k;
    }
    Smaller(Grounded(defs, k), Grounded(defs, k + 1));
    Smaller(Grounded(defs, k + 1), Defined(defs));
    j := GroundedSettles(defs, k + 1);
  }

  lemma {:induction false} Smaller(a: set<nat>, b: set<nat>)
    requires a <= b
    ensures |a| <= |b| && (a != b ==> |a| < |b|)
  {
    if a != {} {
      var x :| x in a;
      Smaller(a - {x}, b - {x});
    } else if b != {} {
      var x :| x in b;
      assert |b| == |b - {x}| + 1;
    }
  }

  /** How deep a grounded name's unfolding goes. */
  ghost function Level(defs: seq<VTable>, n: nat, k: nat): (l: nat)
    ensures l <= k
    ensures n in Grounded(defs, k) ==> n in Grounded(defs, l) && l > 0
    ensures forall i :: 0 <= i < l ==> n !in Grounded(defs, i)
  {
    if k == 0 then 0 else if n in Grounded(defs, k - 1) then Level(defs, n, k - 1) else (Ungrounded(defs, n, k - 1); k)
  }

  lemma {:induction false} Ungrounded(defs: seq<VTable>, n: nat, k: nat)
    requires n !in Grounded(defs, k)
    ensures forall i :: 0 <= i <= k ==> n !in Grounded(defs, i)
  {
    hide *;
    if k > 0 {
      GroundedGrows(defs, k - 1);
      Ungrounded(defs, n, k - 1);
    }
  }

  ghost function LevelIn(defs: seq<VTable>, k: nat): nat -> nat {
    n => Level(defs, n, k)
  }

  lemma GroundedMention(defs: seq<VTable>, k: nat, n: nat, m: nat)
    requires n in Grounded(defs, k) && k > 0 && Find(defs, n).Some? && Name(m) in Find(defs, n).value.args
    ensures m in Grounded(defs, k - 1)
  {
  }

  /** Definitions of grounded names go downhill. */
  lemma GroundedRanked(defs: seq<VTable>, k: nat)
    ensures Ranked(defs, Grounded(defs, k), LevelIn(defs, k))
  {
    hide Grounded, Level, Find;
    forall n, m | n in Grounded(defs, k) && Find(defs, n).Some? && Name(m) in Find(defs, n).value.args
      ensures m in Grounded(defs, k) && LevelIn(defs, k)(m) < LevelIn(defs, k)(n)
    {
      var l := Level(defs, n, k);
      GroundedMention(defs, l, n, m);
      assert m in Grounded(defs, l - 1);
      if m !in Grounded(defs, k) {
        Ungrounded(defs, m, k);
      }
      var _ := Level(defs, m, k);
    }
  }
}
