/**
 The top level of YeSQL's rewriter: `transform` of `sqltransform.py` with its statement
 cache, and the use `Cursor.execute` makes of it.  Parsing and the rewriting of a single
 statement are parameters: fixed, deterministic functions.
 */
module SqlTransform {
  import opened Wrappers
  import opened ItemLists
  import opened OrderedDicts
  import opened VirtualTables
  import opened BuildSql
  import opened BuildOutcomes
  import opened Statements

  const CACHE_SIZE: nat := 1000

  // ----- What a call without a cache answers

  function Permanent(vtables: seq<VTable>): seq<VTable> {
    if vtables == [] then [] else [vtables[0].(permanent := true)] + Permanent(vtables[1..])
  }

  /** One more statement of the text, after those answered so far. */
  function NextStatement(env: Engine, withOps: bool, sofar: Reply, s: Sql): Reply {
    if sofar.Failed? || env.isEmpty(s) then sofar
    else
      match env.rewrite(s)
      case Raised(inverts) => Failed(sofar.inversion || inverts)
      case Rewritten(sql, vtables, execs, inverts) =>
        var a := sofar.answer;
        Answered(Answer(a.sql + sql + [Text(";")],
                        a.vtables + (if env.isView(sql) then Permanent(vtables) else vtables),
                        a.execs + execs,
                        if withOps then a.inlineOps + [env.ops(s)] else a.inlineOps),
                 sofar.inversion || inverts)
  }

  function AllStatements(env: Engine, withOps: bool, ss: seq<Sql>): Reply {
    if ss == [] then Answered(Answer([], [], [], []), false)
    else NextStatement(env, withOps, AllStatements(env, withOps, ss[..|ss| - 1]), ss[|ss| - 1])
  }

  /** The answer to a text whose variables are filled in, computed afresh. */
  function Uncached(env: Engine, text: Sql): Reply {
    match AllStatements(env, env.hasOps(text), env.statements(text))
    case Failed(inversion) => Failed(inversion)
    case Answered(a, inversion) => Answered(a.(vtables := Distinct(a.vtables)), inversion)
  }

  // ----- What that comes to

  /** The tables collected so far, before they are merged. */
  function Collected(r: Reply): seq<VTable> {
    if r.Answered? then r.answer.vtables else []
  }

  lemma PermanentIs(vtables: seq<VTable>, view: bool)
    ensures (if view then Permanent(vtables) else vtables) == MarkedIf(vtables, view)
  {
    PermanentAt(vtables);
  }

  lemma {:induction false} PermanentAt(vtables: seq<VTable>)
    ensures |Permanent(vtables)| == |vtables|
    ensures forall i :: 0 <= i < |vtables| ==> Permanent(vtables)[i] == vtables[i].(permanent := true)
  {
    if vtables != [] {
      PermanentAt(vtables[1..]);
    }
  }

  lemma RaisesAppend(env: Engine, ss: seq<Sql>, s: Sql)
    ensures NoneRaises(env, ss + [s]) <==> NoneRaises(env, ss) && env.rewrite(s).Rewritten?
    ensures Inverts(env, ss + [s]) <==> Inverts(env, ss) || (NoneRaises(env, ss) && env.rewrite(s).inverts)
  {
    var more := ss + [s];
    assert more[|ss|] == s && more[..|ss|] == ss;
    assert forall i :: 0 <= i < |ss| ==> more[i] == ss[i] && more[..i] == ss[..i];
    if Inverts(env, ss) {
      var i :| 0 <= i < |ss| && env.rewrite(ss[i]).inverts && NoneRaises(env, ss[..i]);
      assert env.rewrite(more[i]).inverts && NoneRaises(env, more[..i]);
    }
    if NoneRaises(env, ss) && env.rewrite(s).inverts {
      assert env.rewrite(more[|ss|]).inverts && NoneRaises(env, more[..|ss|]);
    }
  }

  lemma PartsAppend(env: Engine, ss: seq<Sql>, s: Sql)
    requires NoneRaises(env, ss) && env.rewrite(s).Rewritten? && NoneRaises(env, ss + [s])
    ensures var w := env.rewrite(s);
            && Flat(Texts(env, ss + [s])) == Flat(Texts(env, ss)) + (w.sql + [Text(";")])
            && Flat(Tables(env, ss + [s])) == Flat(Tables(env, ss)) + MarkedIf(w.vtables, env.isView(w.sql))
            && Flat(Execs(env, ss + [s])) == Flat(Execs(env, ss)) + w.execs
  {
    hide Flat, MarkedIf;
    var w := env.rewrite(s);
    assert (ss + [s])[|ss|] == s;
    assert Texts(env, ss + [s]) == Texts(env, ss) + [w.sql + [Text(";")]];
    assert Tables(env, ss + [s]) == Tables(env, ss) + [MarkedIf(w.vtables, env.isView(w.sql))];
    assert Execs(env, ss + [s]) == Execs(env, ss) + [w.execs];
    FlatAppend(Texts(env, ss), w.sql + [Text(";")]);
    FlatAppend(Tables(env, ss), MarkedIf(w.vtables, env.isView(w.sql)));
    FlatAppend(Execs(env, ss), w.execs);
  }

  lemma ReplyGrows(env: Engine, withOps: bool, ss: seq<Sql>, r: Reply, s: Sql)
    requires RepliesTo(env, withOps, ss, Collected(r), r) && !env.isEmpty(s)
    ensures var r' := NextStatement(env, withOps, r, s); RepliesTo(env, withOps, ss + [s], Collected(r'), r')
  {
    hide Flat, Texts, Tables, Execs, MarkedIf, Permanent, NoneRaises, Inverts;
    RaisesAppend(env, ss, s);
    if r.Answered? && env.rewrite(s).Rewritten? {
      PartsAppend(env, ss, s);
      var w := env.rewrite(s);
      PermanentIs(w.vtables, env.isView(w.sql));
      assert forall i :: 0 <= i < |ss| ==> (ss + [s])[i] == ss[i];
    }
  }

  lemma {:induction false} StatementsReply(env: Engine, withOps: bool, ss: seq<Sql>)
    ensures var r := AllStatements(env, withOps, ss); RepliesTo(env, withOps, NonEmpty(env, ss), Collected(r), r)
  {
    hide NextStatement, RepliesTo, NonEmpty;
    if ss == [] {
      NonEmptyAppend(env, [], []);
      NothingReplied(env, withOps);
    } else {
      var before, s := ss[..|ss| - 1], ss[|ss| - 1];
      StatementsReply(env, withOps, before);
      assert before + [s] == ss;
      NonEmptyAppend(env, before, s);
      if env.isEmpty(s) {
        assert NonEmpty(env, before) + [] == NonEmpty(env, before);
        EmptyAddsNothing(env, withOps, AllStatements(env, withOps, before), s);
      } else {
        ReplyGrows(env, withOps, NonEmpty(env, before), AllStatements(env, withOps, before), s);
      }
    }
  }

  lemma EmptyAddsNothing(env: Engine, withOps: bool, r: Reply, s: Sql)
    requires env.isEmpty(s)
    ensures NextStatement(env, withOps, r, s) == r
  {
  }

  lemma NothingReplied(env: Engine, withOps: bool)
    ensures RepliesTo(env, withOps, [], [], Answered(Answer([], [], [], []), false))
  {
  }

  /** A fresh call replies to the statements of its text that are not empty, in order. */
  lemma UncachedReplies(env: Engine, text: Sql)
    ensures RepliesToText(env, text, Uncached(env, text))
  {
    hide AllStatements, NonEmpty, Distinct, Merges, RepliesTo;
    var withOps, ss := env.hasOps(text), env.statements(text);
    var r := AllStatements(env, withOps, ss);
    StatementsReply(env, withOps, ss);
    DistinctMerges(Collected(r));
    MergedReply(env, withOps, NonEmpty(env, ss), Collected(r), r, Distinct(Collected(r)));
    assert RepliesTo(env, withOps, NonEmpty(env, ss), Collected(r), Uncached(env, text));
  }

  lemma MergedReply(env: Engine, withOps: bool, ss: seq<Sql>, tables: seq<VTable>, r: Reply, merged: seq<VTable>)
    requires RepliesTo(env, withOps, ss, tables, r)
    ensures r.Answered? ==> RepliesTo(env, withOps, ss, tables, Answered(r.answer.(vtables := merged), r.inversion))
    ensures r.Failed? ==> RepliesTo(env, withOps, ss, tables, Failed(r.inversion))
  {
    hide Flat, Texts, Tables, Execs, NoneRaises, Inverts;
  }

  // ----- The cache

  type Items = seq<(Sql, (Answer, bool))>

  /** Everything cached is what a fresh call would answer. */
  ghost predicate Faithful(env: Engine, items: Items) {
    forall i :: 0 <= i < |items| ==> Uncached(env, items[i].0) == Answered(items[i].1.0, items[i].1.1)
  }

  lemma {:induction false} FaithfulLookup(env: Engine, items: Items, text: Sql)
    requires Faithful(env, items)
    ensures match Lookup(items, text)
            case Some(v) => Uncached(env, text) == Answered(v.0, v.1)
            case None => !HasKey(items, text)
  {
    LookupAbsent(items, text);
    if items != [] && items[0].0 != text {
      FaithfulLookup(env, items[1..], text);
      LookupAbsent(items[1..], text);
    }
  }

  /** The cache after a text is answered afresh: the oldest entry makes way when there are 1000. */
  function Cached(items: Items, text: Sql, reply: Reply): Items {
    match reply
    case Failed(_) => items
    case Answered(a, inversion) => (if |items| < CACHE_SIZE then items else items[1..]) + [(text, (a, inversion))]
  }

  /** The cache after a call: a hit changes nothing, not even the order. */
  function CacheAfter(env: Engine, items: Items, text: Sql): Items {
    if HasKey(items, text) then items else Cached(items, text, Uncached(env, text))
  }

  lemma CacheAfterIs(env: Engine, items: Items, text: Sql)
    ensures HasKey(items, text) ==> CacheAfter(env, items, text) == items
    ensures !HasKey(items, text) ==> CacheAfter(env, items, text) == Cached(items, text, Uncached(env, text))
    ensures forall inversion :: Cached(items, text, Failed(inversion)) == items
  {
  }

  lemma CachedIsFaithful(env: Engine, items: Items, text: Sql)
    requires Faithful(env, items) && |items| <= CACHE_SIZE && DistinctKeys(items) && !HasKey(items, text)
    ensures Faithful(env, Cached(items, text, Uncached(env, text)))
    ensures |Cached(items, text, Uncached(env, text))| <= CACHE_SIZE
    ensures Uncached(env, text).Answered? ==>
              var r := Uncached(env, text);
              var kept := if |items| < CACHE_SIZE then items else Step(items, ItemLists.PopItem(false));
              Cached(items, text, r) == Set(kept, text, (r.answer, r.inversion))
  {
    hide Uncached, Set;
    var kept := if |items| < CACHE_SIZE then items else items[1..];
    assert !HasKey(kept, text) by {
      forall i | 0 <= i < |kept|
        ensures kept[i].0 != text
      {
        assert kept[i] == items[if |items| < CACHE_SIZE then i else i + 1];
      }
    }
    if Uncached(env, text).Answered? {
      SetPlaces(kept, text, (Uncached(env, text).answer, Uncached(env, text).inversion));
    }
  }

  /** What a call returned, or that it raised, and the flag it left. */
  function ReplyOf(r: Option<Answer>, inversion: bool): (reply: Reply)
    ensures reply.inversion == inversion && (reply.Answered? <==> r.Some?) && (r.Some? ==> reply.answer == r.value)
  {
    if r.Some? then Answered(r.value, inversion) else Failed(inversion)
  }

  class Transformer {
    const env: Engine
    const statementCache: OrderedDict<Sql, (Answer, bool)>
    var inversion: bool

    ghost predicate Valid()
      reads statementCache, statementCache.Repr
    {
      && statementCache.Valid() && this !in statementCache.Repr
      && Faithful(env, statementCache.Items())
      && |statementCache.Items()| <= CACHE_SIZE
    }

    constructor (env: Engine)
      ensures this.env == env && Valid() && statementCache.Items() == [] && inversion == false
      ensures fresh(statementCache.Repr)
    {
      this.env := env;
      statementCache := new OrderedDict();
      inversion := false;
    }

    /** The loop over the statements of a text: the answer the cache is there to save. */
    method RewriteStatements(text: Sql) returns (r: Option<Answer>)
      modifies this`inversion
      ensures inversion == Uncached(env, text).inversion
      ensures r == match Uncached(env, text)
                   case Answered(a, _) => Some(a)
                   case Failed(_) => None
      ensures RepliesToText(env, text, ReplyOf(r, inversion))
    {
      hide RepliesToText, RepliesTo, Merges;
      UncachedReplies(env, text);
      inversion := false;
      var enableInlineOps := env.hasOps(text);
      var st := env.statements(text);
      var sOut: Sql, outVTables: seq<VTable>, directExec: seq<Exec>, inlineOps: seq<seq<string>> := [], [], [], [];
      for i := 0 to |st|
        invariant AllStatements(env, enableInlineOps, st[..i]) ==
                    Answered(Answer(sOut, outVTables, directExec, inlineOps), inversion)
      {
        assert st[..i + 1][..i] == st[..i];
        if !env.isEmpty(st[i]) {
          match env.rewrite(st[i])
          case Raised(inverts) =>
            FailedStays(env, enableInlineOps, st, i + 1);
            inversion := inversion || inverts;
            return None;
          case Rewritten(sql, vtables, execs, inverts) =>
            inversion := inversion || inverts;
            if enableInlineOps {
              inlineOps := inlineOps + [env.ops(st[i])];
            }
            directExec := directExec + execs;
            sOut := sOut + sql + [Text(";")];
            outVTables := outVTables + if env.isView(sql) then Permanent(vtables) else vtables;
        }
      }
      assert st[..|st|] == st;
      var merged := VtDistinct(outVTables);
      return Some(Answer(sOut, merged, directExec, inlineOps));
    }

    lemma Opened()
      requires Valid()
      ensures statementCache.Valid() && Faithful(env, statementCache.Items()) && this !in statementCache.Repr
    {
    }

    /** Puts a fresh answer in the cache, making room first if need be. */
    method Remember(text: Sql, a: Answer)
      requires Valid() && !HasKey(statementCache.Items(), text)
      requires Uncached(env, text) == Answered(a, inversion)
      modifies statementCache.Repr
      ensures Valid()
      ensures statementCache.Items() == Cached(old(statementCache.Items()), text, Answered(a, inversion))
      ensures fresh(statementCache.Repr - old(statementCache.Repr))
    {
      hide Uncached, HasKey, Lookup, Faithful, Set, Step;
      ghost var items := statementCache.Items();
      CacheFacts(items, statementCache.keys, statementCache.values);
      CachedIsFaithful(env, items, text);
      var size := statementCache.Len();
      if size >= CACHE_SIZE {
        var _ := statementCache.PopItem(false);
      }
      statementCache.SetItem(text, (a, inversion));
    }

    /** Answers as a fresh call would, and leaves the flag as a fresh call would. */
    method Transform(query: Sql) returns (r: Option<Answer>)
      requires Valid()
      modifies this`inversion, statementCache.Repr
      ensures Valid()
      ensures statementCache.Items() == CacheAfter(env, old(statementCache.Items()), env.substitute(query))
      ensures inversion == Uncached(env, env.substitute(query)).inversion
      ensures r == match Uncached(env, env.substitute(query))
                   case Answered(a, _) => Some(a)
                   case Failed(_) => None
      ensures RepliesToText(env, env.substitute(query), ReplyOf(r, inversion))
      ensures HasKey(old(statementCache.Items()), env.substitute(query)) || r.None? ==>
                statementCache.Items() == old(statementCache.Items())
      ensures !HasKey(old(statementCache.Items()), env.substitute(query)) && r.Some? ==>
                statementCache.Items() ==
                  (if |old(statementCache.Items())| < 1000 then old(statementCache.Items())
                   else old(statementCache.Items())[1..]) + [(env.substitute(query), (r.value, inversion))]
      ensures fresh(statementCache.Repr - old(statementCache.Repr))
    {
      hide *;
      Opened();
      inversion := false;
      var text := env.substitute(query);
      UncachedReplies(env, text);
      ghost var items := statementCache.Items();
      FaithfulLookup(env, statementCache.Items(), text);
      LookupAbsent(statementCache.Items(), text);
      CacheAfterIs(env, statementCache.Items(), text);
      var hit := statementCache.Contains(text);
      if hit {
        var cached := statementCache.GetItem(text);
        inversion := cached.value.1;
        FreshReply(env, items, text, Some(cached.value.0), inversion);
        return Some(cached.value.0);
      }
      r := RewriteStatements(text);
      FreshReply(env, items, text, r, inversion);
      if r.Some? {
        Remember(text, r.value);
      }
    }
  }

  lemma FreshReply(env: Engine, items: Items, text: Sql, r: Option<Answer>, inversion: bool)
    requires inversion == Uncached(env, text).inversion
    requires r == match Uncached(env, text) case Answered(a, _) => Some(a) case Failed(_) => None
    ensures Uncached(env, text) == ReplyOf(r, inversion)
    ensures HasKey(items, text) || r.None? ==> CacheAfter(env, items, text) == items
    ensures !HasKey(items, text) && r.Some? ==>
              CacheAfter(env, items, text) ==
                (if |items| < 1000 then items else items[1..]) + [(text, (r.value, inversion))]
  {
  }

  /** Over any run of calls on one cache, each answer, and the flag at the end, are those of fresh calls. */
  method TransformAll(t: Transformer, queries: seq<Sql>) returns (rs: seq<Option<Answer>>)
    requires t.Valid()
    modifies t`inversion, t.statementCache.Repr
    ensures t.Valid()
    ensures |rs| == |queries|
    ensures forall i :: 0 <= i < |rs| ==> rs[i] == AnswerOf(Uncached(t.env, t.env.substitute(queries[i])))
    ensures forall i :: 0 <= i < |rs| ==> RepliesWith(t.env, t.env.substitute(queries[i]), rs[i])
    ensures queries != [] ==> t.inversion == Uncached(t.env, t.env.substitute(queries[|queries| - 1])).inversion
    ensures t.statementCache.Items() == CacheAfterAll(t.env, old(t.statementCache.Items()), queries)
  {
    hide *;
    t.Opened();
    rs := [];
    ghost var items := t.statementCache.Items();
    CacheAfterNone(t.env, items, queries);
    for i := 0 to |queries|
      invariant t.Valid() && fresh(t.statementCache.Repr - old(t.statementCache.Repr)) && t.statementCache.Valid()
      invariant |rs| == i && forall j :: 0 <= j < i ==> rs[j] == AnswerOf(Uncached(t.env, t.env.substitute(queries[j])))
      invariant i > 0 ==> t.inversion == Uncached(t.env, t.env.substitute(queries[i - 1])).inversion
      invariant t.statementCache.Items() == CacheAfterAll(t.env, items, queries[..i])
    {
      CacheAfterOneMore(t.env, items, queries, i);
      AnswerCases(Uncached(t.env, t.env.substitute(queries[i])));
      var r := t.Transform(queries[i]);
      t.Opened();
      rs := rs + [r];
    }
    assert queries[..|queries|] == queries;
    forall i | 0 <= i < |rs|
      ensures RepliesWith(t.env, t.env.substitute(queries[i]), rs[i])
    {
      UncachedReplies(t.env, t.env.substitute(queries[i]));
      ReplyIsWith(t.env, t.env.substitute(queries[i]), Uncached(t.env, t.env.substitute(queries[i])));
    }
  }

  /** The reply to the text has this answer, or is that the call raises. */
  ghost predicate RepliesWith(env: Engine, text: Sql, r: Option<Answer>) {
    exists inversion: bool :: RepliesToText(env, text, ReplyOf(r, inversion))
  }

  lemma ReplyIsWith(env: Engine, text: Sql, reply: Reply)
    requires RepliesToText(env, text, reply)
    ensures RepliesWith(env, text, AnswerOf(reply))
  {
    hide RepliesToText;
    assert ReplyOf(AnswerOf(reply), reply.inversion) == reply;
  }

  function AnswerOf(r: Reply): Option<Answer> {
    if r.Answered? then Some(r.answer) else None
  }

  lemma AnswerCases(r: Reply)
    ensures AnswerOf(r) == match r case Answered(a, _) => Some(a) case Failed(_) => None
  {
  }

  function CacheAfterAll(env: Engine, items: Items, queries: seq<Sql>): Items {
    if queries == [] then items
    else CacheAfter(env, CacheAfterAll(env, items, queries[..|queries| - 1]), env.substitute(queries[|queries| - 1]))
  }

  lemma CacheAfterNone(env: Engine, items: Items, queries: seq<Sql>)
    ensures CacheAfterAll(env, items, queries[..0]) == items
  {
  }

  lemma CacheAfterOneMore(env: Engine, items: Items, queries: seq<Sql>, i: nat)
    requires i < |queries|
    ensures CacheAfterAll(env, items, queries[..i + 1]) ==
              CacheAfter(env, CacheAfterAll(env, items, queries[..i]), env.substitute(queries[i]))
  {
    assert queries[..i + 1][..i] == queries[..i];
  }

  // ----- What reaches the database

  datatype Sent = Sent(sql: Sql) | SentNothing | RecursionError | RewriteError

  /** The text a query comes down to, with no cache in the way. */
  function Executed(env: Engine, query: Sql, depth: nat): Sent {
    match Uncached(env, env.substitute(query))
    case Failed(_) => RewriteError
    case Answered(a, inversion) =>
      if !inversion then Sent(query)
      else
        match RecBuildSql(a.sql, a.vtables, depth)
        case Built(sql) => Sent(sql)
        case Nothing => SentNothing
        case TooDeep => RecursionError
  }

  /**
   `Cursor.execute`: the query as written, unless its rewrite was an inversion; then what the
   virtual-table names in its rewriting stand for.  A rewrite that raises is not caught.
   */
  method Execute(t: Transformer, query: Sql, depth: nat) returns (r: Sent, ghost reply: Reply)
    requires t.Valid()
    modifies t`inversion, t.statementCache.Repr
    ensures t.Valid()
    ensures r == Executed(t.env, query, depth)
    ensures RepliesToText(t.env, t.env.substitute(query), reply)
    ensures reply.Failed? ==> r == RewriteError
    ensures reply.Answered? && !reply.inversion ==> r == Sent(query)
    ensures reply.Answered? && reply.inversion ==>
              r == match RecBuildSql(reply.answer.sql, reply.answer.vtables, depth)
                   case Built(sql) => Sent(sql)
                   case Nothing => SentNothing
                   case TooDeep => RecursionError
  {
    hide RepliesToText, RecBuildSql, Uncached;
    var svts := t.Transform(query);
    reply := ReplyOf(svts, t.inversion);
    if svts.None? {
      return RewriteError, reply;
    }
    if !t.inversion {
      return Sent(query), reply;
    }
    match RecBuildSql(svts.value.sql, svts.value.vtables, depth)
    case Built(sql) =>
      return Sent(sql), reply;
    case Nothing =>
      return SentNothing, reply;
    case TooDeep =>
      return RecursionError, reply;
  }

  /**
   An inversion sends a text, given the depth, if and only if every name in its rewriting bottoms
   out; and there is no virtual-table name in what it sends.
   */
  lemma SentIsNameFree(env: Engine, query: Sql)
    requires var r := Uncached(env, env.substitute(query)); r.Answered? && r.inversion
    ensures var a := Uncached(env, env.substitute(query)).answer;
            (exists depth: nat :: Executed(env, query, depth).Sent?) <==>
              forall n :: Name(n) in a.sql ==> BottomsOut(a.vtables, n)
    ensures forall depth: nat :: Executed(env, query, depth).Sent? ==> FirstName(Executed(env, query, depth).sql).None?
  {
    hide *;
    var a := Uncached(env, env.substitute(query)).answer;
    forall depth: nat
      ensures Executed(env, query, depth).Sent? <==> RecBuildSql(a.sql, a.vtables, depth).Built?
      ensures Executed(env, query, depth).Sent? ==> FirstName(Executed(env, query, depth).sql).None?
    {
      SentIsBuilt(env, query, depth);
    }
    if exists depth: nat :: Executed(env, query, depth).Sent? {
      var depth: nat :| Executed(env, query, depth).Sent?;
      BuiltBottoms(a.sql, a.vtables, depth);
    }
    if forall n :: Name(n) in a.sql ==> BottomsOut(a.vtables, n) {
      BuildsIffGrounded(a.sql, a.vtables);
      var depth: nat :| RecBuildSql(a.sql, a.vtables, depth).Built?;
      assert Executed(env, query, depth).Sent?;
    }
  }

  lemma BuiltBottoms(e: Sql, defs: seq<VTable>, depth: nat)
    requires RecBuildSql(e, defs, depth).Built?
    ensures forall n :: Name(n) in e ==> BottomsOut(defs, n)
  {
    BuildsIffGrounded(e, defs);
  }

  lemma SentIsBuilt(env: Engine, query: Sql, depth: nat)
    requires var r := Uncached(env, env.substitute(query)); r.Answered? && r.inversion
    ensures var a := Uncached(env, env.substitute(query)).answer;
            Executed(env, query, depth).Sent? <==> RecBuildSql(a.sql, a.vtables, depth).Built?
    ensures Executed(env, query, depth).Sent? ==> FirstName(Executed(env, query, depth).sql).None?
  {
    hide Uncached, RecBuildSql, FirstName;
    var a := Uncached(env, env.substitute(query)).answer;
    BuildsIffGrounded(a.sql, a.vtables);
  }

  lemma CacheFacts(items: Items, keys: seq<Sql>, values: map<Sql, (Answer, bool)>)
    requires Listed(keys, values) && items == ItemsOf(keys, values)
    ensures DistinctKeys(items)
  {
    ItemsAreKeyed(keys, values);
  }

  lemma {:induction false} FailedStays(env: Engine, withOps: bool, ss: seq<Sql>, i: nat)
    requires i <= |ss| && AllStatements(env, withOps, ss[..i]).Failed?
    ensures AllStatements(env, withOps, ss) == AllStatements(env, withOps, ss[..i])
    decreases |ss|
  {
    if i == |ss| {
      assert ss[..i] == ss;
    } else {
      assert ss[..|ss| - 1][..i] == ss[..i];
      FailedStays(env, withOps, ss[..|ss| - 1], i);
    }
  }
}
