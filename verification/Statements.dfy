/**
 What the loop of `transform` over the statements of a text comes to, said of the whole list: the
 rewritten statements one after the other, their tables merged, and the flag.
 */
module Statements {
  import opened Wrappers
  import opened VirtualTables

  /** An operator to run directly: its name, its parameters, its sub-query. */
  datatype Exec = Exec(op: string, params: seq<string>, subquery: Sql)

  /** What rewriting one statement gives, or that it raises; either way it may set the inversion flag. */
  datatype Rewritten =
    | Rewritten(sql: Sql, vtables: seq<VTable>, execs: seq<Exec>, inverts: bool)
    | Raised(inverts: bool)

  datatype Engine = Engine(
    substitute: Sql -> Sql,       // variables filled in
    statements: Sql -> seq<Sql>,  // the statements of a text, each without its closing semicolons
    isEmpty: Sql -> bool,         // nothing left to parse in a statement
    rewrite: Sql -> Rewritten,    // the rewrite of one statement
    isView: Sql -> bool,          // the rewritten statement creates a temporary view
    hasOps: Sql -> bool,          // the text contains a comment that may define operators
    ops: Sql -> seq<string>       // the operators a statement's comments define
  )

  /** The four parts of the answer: the text, its virtual tables, the direct operators, the inline operators. */
  datatype Answer = Answer(sql: Sql, vtables: seq<VTable>, execs: seq<Exec>, inlineOps: seq<seq<string>>)

  /** How a call ends, and what the global flag is then. */
  datatype Reply = Answered(answer: Answer, inversion: bool) | Failed(inversion: bool)

  // ----- The statements that count, and what each gives

  function NonEmpty(env: Engine, ss: seq<Sql>): seq<Sql> {
    if ss == [] then []
    else NonEmpty(env, ss[..|ss| - 1]) + if env.isEmpty(ss[|ss| - 1]) then [] else [ss[|ss| - 1]]
  }

  lemma NonEmptyAppend(env: Engine, ss: seq<Sql>, s: Sql)
    ensures NonEmpty(env, ss + [s]) == NonEmpty(env, ss) + if env.isEmpty(s) then [] else [s]
    ensures NonEmpty(env, []) == []
  {
    assert (ss + [s])[..|ss|] == ss;
  }

  function Flat<T>(parts: seq<seq<T>>): seq<T> {
    if parts == [] then [] else Flat(parts[..|parts| - 1]) + parts[|parts| - 1]
  }

  lemma FlatAppend<T>(parts: seq<seq<T>>, part: seq<T>)
    ensures Flat(parts + [part]) == Flat(parts) + part && Flat<T>([]) == []
  {
    assert (parts + [part])[..|parts|] == parts;
  }

  /** Each rewritten text with a semicolon after it. */
  function Texts(env: Engine, ss: seq<Sql>): (r: seq<Sql>)
    requires forall i :: 0 <= i < |ss| ==> env.rewrite(ss[i]).Rewritten?
    ensures |r| == |ss| && forall i :: 0 <= i < |ss| ==> r[i] == env.rewrite(ss[i]).sql + [Text(";")]
  {
    seq(|ss|, i requires 0 <= i < |ss| => env.rewrite(ss[i]).sql + [Text(";")])
  }

  /** The tables of each statement; those of a view are permanent. */
  function Tables(env: Engine, ss: seq<Sql>): (r: seq<seq<VTable>>)
    requires forall i :: 0 <= i < |ss| ==> env.rewrite(ss[i]).Rewritten?
    ensures |r| == |ss|
    ensures forall i :: 0 <= i < |ss| ==>
              r[i] == MarkedIf(env.rewrite(ss[i]).vtables, env.isView(env.rewrite(ss[i]).sql))
  {
    seq(|ss|, i requires 0 <= i < |ss| => MarkedIf(env.rewrite(ss[i]).vtables, env.isView(env.rewrite(ss[i]).sql)))
  }

  function MarkedIf(vtables: seq<VTable>, view: bool): (r: seq<VTable>)
    ensures |r| == |vtables|
    ensures forall i :: 0 <= i < |r| ==>
              && r[i].name == vtables[i].name && r[i].op == vtables[i].op && r[i].args == vtables[i].args
              && (r[i].permanent <==> vtables[i].permanent || view)
  {
    seq(|vtables|, i requires 0 <= i < |vtables| => vtables[i].(permanent := vtables[i].permanent || view))
  }

  function Execs(env: Engine, ss: seq<Sql>): (r: seq<seq<Exec>>)
    requires forall i :: 0 <= i < |ss| ==> env.rewrite(ss[i]).Rewritten?
    ensures |r| == |ss| && forall i :: 0 <= i < |ss| ==> r[i] == env.rewrite(ss[i]).execs
  {
    seq(|ss|, i requires 0 <= i < |ss| => env.rewrite(ss[i]).execs)
  }

  ghost predicate NoneRaises(env: Engine, ss: seq<Sql>) {
    forall i :: 0 <= i < |ss| ==> env.rewrite(ss[i]).Rewritten?
  }

  /** Some statement inverts, before which none raises. */
  ghost predicate Inverts(env: Engine, ss: seq<Sql>) {
    exists i :: 0 <= i < |ss| && env.rewrite(ss[i]).inverts && NoneRaises(env, ss[..i])
  }

  /** The reply to the statements `ss`, none of them empty. */
  ghost predicate RepliesTo(env: Engine, withOps: bool, ss: seq<Sql>, tables: seq<VTable>, r: Reply) {
    && (r.Answered? <==> NoneRaises(env, ss))
    && (r.inversion <==> Inverts(env, ss))
    && (r.Answered? ==>
          && r.answer.sql == Flat(Texts(env, ss))
          && tables == Flat(Tables(env, ss))
          && r.answer.execs == Flat(Execs(env, ss))
          && |r.answer.inlineOps| == (if withOps then |ss| else 0)
          && forall i :: 0 <= i < |r.answer.inlineOps| ==> r.answer.inlineOps[i] == env.ops(ss[i]))
  }

  /** The reply to a text whose variables are filled in. */
  ghost predicate RepliesToText(env: Engine, text: Sql, r: Reply) {
    exists tables ::
      && RepliesTo(env, env.hasOps(text), NonEmpty(env, env.statements(text)), tables, r)
      && (r.Answered? ==> Merges(r.answer.vtables, tables))
  }
}
