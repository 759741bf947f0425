/**
 Constraints on the columns of an indexed table, and the intervals they combine into
 (`kdtree.py`).  Column values stand for any totally ordered Python values; `real` is
 used because any countable order embeds in it and it has no gaps.
 */
module KdRanges {
  import opened Wrappers

  const CONSTRAINT_EQ := 2
  const CONSTRAINT_GT := 4
  const CONSTRAINT_LE := 8
  const CONSTRAINT_LT := 16
  const CONSTRAINT_GE := 32

  datatype Side = Left | Right

  /** An end point: below everything, just before or just after a value, or above everything. */
  datatype Bound = Lowest | At(value: real, side: Side) | Highest

  /** The order of the tuples `(kind, value, side)`, compared component by component. */
  predicate Less(a: Bound, b: Bound) {
    match (a, b)
    case (Lowest, _) => b != Lowest
    case (_, Highest) => a != Highest
    case (At(x, s), At(y, t)) => x < y || (x == y && s == Left && t == Right)
    case (_, _) => false
  }

  predicate AtMost(a: Bound, b: Bound) {
    !Less(b, a)
  }

  function Max(a: Bound, b: Bound): Bound {
    if Less(a, b) then b else a
  }

  function Min(a: Bound, b: Bound): Bound {
    if Less(b, a) then b else a
  }

  datatype Range = Range(lo: Bound, hi: Bound)

  const EntireRange := Range(Lowest, Highest)

  /** The test `range[0] <= (NORMAL, v, 0) < range[1]` that `query` applies to a cell. */
  predicate InRange(r: Range, v: real) {
    AtMost(r.lo, At(v, Left)) && Less(At(v, Left), r.hi)
  }

  predicate NonEmpty(r: Range) {
    Less(r.lo, r.hi)
  }

  function IntersectRanges(r1: Range, r2: Range): Option<Range> {
    if AtMost(r1.hi, r1.lo) || AtMost(r2.hi, r2.lo) then
      None
    else
      var maxOfMin := Max(r1.lo, r2.lo);
      var minOfMax := Min(r1.hi, r2.hi);
      if AtMost(minOfMax, maxOfMin) then None else Some(Range(maxOfMin, minOfMax))
  }

  function ConstraintToRange(consType: int, arg: real): Range {
    if consType <= CONSTRAINT_LE then
      if consType == CONSTRAINT_LE then Range(Lowest, At(arg, Right))
      else if consType == CONSTRAINT_EQ then Range(At(arg, Left), At(arg, Right))
      else Range(At(arg, Right), Highest)
    else
      if consType == CONSTRAINT_GE then Range(At(arg, Left), Highest)
      else Range(Lowest, At(arg, Left))
  }

  /** A constraint as SQLite hands it over: a column and a comparison code. */
  datatype Constraint = Constraint(column: nat, consType: int)

  predicate KnownType(c: Constraint) {
    c.consType in {CONSTRAINT_EQ, CONSTRAINT_GT, CONSTRAINT_LE, CONSTRAINT_LT, CONSTRAINT_GE}
  }

  /** What a comparison code means. */
  predicate Meets(consType: int, arg: real, v: real) {
    && (consType == CONSTRAINT_EQ ==> v == arg)
    && (consType == CONSTRAINT_GT ==> v > arg)
    && (consType == CONSTRAINT_LE ==> v <= arg)
    && (consType == CONSTRAINT_LT ==> v < arg)
    && (consType == CONSTRAINT_GE ==> v >= arg)
  }

  /** What SQLite's comparison codes ask of a value: 2 to be equal, 4 greater, 8 at most, 16 less, 32 at least. */
  predicate Asked(code: int, arg: real, v: real) {
    || (code == 2 && v == arg)
    || (code == 4 && v > arg)
    || (code == 8 && v <= arg)
    || (code == 16 && v < arg)
    || (code == 32 && v >= arg)
  }

  /** The code knows exactly these five numbers, and each as what it asks. */
  lemma CodesMean(column: nat, code: int, arg: real, v: real)
    ensures KnownType(Constraint(column, code)) <==> code == 2 || code == 4 || code == 8 || code == 16 || code == 32
    ensures KnownType(Constraint(column, code)) ==> (Meets(code, arg, v) <==> Asked(code, arg, v))
    ensures KnownType(Constraint(column, code)) ==> (InRange(ConstraintToRange(code, arg), v) <==> Asked(code, arg, v))
  {
  }

  predicate WellTyped(cs: seq<Constraint>, args: seq<real>) {
    && |cs| <= |args|
    && forall i :: 0 <= i < |cs| ==> KnownType(cs[i])
  }

  /** `v` meets every constraint put on column `col`. */
  predicate MeetsAll(cs: seq<Constraint>, args: seq<real>, col: nat, v: real)
    requires |cs| <= |args|
  {
    forall i :: 0 <= i < |cs| && cs[i].column == col ==> Meets(cs[i].consType, args[i], v)
  }

  ghost predicate Satisfiable(cs: seq<Constraint>, args: seq<real>, col: nat)
    requires |cs| <= |args|
  {
    exists v: real :: MeetsAll(cs, args, col, v)
  }

  /** Some column is asked for a value that no value can be. */
  ghost predicate Contradictory(cs: seq<Constraint>, args: seq<real>)
    requires |cs| <= |args|
  {
    exists col: nat :: !Satisfiable(cs, args, col)
  }

  /** Some constraint on the column asks for something else than this value. */
  predicate Refused(cs: seq<Constraint>, args: seq<real>, col: nat, v: real)
    requires |cs| <= |args|
  {
    exists i :: 0 <= i < |cs| && cs[i].column == col && !Asked(cs[i].consType, args[i], v)
  }

  ghost predicate AllRefused(cs: seq<Constraint>, args: seq<real>, col: nat)
    requires |cs| <= |args|
  {
    forall v: real :: Refused(cs, args, col, v)
  }

  /** Constraints contradict each other if on some column every value fails what one of them asks. */
  lemma ContradictoryMeans(cs: seq<Constraint>, args: seq<real>)
    requires WellTyped(cs, args)
    ensures Contradictory(cs, args) <==> exists col: nat :: AllRefused(cs, args, col)
  {
    forall col: nat, v: real
      ensures MeetsAll(cs, args, col, v) <==> !Refused(cs, args, col, v)
    {
      forall i | 0 <= i < |cs|
        ensures Meets(cs[i].consType, args[i], v) <==> Asked(cs[i].consType, args[i], v)
      {
        CodesMean(cs[i].column, cs[i].consType, args[i], v);
      }
    }
    forall col: nat
      ensures Satisfiable(cs, args, col) <==> !AllRefused(cs, args, col)
    {
      if v: real :| MeetsAll(cs, args, col, v) {
        assert !Refused(cs, args, col, v);
      }
      if v: real :| !Refused(cs, args, col, v) {
        assert MeetsAll(cs, args, col, v);
      }
    }
  }

  /** The range of a constraint holds exactly the values that meet it, and is never empty. */
  lemma RangeMeansConstraint(consType: int, arg: real, v: real)
    requires KnownType(Constraint(0, consType))
    ensures InRange(ConstraintToRange(consType, arg), v) <==> Meets(consType, arg, v)
    ensures NonEmpty(ConstraintToRange(consType, arg))
  {
  }

  /** A non-empty range holds a value: the order has no gaps. */
  lemma NonEmptyHasValue(r: Range)
    ensures NonEmpty(r) <==> exists v: real :: InRange(r, v)
  {
    if NonEmpty(r) {
      var v := match r
        case Range(At(x, s), At(y, t)) => if x == y then x else (x + y) / 2.0
        case Range(At(x, s), _) => x + 1.0
        case Range(_, At(y, t)) => y - 1.0
        case Range(_, _) => 0.0;
      assert InRange(r, v);
    }
  }

  /** The intersection holds exactly the common values, and is refused exactly when there are none. */
  lemma IntersectionIsExact(r1: Range, r2: Range)
    ensures match IntersectRanges(r1, r2)
            case Some(r) => NonEmpty(r) && forall v: real :: InRange(r, v) <==> InRange(r1, v) && InRange(r2, v)
            case None => forall v: real :: !(InRange(r1, v) && InRange(r2, v))
  {
  }

  lemma MeetsAllPrefix(cs: seq<Constraint>, args: seq<real>, i: nat, col: nat, v: real)
    requires i < |cs| <= |args|
    ensures MeetsAll(cs[..i + 1], args, col, v)
        == (MeetsAll(cs[..i], args, col, v) && (cs[i].column == col ==> Meets(cs[i].consType, args[i], v)))
    ensures MeetsAll(cs, args, col, v) ==> MeetsAll(cs[..i + 1], args, col, v)
  {
    assert forall j :: 0 <= j < i ==> cs[..i + 1][j] == cs[..i][j];
    assert cs[..i + 1][i] == cs[i];
  }

  predicate Constrains(cs: seq<Constraint>, col: nat) {
    exists i :: 0 <= i < |cs| && cs[i].column == col
  }

  lemma ConstrainsPrefix(cs: seq<Constraint>, i: nat, col: nat)
    requires i < |cs|
    ensures Constrains(cs[..i + 1], col) <==> Constrains(cs[..i], col) || cs[i].column == col
  {
    assert cs[..i + 1] == cs[..i] + [cs[i]];
    if Constrains(cs[..i], col) {
      var j :| 0 <= j < i && cs[..i][j].column == col;
      assert cs[..i + 1][j].column == col;
    }
    assert cs[..i + 1][i] == cs[i];
  }

  /** The dictionary holds, for each column constrained so far, exactly its admissible values. */
  ghost predicate Combines(dict: map<nat, Range>, cs: seq<Constraint>, args: seq<real>)
    requires |cs| <= |args|
  {
    && (forall col :: col in dict <==> Constrains(cs, col))
    && (forall col :: col in dict ==> NonEmpty(dict[col]))
    && (forall col, v: real :: col in dict ==> (InRange(dict[col], v) <==> MeetsAll(cs, args, col, v)))
  }

  lemma CombinesOneMore(dict: map<nat, Range>, cs: seq<Constraint>, args: seq<real>, i: nat, r: Range)
    requires i < |cs| && WellTyped(cs, args)
    requires Combines(dict, cs[..i], args)
    requires NonEmpty(r)
    requires forall v: real :: InRange(r, v) ==
               (&& InRange(ConstraintToRange(cs[i].consType, args[i]), v)
                && (cs[i].column in dict ==> InRange(dict[cs[i].column], v)))
    ensures Combines(dict[cs[i].column := r], cs[..i + 1], args)
  {
    var dict' := dict[cs[i].column := r];
    forall col
      ensures col in dict' <==> Constrains(cs[..i + 1], col)
    {
      ConstrainsPrefix(cs, i, col);
    }
    forall col, v: real | col in dict'
      ensures InRange(dict'[col], v) <==> MeetsAll(cs[..i + 1], args, col, v)
    {
      MeetsAllPrefix(cs, args, i, col, v);
      RangeMeansConstraint(cs[i].consType, args[i], v);
      if col !in dict {
        assert MeetsAll(cs[..i], args, col, v);
      }
    }
  }

  /** One column asked to equal both 1 and 2. */
  lemma EqualToTwoValues()
    ensures var cs, args := [Constraint(0, CONSTRAINT_EQ), Constraint(0, CONSTRAINT_EQ)], [1.0, 2.0];
            WellTyped(cs, args) && Contradictory(cs, args)
  {
    var cs, args := [Constraint(0, CONSTRAINT_EQ), Constraint(0, CONSTRAINT_EQ)], [1.0, 2.0];
    forall v: real
      ensures !MeetsAll(cs, args, 0, v)
    {
      assert cs[0].column == 0 && cs[1].column == 0;
    }
    assert !Satisfiable(cs, args, 0);
  }

  /** What `compineconstraints` is for: it fails exactly on contradictory constraints. */
  method CombineConstraints(constraints: seq<Constraint>, consArgs: seq<real>) returns (r: Option<map<nat, Range>>)
    requires WellTyped(constraints, consArgs)
    ensures r.None? <==> Contradictory(constraints, consArgs)
    ensures r.Some? ==> Combines(r.value, constraints, consArgs)
  {
    var consDict: map<nat, Range> := map[];
    for i := 0 to |constraints|
      invariant Combines(consDict, constraints[..i], consArgs)
    {
      var Constraint(column, consType) := constraints[i];
      var range := ConstraintToRange(consType, consArgs[i]);
      RangeMeansConstraint(consType, consArgs[i], 0.0);
      if column !in consDict {
        CombinesOneMore(consDict, constraints, consArgs, i, range);
        consDict := consDict[column := range];
      } else {
        IntersectionIsExact(consDict[column], range);
        var ri := IntersectRanges(consDict[column], range);
        if ri.None? {
          forall v: real
            ensures !MeetsAll(constraints, consArgs, column, v)
          {
            RangeMeansConstraint(consType, consArgs[i], v);
            MeetsAllPrefix(constraints, consArgs, i, column, v);
          }
          assert !Satisfiable(constraints, consArgs, column);
          return None;
        }
        CombinesOneMore(consDict, constraints, consArgs, i, ri.value);
        consDict := consDict[column := ri.value];
      }
    }
    assert constraints[..|constraints|] == constraints;
    forall col: nat
      ensures Satisfiable(constraints, consArgs, col)
    {
      if col in consDict {
        NonEmptyHasValue(consDict[col]);
        var v: real :| InRange(consDict[col], v);
        assert MeetsAll(constraints, consArgs, col, v);
      } else {
        assert MeetsAll(constraints, consArgs, col, 0.0);
      }
    }
    return Some(consDict);
  }
}
