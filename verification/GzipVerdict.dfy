/**
 What any file comes to, well-formed or not: its content, or the error that reading it to the end
 raises.  A file comes to a content exactly if it is the bytes of gzip members, one after the other.
 */
module GzipVerdict {
  import opened Wrappers
  import opened GzipFormat
  import opened GzipTracking

  type Outcome = Result<seq<Byte>, Error>

  /** What was given out before, and then the rest. */
  function Then(before: seq<Byte>, rest: Outcome): Outcome {
    match rest
    case Ok(content) => Ok(before + content)
    case Err(e) => Err(e)
  }

  /** What the file comes to from `p` on, where a member starts or the file ends. */
  ghost function Verdict(c: Codec, data: seq<Byte>, p: nat): Outcome
    requires Lawful(c) && p <= |data|
    decreases |data| - p, 1
  {
    match HeaderEnd(data, p)
    case Err(e) => Err(e)
    case Ok(None) => Ok([])
    case Ok(Some(q)) => BodyVerdict(c, data, q)
  }

  /** The same from `q` on, where the compressed data of a member start. */
  ghost function BodyVerdict(c: Codec, data: seq<Byte>, q: nat): Outcome
    requires Lawful(c) && q <= |data|
    decreases |data| - q, 2
  {
    match c.end(data[q..])
    case None => Err(EofError)
    case Some(n) =>
      var content := c.output(data[q..]);
      match TrailerCheck(data, q + n, c.crc(content, 0), |content|)
      case Err(e) => Err(e)
      case Ok(_) => Then(content, Verdict(c, data, PastZeros(data, q + n + 8)))
  }

  lemma BodyVerdictIs(c: Codec, data: seq<Byte>, q: nat)
    requires Lawful(c) && q <= |data|
    ensures c.end(data[q..]).None? ==> BodyVerdict(c, data, q) == Err(EofError)
    ensures c.end(data[q..]).Some? ==>
              var n, content := c.end(data[q..]).value, c.output(data[q..]);
              && q + n <= |data|
              && match TrailerCheck(data, q + n, c.crc(content, 0), |content|)
                 case Err(e) => BodyVerdict(c, data, q) == Err(e)
                 case Ok(_) =>
                   && q + n + 8 <= |data|
                   && BodyVerdict(c, data, q) == Then(content, Verdict(c, data, PastZeros(data, q + n + 8)))
  {
    hide PastZeros, Verdict, TrailerCheck, Then, Lawful;
    if c.end(data[q..]).Some? {
      EndStays(c, data[q..], []);
      var n, content := c.end(data[q..]).value, c.output(data[q..]);
      TrailerFits(data, q + n, c.crc(content, 0), |content|);
    }
  }

  lemma TrailerFits(data: seq<Byte>, p: nat, crc: nat, size: nat)
    requires p <= |data|
    ensures TrailerCheck(data, p, crc, size).Ok? ==> p + 8 <= |data|
  {
  }

  lemma ThenTwice(a: seq<Byte>, b: seq<Byte>, rest: Outcome)
    ensures Then(a, Then(b, rest)) == Then(a + b, rest) && Then([], rest) == rest
    ensures forall e :: Then(a, Err(e)) == Err(e)
    ensures Then(a, Ok([])) == Ok(a)
  {
    if rest.Ok? {
      assert a + (b + rest.value) == a + b + rest.value;
      assert [] + rest.value == rest.value;
    }
    assert a + [] == a;
  }

  // ----- What a reader is bound to find

  /**
   A reader at byte `p`, which has given out `produced`, is bound to find what is left of the verdict
   on its file: from a member's start, or from inside its data, of which it was fed `fed`.
   */
  ghost predicate Foretold(c: Codec, data: seq<Byte>, newMember: bool, p: nat, fed: seq<Byte>, produced: seq<Byte>) {
    && Lawful(c) && p <= |data|
    && if newMember then Verdict(c, data, 0) == Then(produced, Verdict(c, data, p))
       else
         && |fed| <= p && fed == data[p - |fed|..p]
         && exists before :: produced == before + c.output(fed) &&
              Verdict(c, data, 0) == Then(before, BodyVerdict(c, data, p - |fed|))
  }

  lemma ForetoldStart(c: Codec, data: seq<Byte>, fed: seq<Byte>)
    requires Lawful(c)
    ensures Foretold(c, data, true, 0, fed, [])
  {
    hide Verdict;
    ThenTwice([], [], Verdict(c, data, 0));
  }

  /** At the start of a member: its header decides. */
  lemma ForetoldHeader(c: Codec, data: seq<Byte>, p: nat, fed: seq<Byte>, produced: seq<Byte>)
    requires Foretold(c, data, true, p, fed, produced)
    ensures Lawful(c) && p <= |data|
    ensures HeaderEnd(data, p).Err? ==> Verdict(c, data, 0) == Err(HeaderEnd(data, p).error)
    ensures HeaderEnd(data, p) == Ok(None) ==> Verdict(c, data, 0) == Ok(produced) && p == |data|
    ensures HeaderEnd(data, p).Ok? && HeaderEnd(data, p).value.Some? ==>
              Foretold(c, data, false, HeaderEnd(data, p).value.value, [], produced)
  {
    hide HeaderEnd, BodyVerdict, Lawful;
    VerdictIs(c, data, p);
    ThenTwice(produced, [], Ok([]));
    if HeaderEnd(data, p).Ok? && HeaderEnd(data, p).value.Some? {
      OutputGrows(c, [], []);
      assert produced == produced + c.output([]);
      ForetoldInside(c, data, HeaderEnd(data, p).value.value, [], produced, produced);
    }
  }

  /** What was given out is part of the content, if there is one. */
  lemma ForetoldPrefix(c: Codec, data: seq<Byte>, newMember: bool, p: nat, fed: seq<Byte>, produced: seq<Byte>)
    requires Foretold(c, data, newMember, p, fed, produced) && Verdict(c, data, 0).Ok?
    ensures produced <= Verdict(c, data, 0).value
  {
    hide Verdict, BodyVerdict, Lawful;
    if !newMember {
      var before := InsideForetold(c, data, p, fed, produced);
      var q := p - |fed|;
      BodyVerdictIs(c, data, q);
      assert data[q..] == fed + data[p..];
      OutputGrows(c, fed, data[p..]);
    }
  }

  lemma VerdictIs(c: Codec, data: seq<Byte>, p: nat)
    requires Lawful(c) && p <= |data|
    ensures HeaderEnd(data, p).Err? ==> Verdict(c, data, p) == Err(HeaderEnd(data, p).error)
    ensures HeaderEnd(data, p) == Ok(None) ==> p == |data| && Verdict(c, data, p) == Ok([])
    ensures HeaderEnd(data, p).Ok? && HeaderEnd(data, p).value.Some? ==>
              Verdict(c, data, p) == BodyVerdict(c, data, HeaderEnd(data, p).value.value)
  {
    hide HeaderEnd, BodyVerdict, Lawful;
  }

  lemma ForetoldInside(c: Codec, data: seq<Byte>, p: nat, fed: seq<Byte>, before: seq<Byte>, produced: seq<Byte>)
    requires Lawful(c) && |fed| <= p <= |data| && fed == data[p - |fed|..p] && produced == before + c.output(fed)
    requires Verdict(c, data, 0) == Then(before, BodyVerdict(c, data, p - |fed|))
    ensures Foretold(c, data, false, p, fed, produced)
  {
    hide Verdict, BodyVerdict, Lawful;
  }

  lemma InsideForetold(c: Codec, data: seq<Byte>, p: nat, fed: seq<Byte>, produced: seq<Byte>)
    returns (before: seq<Byte>)
    requires Foretold(c, data, false, p, fed, produced)
    ensures Lawful(c) && |fed| <= p <= |data| && fed == data[p - |fed|..p] && produced == before + c.output(fed)
    ensures Verdict(c, data, 0) == Then(before, BodyVerdict(c, data, p - |fed|))
  {
    hide Verdict, BodyVerdict, Lawful;
    before :| produced == before + c.output(fed) &&
              Verdict(c, data, 0) == Then(before, BodyVerdict(c, data, p - |fed|));
  }

  lemma UnusedIs(c: Codec, fed: seq<Byte>)
    requires Lawful(c)
    ensures c.end(fed).None? ==> UnusedAfter(c, fed) == []
    ensures c.end(fed).Some? ==>
              c.end(fed).value <= |fed| && UnusedAfter(c, fed) == fed[c.end(fed).value..]
  {
  }

  /** At the end of the file inside a member: it is cut off. */
  lemma ForetoldCutOff(c: Codec, data: seq<Byte>, fed: seq<Byte>, produced: seq<Byte>)
    requires Foretold(c, data, false, |data|, fed, produced) && UnusedAfter(c, fed) == []
    ensures Verdict(c, data, 0) == Err(EofError)
  {
    hide Verdict, BodyVerdict, Lawful, UnusedAfter;
    var before := InsideForetold(c, data, |data|, fed, produced);
    var q := |data| - |fed|;
    assert fed == data[q..];
    UnusedIs(c, fed);
    BodyVerdictIs(c, data, q);
    ThenTwice(before, [], Ok([]));
    if c.end(fed).Some? {
      assert |fed[c.end(fed).value..]| == 0;
      assert q + c.end(data[q..]).value == |data|;
      TooShort(data, c.crc(c.output(fed), 0), |c.output(fed)|);
    }
  }

  lemma TooShort(data: seq<Byte>, crc: nat, size: nat)
    ensures TrailerCheck(data, |data|, crc, size) == Err(EofError)
  {
  }

  /** Further data of a member, and what comes of them. */
  lemma ForetoldMore(c: Codec, data: seq<Byte>, p: nat, q: nat, fed: seq<Byte>, produced: seq<Byte>)
    requires Foretold(c, data, false, p, fed, produced) && p <= q <= |data|
    ensures Lawful(c)
    ensures var fed' := fed + data[p..q];
            var produced' := produced + c.output(fed')[|c.output(fed)|..];
            var u := UnusedAfter(c, fed');
            && c.output(fed) <= c.output(fed')
            && |u| <= q
            && (u == [] ==> Foretold(c, data, false, q, fed', produced'))
            && (u != [] ==>
                  match TrailerCheck(data, q - |u|, c.crc(c.output(fed'), 0), |c.output(fed')|)
                  case Err(e) => Verdict(c, data, 0) == Err(e)
                  case Ok(_) =>
                    q - |u| + 8 <= |data| && Foretold(c, data, true, PastZeros(data, q - |u| + 8), fed', produced'))
  {
    hide Verdict, BodyVerdict, Lawful, UnusedAfter, TrailerCheck, PastZeros;
    var before := InsideForetold(c, data, p, fed, produced);
    var b := p - |fed|;
    var fed' := fed + data[p..q];
    assert fed' == data[b..q];
    OutputGrows(c, fed, data[p..q]);
    var o := c.output(fed')[|c.output(fed)|..];
    assert c.output(fed') == c.output(fed) + o;
    assert produced + o == before + c.output(fed');
    UnusedIs(c, fed');
    var u := UnusedAfter(c, fed');
    if u == [] {
      ForetoldInside(c, data, q, fed', before, produced + o);
    } else {
      assert data[b..] == fed' + data[q..];
      EndStays(c, fed', data[q..]);
      BodyVerdictIs(c, data, b);
      ThenTwice(before, c.output(fed'), Ok([]));
      var end := TrailerCheck(data, q - |u|, c.crc(c.output(fed'), 0), |c.output(fed')|);
      if end.Ok? {
        ThenTwice(before, c.output(fed'), Verdict(c, data, PastZeros(data, q - |u| + 8)));
        ForetoldAt(c, data, PastZeros(data, q - |u| + 8), fed', produced + o);
      }
    }
  }

  lemma ForetoldAt(c: Codec, data: seq<Byte>, p: nat, fed: seq<Byte>, produced: seq<Byte>)
    requires Lawful(c) && p <= |data| && Verdict(c, data, 0) == Then(produced, Verdict(c, data, p))
    ensures Foretold(c, data, true, p, fed, produced)
  {
    hide Verdict, Lawful;
  }
}
