/** Where a reader is in a well-formed gzip file, and what each step of it finds there. */
module GzipTracking {
  import opened Wrappers
  import opened GzipFormat

  /** A zlib decompressor: what it was fed, and what of that came after the end of its data. */
  datatype Inflater = Inflater(fed: seq<Byte>, unusedData: seq<Byte>)

  function UnusedAfter(c: Codec, fed: seq<Byte>): seq<Byte>
    requires Lawful(c)
  {
    match c.end(fed)
    case None => []
    case Some(n) => fed[n..]
  }

  /** `decompress(buf)`: the decompressor afterwards, and what it gives out. */
  function Decompress(c: Codec, d: Inflater, buf: seq<Byte>): (Inflater, seq<Byte>)
    requires Lawful(c)
  {
    OutputGrows(c, d.fed, buf);
    (Inflater(d.fed + buf, UnusedAfter(c, d.fed + buf)), c.output(d.fed + buf)[|c.output(d.fed)|..])
  }

  lemma DecompressFacts(c: Codec, d: Inflater, buf: seq<Byte>)
    requires Lawful(c)
    ensures var (e, o) := Decompress(c, d, buf);
            && e.fed == d.fed + buf && e.unusedData == UnusedAfter(c, e.fed)
            && c.output(e.fed) == c.output(d.fed) + o
            && (UnusedAfter(c, d.fed) == [] ==>
              |e.unusedData| <= |buf| && buf[|buf| - |e.unusedData|..] == e.unusedData)
            && (c.end(d.fed).Some? ==> o == [])
            && (e.unusedData != [] ==> c.end(e.fed).Some?)
  {
    OutputGrows(c, d.fed, buf);
    var fed := d.fed + buf;
    if c.end(d.fed).Some? {
      EndStays(c, d.fed, buf);
    }
    if c.end(fed).Some? {
      EndsLater(c, d.fed, buf);
      var n := c.end(fed).value;
      if UnusedAfter(c, d.fed) == [] {
        assert n >= |d.fed|;
        assert fed[n..] == buf[n - |d.fed|..];
      }
    }
  }

  /** Where the compressed data of a member starts. */
  function BodyStart(c: Codec, ms: seq<Member>, k: nat): nat
    requires k < |ms|
  {
    Start(c, ms, k) + |HeaderBytes(ms[k].header)|
  }

  /**
   The reader is at byte `p` of the file: at the start of member `k`, or inside its data, of
   which the decompressor was fed all so far.  `produced` is what it has given out of all members.
   */
  ghost predicate Follows(c: Codec, ms: seq<Member>, data: seq<Byte>, k: nat, newMember: bool,
                          p: nat, fed: seq<Byte>, produced: seq<Byte>) {
    && ValidMembers(c, ms) && data == FileBytes(c, ms) && k <= |ms|
    && if newMember then p == Start(c, ms, k) && produced == Content(c, ms[..k])
       else
         && k < |ms|
         && BodyStart(c, ms, k) <= p <= BodyStart(c, ms, k) + |ms[k].body| && p <= |data|
         && fed == data[BodyStart(c, ms, k)..p] && produced == Content(c, ms[..k]) + c.output(fed)
  }

  /** What stands where in a member. */
  lemma MemberParts(c: Codec, ms: seq<Member>, k: nat)
    requires k < |ms| && ValidMembers(c, ms)
    ensures var data, b, m := FileBytes(c, ms), BodyStart(c, ms, k), ms[k];
            && ValidMember(c, m)
            && StandsAt(data, Start(c, ms, k), HeaderBytes(m.header))
            && StandsAt(data, b, m.body)
            && StandsAt(data, b + |m.body|, Trailer(c, c.output(m.body)))
            && StandsAt(data, b + |m.body| + 8, Zeros(m.zeros))
            && Start(c, ms, k + 1) == b + |m.body| + 8 + m.zeros <= |data|
  {
    hide HeaderBytes, Zeros, StandsAt, ValidMember, FileBytes, Start, Trailer;
    MemberAt(c, ms, k);
    var data, m, p := FileBytes(c, ms), ms[k], Start(c, ms, k);
    StandsIs(data, p, MemberBytes(c, m));
    var h, t, z := HeaderBytes(m.header), Trailer(c, c.output(m.body)), Zeros(m.zeros);
    StandsSplit(data, p, h + m.body + t, z);
    StandsSplit(data, p, h + m.body, t);
    StandsSplit(data, p, h, m.body);
  }

  lemma StandsIs(data: seq<Byte>, p: nat, part: seq<Byte>)
    ensures StandsAt(data, p, part) <==> p + |part| <= |data| && data[p..p + |part|] == part
  {
  }

  lemma FixedLength(h: Header)
    requires ValidHeader(h)
    ensures |HeaderBytes(h)| >= 10
  {
  }

  /** After the last member the file ends; before, the next header starts with a byte other than zero. */
  lemma NextStart(c: Codec, ms: seq<Member>, k: nat)
    requires k <= |ms| && ValidMembers(c, ms)
    ensures var data, p := FileBytes(c, ms), Start(c, ms, k);
            && p <= |data| && (p == |data| <==> k == |ms|) && (p < |data| ==> data[p] != 0)
  {
    hide HeaderBytes, StandsAt, FileBytes, Start;
    WholeFile(c, ms);
    if k < |ms| {
      MemberParts(c, ms, k);
      var h := ms[k].header;
      FixedLength(h);
      HeaderIs(h);
      StandsOne(FileBytes(c, ms), Start(c, ms, k), HeaderBytes(h), 0);
      assert HeaderBytes(h)[0] == FixedBytes(h)[0];
    }
  }

  /** At the start of a member its header is found, or that there is none. */
  lemma AtStart(c: Codec, ms: seq<Member>, data: seq<Byte>, k: nat, p: nat, fed: seq<Byte>, produced: seq<Byte>)
    requires Lawful(c) && Follows(c, ms, data, k, true, p, fed, produced)
    ensures p <= |data| && HeaderEnd(data, p).Ok?
    ensures HeaderEnd(data, p).value == None ==> produced == Content(c, ms)
    ensures HeaderEnd(data, p).value.Some? ==>
              Follows(c, ms, data, k, false, HeaderEnd(data, p).value.value, [], produced)
  {
    hide HeaderBytes, StandsAt, FileBytes, Start, HeaderEnd, ValidMember, Content, Lawful;
    NextStart(c, ms, k);
    if k < |ms| {
      MemberParts(c, ms, k);
      HeaderValid(c, ms[k]);
      HeaderReadsBack(data, p, ms[k].header);
      OutputGrows(c, [], []);
      StandsIs(data, BodyStart(c, ms, k), ms[k].body);
    } else {
      WholeFile(c, ms);
      NoHeader(data);
    }
  }

  lemma NoHeader(data: seq<Byte>)
    ensures HeaderEnd(data, |data|) == Ok(None)
  {
  }

  lemma HeaderValid(c: Codec, m: Member)
    requires ValidMember(c, m)
    ensures ValidHeader(m.header) && c.end(m.body) == Some(|m.body|)
  {
  }

  /** A decompressor fed less than the data of a member has not seen its end; fed more, it has seen just that. */
  lemma FedPart(c: Codec, body: seq<Byte>, fed: seq<Byte>)
    requires Lawful(c) && c.end(body) == Some(|body|)
    ensures fed <= body ==> UnusedAfter(c, fed) == []
    ensures body <= fed ==> UnusedAfter(c, fed) == fed[|body|..] && c.output(fed) == c.output(body)
  {
    hide Lawful;
    if fed <= body {
      assert body == fed + body[|fed|..];
      if c.end(fed).Some? {
        EndStays(c, fed, body[|fed|..]);
      }
    }
    if body <= fed {
      assert fed == body + fed[|body|..];
      EndStays(c, body, fed[|body|..]);
    }
  }

  /** What the reader finds inside a member: more of its data, or what is left of it and its trailer. */
  lemma Inside(c: Codec, ms: seq<Member>, data: seq<Byte>, k: nat, p: nat, fed: seq<Byte>, produced: seq<Byte>, q: nat)
    requires Lawful(c) && Follows(c, ms, data, k, false, p, fed, produced) && p <= q <= |data|
    ensures p + 8 <= |data|
    ensures var fed' := fed + data[p..q];
            var unused := UnusedAfter(c, fed');
            && c.output(fed) <= c.output(fed')
            && |unused| <= q
            && if unused == [] then
              Follows(c, ms, data, k, false, q, fed', produced + c.output(fed')[|c.output(fed)|..])
               else
                 && StandsAt(data, q - |unused|, Trailer(c, c.output(fed')))
                 && q - |unused| + 8 <= |data|
                 && Follows(c, ms, data, k + 1, true, PastZeros(data, q - |unused| + 8), fed',
                   produced + c.output(fed')[|c.output(fed)|..])
  {
    hide *;
    FollowsInside(c, ms, data, k, p, fed, produced);
    MemberParts(c, ms, k);
    HeaderValid(c, ms[k]);
    NextStart(c, ms, k + 1);
    var b, body := BodyStart(c, ms, k), ms[k].body;
    var t := Trailer(c, c.output(body));
    StandsIs(data, b, body);
    StandsIs(data, b + |body|, t);
    var fed' := fed + data[p..q];
    assert fed' == data[b..q];
    FedPart(c, body, fed');
    OutputGrows(c, fed, data[p..q]);
    var o := c.output(fed')[|c.output(fed)|..];
    assert c.output(fed') == c.output(fed) + o;
    assert Content(c, ms[..k]) + c.output(fed) + o == Content(c, ms[..k]) + (c.output(fed) + o);
    if q <= b + |body| {
      assert body[..q - b] == data[b..b + |body|][..q - b] == fed';
      FollowsIs(c, ms, data, k, q, fed', produced + o);
    } else {
      assert data[b..q][..|body|] == body;
      assert body <= fed';
      PaddingEnds(data, b + |body| + 8, ms[k].zeros);
      MemberAt(c, ms, k);
      FollowsStart(c, ms, data, k + 1, Start(c, ms, k + 1), fed', produced + o);
    }
  }

  lemma FollowsInside(c: Codec, ms: seq<Member>, data: seq<Byte>, k: nat, p: nat, fed: seq<Byte>, produced: seq<Byte>)
    requires Follows(c, ms, data, k, false, p, fed, produced)
    ensures ValidMembers(c, ms) && data == FileBytes(c, ms) && k < |ms| && p <= |data|
    ensures var b := BodyStart(c, ms, k);
            b <= p <= b + |ms[k].body| && fed == data[b..p] && produced == Content(c, ms[..k]) + c.output(fed)
  {
  }

  lemma FollowsIs(c: Codec, ms: seq<Member>, data: seq<Byte>, k: nat, p: nat, fed: seq<Byte>, produced: seq<Byte>)
    requires ValidMembers(c, ms) && data == FileBytes(c, ms) && k < |ms| && p <= |data|
    requires var b := BodyStart(c, ms, k);
             b <= p <= b + |ms[k].body| && fed == data[b..p] && produced == Content(c, ms[..k]) + c.output(fed)
    ensures Follows(c, ms, data, k, false, p, fed, produced)
  {
  }

  lemma FollowsStart(c: Codec, ms: seq<Member>, data: seq<Byte>, k: nat, p: nat, fed: seq<Byte>, produced: seq<Byte>)
    requires ValidMembers(c, ms) && data == FileBytes(c, ms) && k <= |ms| && p == Start(c, ms, k)
    requires produced == Content(c, ms[..k])
    ensures Follows(c, ms, data, k, true, p, fed, produced)
  {
  }

  /** What has been given out is the beginning of the content. */
  lemma FollowsPrefix(c: Codec, ms: seq<Member>, data: seq<Byte>, k: nat, newMember: bool, p: nat,
      fed: seq<Byte>, produced: seq<Byte>)
    requires Lawful(c) && Follows(c, ms, data, k, newMember, p, fed, produced)
    ensures produced <= Content(c, ms)
  {
    hide FileBytes, Start, Content, Lawful;
    ContentPrefix(c, ms, k);
    if !newMember {
      var b, body := BodyStart(c, ms, k), ms[k].body;
      MemberParts(c, ms, k);
      MemberAt(c, ms, k);
      ContentPrefix(c, ms, k + 1);
      StandsIs(data, b, body);
      assert body == fed + body[|fed|..] by { assert data[b..b + |body|][..p - b] == fed; }
      OutputGrows(c, fed, body[|fed|..]);
    }
  }

  /** The check of a trailer against the running checksum and length. */
  function TrailerCheck(data: seq<Byte>, p: nat, crc: nat, size: nat): (r: Result<(), Error>)
    requires p <= |data|
    ensures r.Err? ==> r.error != NameError
  {
    if |data| < p + 8 then Err(EofError)
    else if FromLe(data[p..p + 4]) != crc then Err(CrcFailed)
    else if FromLe(data[p + 4..p + 8]) != size % WORD then Err(BadLength)
    else Ok(())
  }

  /** What is refused as a trailer, and how: too short, then the checksum, then the length. */
  lemma TrailerRefusals(data: seq<Byte>, p: nat, crc: nat, size: nat)
    requires p <= |data|
    ensures TrailerCheck(data, p, crc, size) == Err(EofError) <==> |data| < p + 8
    ensures TrailerCheck(data, p, crc, size) == Err(CrcFailed) <==> p + 8 <= |data| && FromFour(data, p) != crc
    ensures TrailerCheck(data, p, crc, size) == Err(BadLength) <==>
            p + 8 <= |data| && FromFour(data, p) == crc && FromFour(data, p + 4) != size % 0x1_0000_0000
    ensures TrailerCheck(data, p, crc, size).Ok? <==>
            p + 8 <= |data| && FromFour(data, p) == crc && FromFour(data, p + 4) == size % 0x1_0000_0000
  {
    hide FromLe;
    if p + 8 <= |data| {
      FourBytes(data[p..p + 4]);
      FourBytes(data[p + 4..p + 8]);
    }
  }

  function FromFour(data: seq<Byte>, p: nat): nat
    requires p + 4 <= |data|
  {
    data[p] as nat + 0x100 * data[p + 1] as nat + 0x1_0000 * data[p + 2] as nat + 0x100_0000 * data[p + 3] as nat
  }

  lemma FourBytes(s: seq<Byte>)
    requires |s| == 4
    ensures FromLe(s) == FromFour(s, 0)
  {
    hide FromLe;
    FromLeStep(s[0], s[1..]);
    FromLeStep(s[1], s[2..]);
    FromLeStep(s[2], s[3..]);
    FromLeStep(s[3], []);
    assert s == [s[0]] + s[1..] && s[1..] == [s[1]] + s[2..] && s[2..] == [s[2]] + s[3..] && s[3..] == [s[3]] + [];
  }

  /** The trailer of a content passes the check with its checksum and length, and no other. */
  lemma TrailerPasses(c: Codec, data: seq<Byte>, p: nat, content: seq<Byte>, crc: nat, size: nat)
    requires Lawful(c) && StandsAt(data, p, Trailer(c, content)) && p <= |data|
    ensures TrailerCheck(data, p, crc, size).Ok? <==> crc == c.crc(content, 0) && size % WORD == |content| % WORD
  {
    hide Lawful, Le32, FromLe;
    CrcAppends(c, content, []);
    var a, b := Le32(c.crc(content, 0)), Le32(|content| % WORD);
    StandsSplit(data, p, a, b);
    Le32ReadsBack(c.crc(content, 0));
    Le32ReadsBack(|content| % WORD);
  }
}
