/**
 Gzip files as `gzip34.py` reads and writes them: what it takes from zlib, and the frame
 around it (sections 2.2 and 2.3 of RFC 1952).
 */
module GzipFormat {
  import opened Wrappers

  type Byte = b: nat | b < 256

  const WORD: nat := 0x1_0000_0000

  datatype Error = EofError | NotGzipped | UnknownMethod | CrcFailed | BadLength | NameError | ValueError

  // ----- What zlib does

  /**
   The part of zlib that the module relies on.  `output(p)` is what a decompressor has given
   out after the bytes `p`, `end(p)` where in them the compressed data ended, if it has, and
   `crc(data, start)` the running checksum.  `packed(h)` is what a compressor has given out
   after it was passed the pieces `h`, and `finished(h)` the same with its flush.
   */
  datatype Codec = Codec(
    output: seq<Byte> -> seq<Byte>,
    end: seq<Byte> -> Option<nat>,
    crc: (seq<Byte>, nat) -> nat,
    packed: seq<seq<Byte>> -> seq<Byte>,
    finished: seq<seq<Byte>> -> seq<Byte>)

  function Concat(pieces: seq<seq<Byte>>): seq<Byte> {
    if pieces == [] then [] else Concat(pieces[..|pieces| - 1]) + pieces[|pieces| - 1]
  }

  /** A decompressor gives out a growing text, and nothing after the end, which it does not move. */
  ghost predicate LawfulInflate(c: Codec) {
    && c.output([]) == []
    && (forall p, q :: c.output(p) <= c.output(p + q))
    && (forall p :: c.end(p).Some? ==> c.end(p).value <= |p| && c.end(p[..c.end(p).value]) == c.end(p))
    && (forall p, q :: c.end(p).Some? ==> c.end(p + q) == c.end(p) && c.output(p + q) == c.output(p))
  }

  ghost predicate LawfulCrc(c: Codec) {
    && (forall a, s: nat :: c.crc(a, s) < WORD)
    && (forall s: nat :: s < WORD ==> c.crc([], s) == s)
    && (forall a, b, s: nat :: s < WORD ==> c.crc(b, c.crc(a, s)) == c.crc(a + b, s))
  }

  /** What a compressor gives out is compressed data that decompresses to what it was given. */
  ghost predicate LawfulDeflate(c: Codec) {
    && c.packed([]) == []
    && (forall h, d :: c.packed(h) <= c.packed(h + [d]))
    && (forall h :: c.packed(h) <= c.finished(h))
    && (forall h :: c.end(c.finished(h)) == Some(|c.finished(h)|) && c.output(c.finished(h)) == Concat(h))
  }

  ghost predicate Lawful(c: Codec) {
    LawfulInflate(c) && LawfulCrc(c) && LawfulDeflate(c)
  }

  // ----- The laws can be met

  function ToyOutput(p: seq<Byte>): seq<Byte> {
    if |p| < 2 || p[0] == 0 then [] else [p[1]] + ToyOutput(p[2..])
  }

  function ToyEnd(p: seq<Byte>): Option<nat> {
    if p == [] then None
    else if p[0] == 0 then Some(1)
    else if |p| < 2 then None
    else match ToyEnd(p[2..]) case None => None case Some(n) => Some(n + 2)
  }

  function ToyPacked(s: seq<Byte>): seq<Byte> {
    if s == [] then [] else ToyPacked(s[..|s| - 1]) + [1, s[|s| - 1]]
  }

  lemma {:induction false} ToyGrows(p: seq<Byte>, q: seq<Byte>)
    ensures ToyOutput(p) <= ToyOutput(p + q)
    ensures ToyEnd(p).Some? ==> ToyEnd(p + q) == ToyEnd(p) && ToyOutput(p + q) == ToyOutput(p)
    ensures ToyEnd(p).Some? ==> ToyEnd(p).value <= |p| && ToyEnd(p[..ToyEnd(p).value]) == ToyEnd(p)
  {
    if p != [] && p[0] == 0 {
      assert p[..1][0] == 0;
    } else if |p| >= 2 {
      ToyGrows(p[2..], q);
      assert (p + q)[2..] == p[2..] + q;
      if ToyEnd(p).Some? {
        var n := ToyEnd(p).value;
        assert p[..n][2..] == p[2..][..n - 2];
      }
    }
  }

  lemma {:induction false} ToyUnpacks(s: seq<Byte>, q: seq<Byte>)
    ensures ToyOutput(ToyPacked(s) + q) == s + ToyOutput(q)
    ensures ToyEnd(q).Some? ==> ToyEnd(ToyPacked(s) + q) == Some(|ToyPacked(s)| + ToyEnd(q).value)
  {
    if s == [] {
      assert [] + q == q;
    } else {
      var r := [1, s[|s| - 1]] + q;
      ToyUnpacks(s[..|s| - 1], r);
      assert ToyPacked(s) + q == ToyPacked(s[..|s| - 1]) + r;
      assert r[2..] == q;
      assert s == s[..|s| - 1] + [s[|s| - 1]];
    }
  }

  lemma {:induction false} ToyPackedConcat(s: seq<Byte>, d: seq<Byte>)
    ensures ToyPacked(s) <= ToyPacked(s + d)
  {
    if d == [] {
      assert s + d == s;
    } else {
      ToyPackedConcat(s, d[..|d| - 1]);
      assert (s + d)[..|s + d| - 1] == s + d[..|d| - 1];
    }
  }

  function ToyCodec(): Codec {
    Codec(p => ToyOutput(p), p => ToyEnd(p), (a: seq<Byte>, s: nat) => if s < WORD then s else 0,
          h => ToyPacked(Concat(h)), h => ToyPacked(Concat(h)) + [0])
  }

  /** What is taken from zlib is consistent: a simple code of two bytes for each one has all of it. */
  lemma LawsCanBeMet()
    ensures Lawful(ToyCodec())
  {
    hide ToyCodec, LawfulInflate, LawfulCrc, LawfulDeflate;
    ToyInflates();
    ToyDeflates();
    ToyChecks();
  }

  lemma ToyInflates()
    ensures LawfulInflate(ToyCodec())
  {
    hide ToyOutput, ToyEnd, ToyPacked, Concat;
    var c := ToyCodec();
    assert c.output([]) == [] by { assert ToyOutput([]) == [] by { ToyOfNothing(); } }
    forall p, q
      ensures c.output(p) <= c.output(p + q)
      ensures c.end(p).Some? ==> c.end(p + q) == c.end(p) && c.output(p + q) == c.output(p)
    {
      ToyGrows(p, q);
    }
    forall p | c.end(p).Some?
      ensures c.end(p).value <= |p| && c.end(p[..c.end(p).value]) == c.end(p)
    {
      ToyGrows(p, []);
    }
  }

  lemma ToyOfNothing()
    ensures ToyOutput([]) == [] && ToyPacked([]) == [] && Concat([]) == []
    ensures ToyEnd([0]) == Some(1) && ToyOutput([0]) == []
  {
  }

  lemma ToyDeflates()
    ensures LawfulDeflate(ToyCodec())
  {
    hide ToyOutput, ToyEnd, ToyPacked, Concat;
    var c := ToyCodec();
    ToyOfNothing();
    forall h, d
      ensures c.packed(h) <= c.packed(h + [d])
    {
      ConcatAppend(h, d);
      ToyPackedConcat(Concat(h), d);
    }
    forall h
      ensures c.end(c.finished(h)) == Some(|c.finished(h)|) && c.output(c.finished(h)) == Concat(h)
    {
      ToyUnpacks(Concat(h), [0]);
    }
  }

  lemma ToyChecks()
    ensures LawfulCrc(ToyCodec())
  {
    hide ToyOutput, ToyEnd, ToyPacked, Concat;
  }

  lemma ConcatAppend(h: seq<seq<Byte>>, d: seq<Byte>)
    ensures Concat(h + [d]) == Concat(h) + d && Concat([]) == []
  {
    assert (h + [d])[..|h|] == h;
  }

  // ----- The laws, one at a time

  lemma OutputGrows(c: Codec, p: seq<Byte>, q: seq<Byte>)
    requires Lawful(c)
    ensures c.output(p) <= c.output(p + q) && c.output([]) == []
  {
  }

  lemma EndStays(c: Codec, p: seq<Byte>, q: seq<Byte>)
    requires Lawful(c) && c.end(p).Some?
    ensures c.end(p).value <= |p| && c.end(p + q) == c.end(p) && c.output(p + q) == c.output(p)
  {
  }

  /** If the data ended by `p + q`, it ended by `p` already or it ended in `q`. */
  lemma EndsLater(c: Codec, p: seq<Byte>, q: seq<Byte>)
    requires Lawful(c) && c.end(p + q).Some?
    ensures c.end(p + q).value <= |p + q|
    ensures c.end(p) == c.end(p + q) || c.end(p + q).value > |p|
  {
    var n := c.end(p + q).value;
    if n <= |p| {
      assert (p + q)[..n] == p[..n];
      assert p == p[..n] + p[n..];
      EndStays(c, p[..n], p[n..]);
    }
  }

  lemma CrcAppends(c: Codec, a: seq<Byte>, b: seq<Byte>)
    requires Lawful(c)
    ensures c.crc(a, 0) < WORD && c.crc([], 0) == 0 && c.crc(b, c.crc(a, 0)) == c.crc(a + b, 0) && c.crc(b, 0) < WORD
  {
  }

  lemma PackedGrows(c: Codec, h: seq<seq<Byte>>, d: seq<Byte>)
    requires Lawful(c)
    ensures c.packed([]) == [] && c.packed(h) <= c.packed(h + [d]) && c.packed(h) <= c.finished(h)
    ensures c.end(c.finished(h)) == Some(|c.finished(h)|) && c.output(c.finished(h)) == Concat(h)
    ensures Concat(h + [d]) == Concat(h) + d && Concat([]) == []
  {
    ConcatAppend(h, d);
  }

  // ----- Numbers

  function Le16(v: nat): (s: seq<Byte>)
    ensures |s| == 2
  {
    [v % 256, v / 256 % 256]
  }

  /** `struct.pack("<L", v)` */
  function Le32(v: nat): (s: seq<Byte>)
    ensures |s| == 4
  {
    [v % 256, v / 256 % 256, v / 0x1_0000 % 256, v / 0x100_0000 % 256]
  }

  /** The little-endian number that the bytes hold. */
  function FromLe(s: seq<Byte>): nat {
    if s == [] then 0 else (s[0] as nat) + 256 * FromLe(s[1..])
  }

  lemma Le16ReadsBack(v: nat)
    requires v < 0x1_0000
    ensures FromLe(Le16(v)) == v
  {
    var s := Le16(v);
    FromLeStep(s[0], s[1..]);
    FromLeStep(s[1], []);
    assert s == [s[0]] + s[1..] && s[1..] == [s[1]] + [];
  }

  lemma FromLeStep(x: Byte, s: seq<Byte>)
    ensures FromLe([]) == 0 && FromLe([x] + s) == (x as nat) + 256 * FromLe(s)
  {
    assert ([x] + s)[1..] == s;
  }

  lemma Le32ReadsBack(v: nat)
    requires v < WORD
    ensures FromLe(Le32(v)) == v
  {
    hide FromLe;
    var s := Le32(v);
    FromLeStep(s[0], s[1..]);
    FromLeStep(s[1], s[2..]);
    FromLeStep(s[2], s[3..]);
    FromLeStep(s[3], []);
    assert s == [s[0]] + s[1..] && s[1..] == [s[1]] + s[2..] && s[2..] == [s[2]] + s[3..] && s[3..] == [s[3]] + [];
    FourDigits(v);
  }

  lemma FourDigits(v: nat)
    requires v < WORD
    ensures v == v % 256 + 256 * (v / 256 % 256 + 256 * (v / 0x1_0000 % 256 + 256 * (v / 0x100_0000 % 256)))
  {
    assert v / 256 / 256 == v / 0x1_0000 && v / 0x1_0000 / 256 == v / 0x100_0000;
  }

  // ----- Members

  const FHCRC: nat := 2
  const FEXTRA: nat := 4
  const FNAME: nat := 8
  const FCOMMENT: nat := 16

  predicate Flag(flags: Byte, flag: nat)
    requires flag > 0
  {
    flags / flag % 2 == 1
  }

  /** A header; the fields after `system` are there if the flags say so. */
  datatype Header = Header(flags: Byte, mtime: seq<Byte>, level: Byte, system: Byte,
                           extra: seq<Byte>, name: seq<Byte>, comment: seq<Byte>, crc16: seq<Byte>)

  predicate ValidHeader(h: Header) {
    |h.mtime| == 4 && |h.extra| < 0x1_0000 && 0 !in h.name && 0 !in h.comment && |h.crc16| == 2
  }

  /** The first ten bytes. */
  function FixedBytes(h: Header): seq<Byte> {
    [0x1f, 0x8b, 8, h.flags] + h.mtime + [h.level, h.system]
  }

  function ExtraBytes(h: Header): seq<Byte> {
    if Flag(h.flags, FEXTRA) then Le16(|h.extra|) + h.extra else []
  }

  function NameBytes(h: Header): seq<Byte> {
    if Flag(h.flags, FNAME) then h.name + [0] else []
  }

  function CommentBytes(h: Header): seq<Byte> {
    if Flag(h.flags, FCOMMENT) then h.comment + [0] else []
  }

  function HeaderCrcBytes(h: Header): seq<Byte> {
    if Flag(h.flags, FHCRC) then h.crc16 else []
  }

  function HeaderBytes(h: Header): seq<Byte> {
    FixedBytes(h) + ExtraBytes(h) + NameBytes(h) + CommentBytes(h) + HeaderCrcBytes(h)
  }

  /** A member: its compressed data, and how many zero bytes pad it. */
  datatype Member = Member(header: Header, body: seq<Byte>, zeros: nat)

  ghost predicate ValidMember(c: Codec, m: Member) {
    ValidHeader(m.header) && c.end(m.body) == Some(|m.body|)
  }

  /** The checksum and the length of the content, modulo `2^32`. */
  function Trailer(c: Codec, content: seq<Byte>): (s: seq<Byte>)
    ensures |s| == 8
  {
    Le32(c.crc(content, 0)) + Le32(|content| % WORD)
  }

  function Zeros(n: nat): (s: seq<Byte>)
    ensures |s| == n && forall i :: 0 <= i < n ==> s[i] == 0
  {
    if n == 0 then [] else [0] + Zeros(n - 1)
  }

  function MemberBytes(c: Codec, m: Member): seq<Byte> {
    HeaderBytes(m.header) + m.body + Trailer(c, c.output(m.body)) + Zeros(m.zeros)
  }

  function FileBytes(c: Codec, members: seq<Member>): seq<Byte> {
    if members == [] then [] else FileBytes(c, members[..|members| - 1]) + MemberBytes(c, members[|members| - 1])
  }

  /** What the file holds: the contents of its members, one after the other. */
  function Content(c: Codec, members: seq<Member>): seq<Byte> {
    if members == [] then [] else Content(c, members[..|members| - 1]) + c.output(members[|members| - 1].body)
  }

  ghost predicate ValidMembers(c: Codec, members: seq<Member>) {
    forall i :: 0 <= i < |members| ==> ValidMember(c, members[i])
  }

  /** Where member `k` starts in the file. */
  function Start(c: Codec, members: seq<Member>, k: nat): nat
    requires k <= |members|
  {
    |FileBytes(c, members[..k])|
  }

  lemma {:induction false} FilePrefix(c: Codec, members: seq<Member>, k: nat)
    requires k <= |members|
    ensures FileBytes(c, members[..k]) <= FileBytes(c, members)
    decreases |members|
  {
    if k < |members| {
      FilePrefix(c, members[..|members| - 1], k);
      assert members[..|members| - 1][..k] == members[..k];
    } else {
      assert members[..k] == members;
    }
  }

  /** The bytes of one member, where they are in the file. */
  lemma MemberAt(c: Codec, members: seq<Member>, k: nat)
    requires k < |members|
    ensures Start(c, members, k + 1) == Start(c, members, k) + |MemberBytes(c, members[k])| <= |FileBytes(c, members)|
    ensures FileBytes(c, members)[Start(c, members, k)..Start(c, members, k + 1)] == MemberBytes(c, members[k])
    ensures Content(c, members[..k + 1]) == Content(c, members[..k]) + c.output(members[k].body)
  {
    hide *;
    assert members[..k + 1] == members[..k] + [members[k]];
    FileAppend(c, members[..k], members[k]);
    FilePrefix(c, members, k + 1);
    StartIs(c, members, k);
    StartIs(c, members, k + 1);
  }

  lemma StartIs(c: Codec, members: seq<Member>, k: nat)
    requires k <= |members|
    ensures Start(c, members, k) == |FileBytes(c, members[..k])|
  {
  }

  lemma FileAppend(c: Codec, members: seq<Member>, m: Member)
    ensures FileBytes(c, members + [m]) == FileBytes(c, members) + MemberBytes(c, m)
    ensures Content(c, members + [m]) == Content(c, members) + c.output(m.body)
  {
    hide MemberBytes;
    assert (members + [m])[..|members|] == members;
  }

  lemma WholeFile(c: Codec, members: seq<Member>)
    ensures Start(c, members, |members|) == |FileBytes(c, members)| && Start(c, members, 0) == 0
    ensures Content(c, members[..|members|]) == Content(c, members) && Content(c, members[..0]) == []
  {
    assert members[..|members|] == members;
  }

  lemma {:induction false} ContentPrefix(c: Codec, members: seq<Member>, k: nat)
    requires k <= |members|
    ensures Content(c, members[..k]) <= Content(c, members)
    decreases |members|
  {
    if k < |members| {
      ContentPrefix(c, members[..|members| - 1], k);
      assert members[..|members| - 1][..k] == members[..k];
    } else {
      assert members[..k] == members;
    }
  }

  // ----- What reading a header finds

  /** Past the next zero byte, or the end of the data. */
  function PastZero(data: seq<Byte>, p: nat): (q: nat)
    requires p <= |data|
    ensures p <= q <= |data|
    decreases |data| - p
  {
    if p == |data| then p else if data[p] == 0 then p + 1 else PastZero(data, p + 1)
  }

  /** Past the zero bytes at `p`. */
  function PastZeros(data: seq<Byte>, p: nat): (q: nat)
    requires p <= |data|
    ensures p <= q <= |data|
    decreases |data| - p
  {
    if p < |data| && data[p] == 0 then PastZeros(data, p + 1) else p
  }

  /** Where the header that starts at `p` ends: `None` if there is none. */
  function HeaderEnd(data: seq<Byte>, p: nat): (r: Result<Option<nat>, Error>)
    requires p <= |data|
    ensures r.Ok? && r.value.Some? ==> p + 10 <= r.value.value <= |data|
    ensures r == Ok(None) ==> p == |data|
    ensures r.Err? ==> r.error != NameError
  {
    if p == |data| then Ok(None)
    else if |data| < p + 2 || data[p..p + 2] != [0x1f, 0x8b] then Err(NotGzipped)
    else if |data| < p + 10 then Err(EofError)
    else if data[p + 2] != 8 then Err(UnknownMethod)
    else FieldsEnd(data, p + 10, data[p + 3])
  }

  /** Where the optional fields that the flags announce end. */
  function FieldsEnd(data: seq<Byte>, p: nat, flags: Byte): (r: Result<Option<nat>, Error>)
    requires p <= |data|
    ensures r.Ok? ==> r.value.Some? && p <= r.value.value <= |data|
    ensures r.Err? ==> r.error == EofError
  {
    var extra := if Flag(flags, FEXTRA) then ExtraEnd(data, p) else Ok(p);
    if extra.Err? then Err(extra.error)
    else
      var name := if Flag(flags, FNAME) then PastZero(data, extra.value) else extra.value;
      var comment := if Flag(flags, FCOMMENT) then PastZero(data, name) else name;
      if !Flag(flags, FHCRC) then Ok(Some(comment))
      else if |data| < comment + 2 then Err(EofError)
      else Ok(Some(comment + 2))
  }

  function ExtraEnd(data: seq<Byte>, p: nat): (r: Result<nat, Error>)
    requires p <= |data|
    ensures r.Ok? ==> p <= r.value <= |data|
    ensures r.Err? ==> r.error == EofError
  {
    if |data| < p + 2 then Err(EofError)
    else if |data| < p + 2 + FromLe(data[p..p + 2]) then Err(EofError)
    else Ok(p + 2 + FromLe(data[p..p + 2]))
  }

  /** `part` stands at `p` in the data. */
  ghost predicate StandsAt(data: seq<Byte>, p: nat, part: seq<Byte>) {
    p + |part| <= |data| && data[p..p + |part|] == part
  }

  lemma StandsSplit(data: seq<Byte>, p: nat, a: seq<Byte>, b: seq<Byte>)
    requires StandsAt(data, p, a + b)
    ensures StandsAt(data, p, a) && StandsAt(data, p + |a|, b)
  {
    assert data[p..p + |a + b|][..|a|] == a;
    assert data[p..p + |a + b|][|a|..] == b;
  }

  lemma StandsOne(data: seq<Byte>, p: nat, part: seq<Byte>, i: nat)
    requires StandsAt(data, p, part) && i < |part|
    ensures p + i < |data| && data[p + i] == part[i]
  {
    assert data[p..p + |part|][i] == part[i];
  }

  lemma {:induction false} StringEnds(data: seq<Byte>, p: nat, s: seq<Byte>)
    requires 0 !in s && StandsAt(data, p, s + [0])
    ensures p <= |data| && PastZero(data, p) == p + |s| + 1
    decreases |s|
  {
    StandsOne(data, p, s + [0], 0);
    if s != [] {
      assert s[0] in s && (s + [0])[0] == s[0];
      assert s + [0] == [s[0]] + (s[1..] + [0]);
      StandsSplit(data, p, [s[0]], s[1..] + [0]);
      StringEnds(data, p + 1, s[1..]);
    }
  }

  lemma {:induction false} PaddingEnds(data: seq<Byte>, p: nat, n: nat)
    requires StandsAt(data, p, Zeros(n)) && (p + n == |data| || data[p + n] != 0)
    ensures p <= |data| && PastZeros(data, p) == p + n
    decreases n
  {
    if n > 0 {
      StandsOne(data, p, Zeros(n), 0);
      StandsSplit(data, p, [0], Zeros(n - 1));
      PaddingEnds(data, p + 1, n - 1);
    }
  }

  lemma HeaderParts(data: seq<Byte>, p: nat, h: Header)
    requires StandsAt(data, p, HeaderBytes(h)) && ValidHeader(h)
    ensures StandsAt(data, p, FixedBytes(h)) && StandsAt(data, p + 10, ExtraBytes(h))
    ensures var q := p + 10 + |ExtraBytes(h)|;
            && StandsAt(data, q, NameBytes(h)) && StandsAt(data, q + |NameBytes(h)|, CommentBytes(h))
            && StandsAt(data, q + |NameBytes(h)| + |CommentBytes(h)|, HeaderCrcBytes(h))
            && |HeaderBytes(h)| == 10 + |ExtraBytes(h)| + |NameBytes(h)| + |CommentBytes(h)| + |HeaderCrcBytes(h)|
  {
    hide *;
    HeaderIs(h);
    var f, e, n, m, c := FixedBytes(h), ExtraBytes(h), NameBytes(h), CommentBytes(h), HeaderCrcBytes(h);
    StandsSplit(data, p, f + e + n + m, c);
    StandsSplit(data, p, f + e + n, m);
    StandsSplit(data, p, f + e, n);
    StandsSplit(data, p, f, e);
  }

  lemma HeaderIs(h: Header)
    requires ValidHeader(h)
    ensures HeaderBytes(h) == FixedBytes(h) + ExtraBytes(h) + NameBytes(h) + CommentBytes(h) + HeaderCrcBytes(h)
    ensures |FixedBytes(h)| == 10
  {
  }

  lemma FixedRead(data: seq<Byte>, p: nat, h: Header)
    requires StandsAt(data, p, FixedBytes(h)) && ValidHeader(h)
    ensures p + 10 <= |data| && data[p..p + 2] == [0x1f, 0x8b] && data[p + 2] == 8 && data[p + 3] == h.flags
  {
    StandsOne(data, p, FixedBytes(h), 0);
    StandsOne(data, p, FixedBytes(h), 1);
    StandsOne(data, p, FixedBytes(h), 2);
    StandsOne(data, p, FixedBytes(h), 3);
  }

  lemma ExtraRead(data: seq<Byte>, p: nat, extra: seq<Byte>)
    requires StandsAt(data, p, Le16(|extra|) + extra) && |extra| < 0x1_0000
    ensures p <= |data| && ExtraEnd(data, p) == Ok(p + |extra| + 2)
  {
    hide FromLe, Le16;
    StandsSplit(data, p, Le16(|extra|), extra);
    Le16ReadsBack(|extra|);
  }

  // ----- The same in numbers

  /** The bytes of a header: the flag bits 4, 8, 16 and 2 say which fields follow the first ten. */
  lemma HeaderInNumbers(h: Header)
    requires ValidHeader(h)
    ensures HeaderBytes(h) ==
              [31, 139, 8, h.flags] + h.mtime + [h.level, h.system]
              + (if h.flags / 4 % 2 == 1 then [|h.extra| % 256, |h.extra| / 256] + h.extra else [])
              + (if h.flags / 8 % 2 == 1 then h.name + [0] else [])
              + (if h.flags / 16 % 2 == 1 then h.comment + [0] else [])
              + (if h.flags / 2 % 2 == 1 then h.crc16 else [])
  {
  }

  predicate Magic(data: seq<Byte>, p: nat) {
    p + 2 <= |data| && data[p] == 31 && data[p + 1] == 139
  }

  /** What is refused as a header, and how. */
  lemma HeaderRefusals(data: seq<Byte>, p: nat)
    requires p <= |data|
    ensures HeaderEnd(data, p) == Ok(None) <==> p == |data|
    ensures HeaderEnd(data, p) == Err(NotGzipped) <==> p < |data| && !Magic(data, p)
    ensures HeaderEnd(data, p) == Err(UnknownMethod) <==> Magic(data, p) && p + 10 <= |data| && data[p + 2] != 8
    ensures Magic(data, p) && |data| < p + 10 ==> HeaderEnd(data, p) == Err(EofError)
    ensures Magic(data, p) && p + 10 <= |data| && data[p + 2] == 8 ==>
              HeaderEnd(data, p) == FieldsEnd(data, p + 10, data[p + 3])
  {
    hide FieldsEnd;
    if p + 2 <= |data| {
      assert data[p..p + 2] == [data[p], data[p + 1]];
    }
  }

  /** The two bytes at `p`, the lesser first. */
  function FromTwo(data: seq<Byte>, p: nat): nat
    requires p + 2 <= |data|
  {
    data[p] as nat + 256 * data[p + 1] as nat
  }

  /** Where the fields end that the flag bits 4, 8, 16 and 2 announce. */
  lemma FieldsInNumbers(data: seq<Byte>, p: nat, flags: Byte)
    requires p <= |data|
    ensures var short := flags / 4 % 2 == 1 && (|data| < p + 2 || |data| < p + 2 + FromTwo(data, p));
            && (short ==> FieldsEnd(data, p, flags) == Err(EofError))
            && (!short ==>
                  var extra := if flags / 4 % 2 == 1 then p + 2 + FromTwo(data, p) else p;
                  var name := if flags / 8 % 2 == 1 then PastZero(data, extra) else extra;
                  var comment := if flags / 16 % 2 == 1 then PastZero(data, name) else name;
                  FieldsEnd(data, p, flags) ==
                    if flags / 2 % 2 != 1 then Ok(Some(comment))
                    else if |data| < comment + 2 then Err(EofError)
                    else Ok(Some(comment + 2)))
  {
    hide PastZero, Flag, ExtraEnd, FromTwo;
    FlagBits(flags);
    ExtraInNumbers(data, p);
  }

  lemma FlagBits(flags: Byte)
    ensures Flag(flags, FEXTRA) <==> flags / 4 % 2 == 1
    ensures Flag(flags, FNAME) <==> flags / 8 % 2 == 1
    ensures Flag(flags, FCOMMENT) <==> flags / 16 % 2 == 1
    ensures Flag(flags, FHCRC) <==> flags / 2 % 2 == 1
  {
  }

  lemma ExtraInNumbers(data: seq<Byte>, p: nat)
    requires p <= |data|
    ensures ExtraEnd(data, p) ==
            if |data| < p + 2 || |data| < p + 2 + FromTwo(data, p) then Err(EofError)
            else Ok(p + 2 + FromTwo(data, p))
  {
    hide FromLe;
    if p + 2 <= |data| {
      TwoBytes(data[p..p + 2]);
    }
  }

  lemma TwoBytes(s: seq<Byte>)
    requires |s| == 2
    ensures FromLe(s) == FromTwo(s, 0)
  {
    FromLeStep(s[0], s[1..]);
    FromLeStep(s[1], []);
    assert s == [s[0]] + s[1..] && s[1..] == [s[1]] + [];
  }

  /** The bytes after the data of a member: checksum, then length, the least byte of each first. */
  lemma TrailerInNumbers(c: Codec, content: seq<Byte>)
    ensures var crc, size := c.crc(content, 0), |content| % 0x1_0000_0000;
            Trailer(c, content) ==
              [crc % 256, crc / 0x100 % 256, crc / 0x1_0000 % 256, crc / 0x100_0000 % 256,
               size % 256, size / 0x100 % 256, size / 0x1_0000 % 256, size / 0x100_0000 % 256]
  {
  }

  /** A header is read to its end, whichever of its optional fields are there. */
  lemma HeaderReadsBack(data: seq<Byte>, p: nat, h: Header)
    requires StandsAt(data, p, HeaderBytes(h)) && ValidHeader(h)
    ensures p <= |data| && HeaderEnd(data, p) == Ok(Some(p + |HeaderBytes(h)|))
  {
    hide HeaderBytes, FixedBytes, StandsAt, FieldsEnd;
    HeaderParts(data, p, h);
    FixedRead(data, p, h);
    FieldsReadBack(data, p + 10, h);
  }

  lemma FieldsReadBack(data: seq<Byte>, p: nat, h: Header)
    requires ValidHeader(h) && p <= |data| && StandsAt(data, p, ExtraBytes(h))
    requires var q := p + |ExtraBytes(h)|;
             && StandsAt(data, q, NameBytes(h)) && StandsAt(data, q + |NameBytes(h)|, CommentBytes(h))
             && StandsAt(data, q + |NameBytes(h)| + |CommentBytes(h)|, HeaderCrcBytes(h))
    ensures FieldsEnd(data, p, h.flags) ==
            Ok(Some(p + |ExtraBytes(h)| + |NameBytes(h)| + |CommentBytes(h)| + |HeaderCrcBytes(h)|))
  {
    hide ExtraEnd, PastZero, StandsAt, Flag;
    var q := p;
    if Flag(h.flags, FEXTRA) {
      ExtraRead(data, q, h.extra);
      q := q + |ExtraBytes(h)|;
    }
    if Flag(h.flags, FNAME) {
      StringEnds(data, q, h.name);
      q := q + |NameBytes(h)|;
    }
    if Flag(h.flags, FCOMMENT) {
      StringEnds(data, q, h.comment);
      q := q + |CommentBytes(h)|;
    }
    StandsInside(data, q, HeaderCrcBytes(h));
  }

  lemma StandsInside(data: seq<Byte>, p: nat, part: seq<Byte>)
    requires StandsAt(data, p, part)
    ensures p + |part| <= |data|
  {
  }

  lemma SliceOfSlice(s: seq<Byte>, i: nat, j: nat, k: nat, l: nat)
    requires i <= j <= |s| && k <= l <= j - i
    ensures i + l <= |s| && s[i..j][k..l] == s[i + k..i + l]
  {
    var a, b := s[i..j][k..l], s[i + k..i + l];
    assert |a| == |b|;
    forall x | 0 <= x < |a|
      ensures a[x] == b[x]
    {
      assert a[x] == s[i..j][k + x] == s[i + (k + x)];
    }
  }
}
