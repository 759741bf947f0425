/** A file comes to a content if and only if it is the bytes of gzip members, one after the other. */
module GzipWellFormed {
  import opened Wrappers
  import opened GzipFormat
  import opened GzipTracking
  import opened GzipVerdict

  // ----- The bytes of members come to their content

  lemma {:induction false} MembersVerdict(c: Codec, ms: seq<Member>, k: nat) returns (rest: seq<Byte>)
    requires Lawful(c) && ValidMembers(c, ms) && k <= |ms|
    ensures Start(c, ms, k) <= |FileBytes(c, ms)| && Verdict(c, FileBytes(c, ms), Start(c, ms, k)) == Ok(rest)
    ensures Content(c, ms) == Content(c, ms[..k]) + rest
    decreases |ms| - k
  {
    hide *;
    var data, p := FileBytes(c, ms), Start(c, ms, k);
    NextStart(c, ms, k);
    WholeFile(c, ms);
    VerdictIs(c, data, p);
    if k == |ms| {
      NoHeader(data);
      rest := [];
      assert Content(c, ms) + [] == Content(c, ms);
    } else {
      rest := MembersVerdict(c, ms, k + 1);
      MemberParts(c, ms, k);
      HeaderValid(c, ms[k]);
      HeaderReadsBack(data, p, ms[k].header);
      BodyStartIs(c, ms, k);
      var q, body := BodyStart(c, ms, k), ms[k].body;
      StandsIs(data, q, body);
      assert data[q..] == body + data[q + |body|..];
      EndStays(c, body, data[q + |body|..]);
      BodyVerdictIs(c, data, q);
      TrailerPasses(c, data, q + |body|, c.output(body), c.crc(c.output(body), 0), |c.output(body)|);
      NextStart(c, ms, k + 1);
      PaddingEnds(data, q + |body| + 8, ms[k].zeros);
      MemberAt(c, ms, k);
      ThenOk(c.output(body), rest);
      assert Content(c, ms[..k]) + c.output(body) + rest == Content(c, ms[..k]) + (c.output(body) + rest);
      rest := c.output(body) + rest;
    }
  }

  lemma ThenOk(a: seq<Byte>, b: seq<Byte>)
    ensures Then(a, Ok(b)) == Ok(a + b)
  {
  }

  lemma BodyStartIs(c: Codec, ms: seq<Member>, k: nat)
    requires k < |ms|
    ensures BodyStart(c, ms, k) == Start(c, ms, k) + |HeaderBytes(ms[k].header)|
  {
  }

  // ----- What comes to a content is the bytes of members

  lemma StandsJoin(data: seq<Byte>, p: nat, a: seq<Byte>, b: seq<Byte>)
    requires StandsAt(data, p, a) && StandsAt(data, p + |a|, b)
    ensures StandsAt(data, p, a + b)
  {
    assert data[p..p + |a + b|] == data[p..p + |a|] + data[p + |a|..p + |a| + |b|];
  }

  lemma SliceStands(data: seq<Byte>, p: nat, q: nat)
    requires p <= q <= |data|
    ensures StandsAt(data, p, data[p..q])
  {
  }

  /** A string before the end of the file ends with its zero byte. */
  lemma {:induction false} StringFound(data: seq<Byte>, p: nat)
    requires p <= |data| && PastZero(data, p) < |data|
    ensures var q := PastZero(data, p); q > p && 0 !in data[p..q - 1] && data[q - 1] == 0
    decreases |data| - p
  {
    if data[p] != 0 {
      StringFound(data, p + 1);
      var q := PastZero(data, p);
      assert data[p..q - 1] == [data[p]] + data[p + 1..q - 1];
    }
  }

  lemma {:induction false} PaddingFound(data: seq<Byte>, p: nat)
    requires p <= |data|
    ensures var q := PastZeros(data, p); StandsAt(data, p, Zeros(q - p))
    decreases |data| - p
  {
    hide StandsAt;
    var q := PastZeros(data, p);
    if p < |data| && data[p] == 0 {
      PaddingFound(data, p + 1);
      assert Zeros(q - p) == [0] + Zeros(q - p - 1);
      OneStands(data, p);
      StandsJoin(data, p, [0], Zeros(q - p - 1));
    } else {
      NothingStands(data, p);
    }
  }

  lemma OneStands(data: seq<Byte>, p: nat)
    requires p < |data| && data[p] == 0
    ensures StandsAt(data, p, [0])
  {
  }

  lemma NothingStands(data: seq<Byte>, p: nat)
    requires p <= |data|
    ensures StandsAt(data, p, [])
  {
  }

  lemma Le16Back(s: seq<Byte>)
    requires |s| == 2
    ensures FromLe(s) < 0x1_0000 && Le16(FromLe(s)) == s
  {
    FromLeStep(s[0], s[1..]);
    FromLeStep(s[1], []);
    assert s == [s[0]] + s[1..] && s[1..] == [s[1]] + [];
  }

  lemma Le32Back(s: seq<Byte>)
    requires |s| == 4
    ensures FromLe(s) < WORD && Le32(FromLe(s)) == s
  {
    hide FromLe;
    FromLeStep(s[0], s[1..]);
    FromLeStep(s[1], s[2..]);
    FromLeStep(s[2], s[3..]);
    FromLeStep(s[3], []);
    assert s == [s[0]] + s[1..] && s[1..] == [s[1]] + s[2..] && s[2..] == [s[2]] + s[3..] && s[3..] == [s[3]] + [];
    DigitsOf(s[0] as nat, s[1] as nat, s[2] as nat, s[3] as nat);
  }

  lemma DigitsOf(a: nat, b: nat, c: nat, d: nat)
    requires a < 256 && b < 256 && c < 256 && d < 256
    ensures var v := a + 256 * (b + 256 * (c + 256 * d));
            && v < WORD && v % 256 == a && v / 256 % 256 == b
            && v / 0x1_0000 % 256 == c && v / 0x100_0000 % 256 == d
  {
    var v := a + 256 * (b + 256 * (c + 256 * d));
    assert v / 256 == b + 256 * (c + 256 * d);
    assert v / 0x1_0000 == c + 256 * d;
    assert v / 0x100_0000 == d;
  }

  lemma ExtraFound(data: seq<Byte>, p: nat, e: nat)
    requires p <= |data| && ExtraEnd(data, p) == Ok(e)
    ensures p + 2 <= e <= |data| && e - p - 2 < 0x1_0000
    ensures StandsAt(data, p, Le16(|data[p + 2..e]|) + data[p + 2..e])
  {
    hide FromLe, Le16, StandsAt;
    Le16Back(data[p..p + 2]);
    SliceStands(data, p, p + 2);
    SliceStands(data, p + 2, e);
    StandsJoin(data, p, data[p..p + 2], data[p + 2..e]);
  }

  /** Where each of the optional fields ends. */
  lemma FieldEnds(data: seq<Byte>, p: nat, flags: Byte, q: nat) returns (e0: nat, e1: nat, e2: nat)
    requires p <= |data| && FieldsEnd(data, p, flags) == Ok(Some(q)) && q < |data|
    ensures p <= e0 <= e1 <= e2 <= q
    ensures if Flag(flags, FEXTRA) then ExtraEnd(data, p) == Ok(e0) else e0 == p
    ensures e1 == if Flag(flags, FNAME) then PastZero(data, e0) else e0
    ensures e2 == if Flag(flags, FCOMMENT) then PastZero(data, e1) else e1
    ensures q == if Flag(flags, FHCRC) then e2 + 2 else e2
  {
    hide ExtraEnd, PastZero, Flag;
    e0 := if Flag(flags, FEXTRA) then ExtraEnd(data, p).value else p;
    e1 := if Flag(flags, FNAME) then PastZero(data, e0) else e0;
    e2 := if Flag(flags, FCOMMENT) then PastZero(data, e1) else e1;
  }

  lemma ExtraOf(data: seq<Byte>, p: nat, e: nat, there: bool) returns (extra: seq<Byte>)
    requires p <= |data| && if there then ExtraEnd(data, p) == Ok(e) else e == p
    ensures |extra| < 0x1_0000
    ensures var bytes := if there then Le16(|extra|) + extra else []; StandsAt(data, p, bytes) && p + |bytes| == e
  {
    hide FromLe, Le16, StandsAt, ExtraEnd;
    extra := [];
    NothingStands(data, p);
    if there {
      ExtraFound(data, p, e);
      extra := data[p + 2..e];
    }
  }

  /** The string in a field that ends before the file does. */
  lemma TextOf(data: seq<Byte>, p: nat, q: nat, there: bool) returns (s: seq<Byte>)
    requires p <= q < |data| && q == if there then PastZero(data, p) else p
    ensures 0 !in s && data[p..q] == if there then s + [0] else []
  {
    s := [];
    if there {
      StringFound(data, p);
      s := data[p..q - 1];
      assert data[p..q] == s + [0];
    }
  }

  lemma FieldParts(h: Header)
    ensures ExtraBytes(h) == if Flag(h.flags, FEXTRA) then Le16(|h.extra|) + h.extra else []
    ensures NameBytes(h) == if Flag(h.flags, FNAME) then h.name + [0] else []
    ensures CommentBytes(h) == if Flag(h.flags, FCOMMENT) then h.comment + [0] else []
    ensures HeaderCrcBytes(h) == if Flag(h.flags, FHCRC) then h.crc16 else []
  {
    hide Flag, Le16;
  }

  lemma FieldsJoin(data: seq<Byte>, p: nat, e0: nat, e1: nat, e2: nat, q: nat, e: seq<Byte>)
    requires p <= e0 <= e1 <= e2 <= q <= |data| && StandsAt(data, p, e) && p + |e| == e0
    ensures var fields := e + data[e0..e1] + data[e1..e2] + data[e2..q]; StandsAt(data, p, fields) && p + |fields| == q
  {
    hide StandsAt;
    SliceStands(data, e0, e1);
    SliceStands(data, e1, e2);
    SliceStands(data, e2, q);
    StandsJoin(data, p, e, data[e0..e1]);
    StandsJoin(data, p, e + data[e0..e1], data[e1..e2]);
    StandsJoin(data, p, e + data[e0..e1] + data[e1..e2], data[e2..q]);
  }

  /** The optional fields that the flags announce, as they are found before the end of the file. */
  lemma FieldsFound(data: seq<Byte>, p: nat, flags: Byte, mtime: seq<Byte>, level: Byte, system: Byte, q: nat)
    returns (h: Header)
    requires p <= |data| && |mtime| == 4 && FieldsEnd(data, p, flags) == Ok(Some(q)) && q < |data|
    ensures ValidHeader(h) && h.flags == flags && h.mtime == mtime && h.level == level && h.system == system
    ensures var fields := ExtraBytes(h) + NameBytes(h) + CommentBytes(h) + HeaderCrcBytes(h);
            StandsAt(data, p, fields) && p + |fields| == q
  {
    hide Flag, FieldsEnd, ExtraEnd, PastZero, StandsAt, ValidHeader, Le16, FromLe;
    hide ExtraBytes, NameBytes, CommentBytes, HeaderCrcBytes;
    var e0, e1, e2 := FieldEnds(data, p, flags, q);
    var extra := ExtraOf(data, p, e0, Flag(flags, FEXTRA));
    var name := TextOf(data, e0, e1, Flag(flags, FNAME));
    var comment := TextOf(data, e1, e2, Flag(flags, FCOMMENT));
    var crc16: seq<Byte> := if Flag(flags, FHCRC) then data[e2..q] else [0, 0];
    h := Header(flags, mtime, level, system, extra, name, comment, crc16);
    FieldParts(h);
    HeaderIsValid(h);
    FieldsJoin(data, p, e0, e1, e2, q, ExtraBytes(h));
  }

  lemma HeaderIsValid(h: Header)
    requires |h.mtime| == 4 && |h.extra| < 0x1_0000 && 0 !in h.name && 0 !in h.comment && |h.crc16| == 2
    ensures ValidHeader(h)
  {
  }

  lemma HeaderFound(data: seq<Byte>, p: nat, q: nat) returns (h: Header)
    requires p <= |data| && HeaderEnd(data, p) == Ok(Some(q)) && q < |data|
    ensures ValidHeader(h) && StandsAt(data, p, HeaderBytes(h)) && p + |HeaderBytes(h)| == q
  {
    hide FieldsEnd, ExtraBytes, NameBytes, CommentBytes, HeaderCrcBytes, StandsAt, HeaderBytes;
    h := FieldsFound(data, p + 10, data[p + 3], data[p + 4..p + 8], data[p + 8], data[p + 9], q);
    var f, e, n, m, c := FixedBytes(h), ExtraBytes(h), NameBytes(h), CommentBytes(h), HeaderCrcBytes(h);
    FixedFound(data, p, h);
    StandsJoin(data, p, f, e + n + m + c);
    HeaderIs(h);
    assert f + (e + n + m + c) == f + e + n + m + c;
  }

  lemma FixedFound(data: seq<Byte>, p: nat, h: Header)
    requires p + 10 <= |data| && data[p..p + 2] == [0x1f, 0x8b] && data[p + 2] == 8 && data[p + 3] == h.flags
    requires h.mtime == data[p + 4..p + 8] && h.level == data[p + 8] && h.system == data[p + 9]
    ensures StandsAt(data, p, FixedBytes(h)) && |FixedBytes(h)| == 10
  {
    assert data[p] == data[p..p + 2][0] && data[p + 1] == data[p..p + 2][1];
    assert data[p..p + 10] == FixedBytes(h);
  }

  lemma TrailerFound(c: Codec, data: seq<Byte>, p: nat, content: seq<Byte>)
    requires Lawful(c) && p <= |data| && TrailerCheck(data, p, c.crc(content, 0), |content|).Ok?
    ensures StandsAt(data, p, Trailer(c, content))
  {
    hide StandsAt, FromLe, Le32, Lawful;
    Le32Back(data[p..p + 4]);
    Le32Back(data[p + 4..p + 8]);
    SliceStands(data, p, p + 4);
    SliceStands(data, p + 4, p + 8);
    StandsJoin(data, p, data[p..p + 4], data[p + 4..p + 8]);
  }

  /** A member is found where the verdict goes on past one. */
  lemma MemberFound(c: Codec, data: seq<Byte>, p: nat, q: nat, n: nat) returns (m: Member)
    requires Lawful(c) && p <= |data| && HeaderEnd(data, p) == Ok(Some(q)) && q <= |data|
    requires c.end(data[q..]) == Some(n) && q + n + 8 <= |data|
    requires TrailerCheck(data, q + n, c.crc(c.output(data[q..]), 0), |c.output(data[q..])|).Ok?
    ensures ValidMember(c, m) && c.output(m.body) == c.output(data[q..])
    ensures StandsAt(data, p, MemberBytes(c, m)) && p + |MemberBytes(c, m)| == PastZeros(data, q + n + 8)
  {
    hide *;
    var h := HeaderFound(data, p, q);
    var body := data[q..q + n];
    var end := PastZeros(data, q + n + 8);
    BodyEnds(c, data[q..], n);
    assert data[q..][..n] == body;
    TrailerFound(c, data, q + n, c.output(body));
    PaddingFound(data, q + n + 8);
    m := Member(h, body, end - (q + n + 8));
    SliceStands(data, q, q + n);
    var t, z := Trailer(c, c.output(body)), Zeros(m.zeros);
    StandsJoin(data, p, HeaderBytes(h), body);
    StandsJoin(data, p, HeaderBytes(h) + body, t);
    StandsJoin(data, p, HeaderBytes(h) + body + t, z);
    MemberIs(c, m);
  }

  lemma BodyEnds(c: Codec, rest: seq<Byte>, n: nat)
    requires Lawful(c) && c.end(rest) == Some(n)
    ensures n <= |rest| && c.end(rest[..n]) == Some(n) && c.output(rest[..n]) == c.output(rest)
  {
    assert rest == rest[..n] + rest[n..];
    EndStays(c, rest[..n], rest[n..]);
  }

  lemma MemberIs(c: Codec, m: Member)
    ensures MemberBytes(c, m) == HeaderBytes(m.header) + m.body + Trailer(c, c.output(m.body)) + Zeros(m.zeros)
    ensures ValidMember(c, m) <==> ValidHeader(m.header) && c.end(m.body) == Some(|m.body|)
  {
  }

  lemma {:induction false} FileCons(c: Codec, m: Member, ms: seq<Member>)
    ensures FileBytes(c, [m] + ms) == MemberBytes(c, m) + FileBytes(c, ms)
    ensures Content(c, [m] + ms) == c.output(m.body) + Content(c, ms)
  {
    hide MemberBytes;
    if ms == [] {
      assert [m] + ms == [] + [m];
      FileAppend(c, [], m);
      assert MemberBytes(c, m) + [] == MemberBytes(c, m) && c.output(m.body) + [] == c.output(m.body);
    } else {
      var init, last := ms[..|ms| - 1], ms[|ms| - 1];
      FileCons(c, m, init);
      assert ms == init + [last] && [m] + ms == ([m] + init) + [last];
      FileAppend(c, init, last);
      FileAppend(c, [m] + init, last);
    }
  }

  lemma {:induction false} VerdictMembers(c: Codec, data: seq<Byte>, p: nat) returns (ms: seq<Member>)
    requires Lawful(c) && p <= |data| && Verdict(c, data, p).Ok?
    ensures ValidMembers(c, ms) && data[p..] == FileBytes(c, ms) && Verdict(c, data, p).value == Content(c, ms)
    decreases |data| - p
  {
    hide *;
    VerdictIs(c, data, p);
    NoMembers(c);
    if HeaderEnd(data, p).value == None {
      return [];
    }
    var q := HeaderEnd(data, p).value.value;
    BodyVerdictIs(c, data, q);
    var n := c.end(data[q..]).value;
    var content := c.output(data[q..]);
    var next := PastZeros(data, q + n + 8);
    ThenIs(content, Verdict(c, data, next));
    var m := MemberFound(c, data, p, q, n);
    var rest := VerdictMembers(c, data, next);
    ms := [m] + rest;
    FileCons(c, m, rest);
    MoreMembers(c, m, rest);
    StandsIs(data, p, MemberBytes(c, m));
    assert data[p..] == data[p..next] + data[next..];
  }

  lemma ThenIs(before: seq<Byte>, rest: Outcome)
    ensures Then(before, rest).Ok? <==> rest.Ok?
    ensures rest.Ok? ==> Then(before, rest) == Ok(before + rest.value)
  {
  }

  lemma NoMembers(c: Codec)
    ensures ValidMembers(c, []) && FileBytes(c, []) == [] && Content(c, []) == []
  {
  }

  lemma MoreMembers(c: Codec, m: Member, ms: seq<Member>)
    requires ValidMember(c, m) && ValidMembers(c, ms)
    ensures ValidMembers(c, [m] + ms)
  {
    hide ValidMember;
  }

  /** A file comes to a content exactly if it is well-formed, and then to the content of its members. */
  lemma VerdictIsContent(c: Codec, data: seq<Byte>)
    requires Lawful(c)
    ensures Verdict(c, data, 0).Ok? <==> exists ms :: ValidMembers(c, ms) && data == FileBytes(c, ms)
    ensures forall ms :: ValidMembers(c, ms) && data == FileBytes(c, ms) ==> Verdict(c, data, 0) == Ok(Content(c, ms))
  {
    hide *;
    forall ms | ValidMembers(c, ms) && data == FileBytes(c, ms)
      ensures Verdict(c, data, 0) == Ok(Content(c, ms))
    {
      WholeFile(c, ms);
      var rest := MembersVerdict(c, ms, 0);
      assert [] + rest == rest;
    }
    if Verdict(c, data, 0).Ok? {
      var ms := VerdictMembers(c, data, 0);
      assert data[0..] == data;
    }
  }
}
