/**
 The text of IPv6 addresses in `ipaddr.py`: printing with the longest run of zero fields
 shortened to `::`, expanding such text again, and reading it as an integer.
 */
module Ipv6Text {
  import opened Wrappers
  import opened Powers

  /** `Ipv4Tail`: the branch for text that ends in a dotted IPv4 address, which is not modelled. */
  datatype Error = ValueError | Ipv4Tail

  // ----- Hexadecimal numbers

  function HexDigit(d: nat): char
    requires d < 16
  {
    "0123456789abcdef"[d]
  }

  function HexValue(c: char): Option<nat> {
    if '0' <= c <= '9' then Some(c as nat - '0' as nat)
    else if 'a' <= c <= 'f' then Some(c as nat - 'a' as nat + 10)
    else if 'A' <= c <= 'F' then Some(c as nat - 'A' as nat + 10)
    else None
  }

  function LowerChar(c: char): char {
    if 'A' <= c <= 'Z' then (c as nat + 32) as char else c
  }

  /** `s.lower()`, for ASCII text. */
  function Lower(s: string): (r: string)
    ensures |r| == |s| && forall i :: 0 <= i < |s| ==> r[i] == LowerChar(s[i])
  {
    if s == "" then "" else [LowerChar(s[0])] + Lower(s[1..])
  }

  /** `%x` */
  function Hex(n: nat): (s: string)
    ensures s != ""
  {
    if n < 16 then [HexDigit(n)] else Hex(n / 16) + [HexDigit(n % 16)]
  }

  /** `%0wx`, for a number that needs no more than `w` digits. */
  function HexPadded(n: nat, w: nat): (s: string)
    ensures |s| == w
  {
    if w == 0 then "" else HexPadded(n / 16, w - 1) + [HexDigit(n % 16)]
  }

  function Digits(s: string): Option<nat> {
    if s == "" then Some(0)
    else
      match (Digits(s[..|s| - 1]), HexValue(s[|s| - 1]))
      case (Some(v), Some(d)) => Some(16 * v + d)
      case _ => None
  }

  /** `int(s, 16)`, for text without sign, prefix, underscores or spaces. */
  function IntFromHex(s: string): Option<nat> {
    if s == "" then None else Digits(s)
  }

  lemma DigitValue(d: nat)
    requires d < 16
    ensures HexValue(HexDigit(d)) == Some(d)
    ensures HexDigit(d) != ':' && HexDigit(d) != '.' && (HexDigit(d) == '0' <==> d == 0)
    ensures LowerChar(HexDigit(d)) == HexDigit(d)
  {
  }

  /** The digits in ASCII: 48 to 57, then 97 to 102; for reading also 65 to 70. */
  lemma DigitCodes(c: char, d: nat)
    requires d < 16
    ensures HexDigit(d) as nat == if d < 10 then 48 + d else 87 + d
    ensures HexValue(c) == Some(d) <==>
            c as nat == (if d < 10 then 48 + d else 87 + d) || (d >= 10 && c as nat == 55 + d)
    ensures HexValue(c).None? <==>
            !(48 <= c as nat <= 57 || 65 <= c as nat <= 70 || 97 <= c as nat <= 102)
  {
  }

  lemma DigitsAppend(s: string, c: char)
    ensures Digits(s + [c]) ==
            match (Digits(s), HexValue(c)) case (Some(v), Some(d)) => Some(16 * v + d) case _ => None
  {
    assert (s + [c])[..|s|] == s;
  }

  lemma {:induction false} HexReadsBack(n: nat)
    ensures Digits(Hex(n)) == Some(n)
  {
    if n < 16 {
      DigitValue(n);
      DigitsAppend("", HexDigit(n));
      assert "" + [HexDigit(n)] == [HexDigit(n)];
    } else {
      HexReadsBack(n / 16);
      DigitValue(n % 16);
      DigitsAppend(Hex(n / 16), HexDigit(n % 16));
    }
  }

  function Repeat(c: char, n: int): (s: string)
    ensures |s| == if n > 0 then n else 0
  {
    if n <= 0 then "" else Repeat(c, n - 1) + [c]
  }

  lemma {:induction false} HexPaddedZero(w: nat)
    ensures HexPadded(0, w) == Repeat('0', w)
  {
    if w > 0 {
      HexPaddedZero(w - 1);
    }
  }

  lemma Times16(k: nat)
    ensures Pow2(k + 4) == 16 * Pow2(k)
  {
    assert Pow2(k + 4) == 2 * Pow2(k + 3) && Pow2(k + 2) == 2 * Pow2(k + 1);
  }

  /** Padding a number with zeros to a fixed width gives its fixed-width form. */
  lemma {:induction false} PaddedHex(n: nat, w: nat)
    requires n < Pow2(4 * w)
    ensures |Hex(n)| <= w || (w == 0 && n == 0)
    ensures w > 0 ==> HexPadded(n, w) == Repeat('0', w - |Hex(n)|) + Hex(n)
  {
    hide *;
    HexStep(n);
    if w == 0 {
      NoBits(n);
    } else if n < 16 {
      PaddedDigit(n, w);
    } else {
      Times16(4 * (w - 1));
      PaddedHex(n / 16, w - 1);
      HexPaddedStep(n, w - 1);
      RepeatAppend(w, n);
    }
  }

  lemma NoBits(n: nat)
    requires n < Pow2(0)
    ensures n == 0
  {
  }

  lemma PaddedDigit(n: nat, w: nat)
    requires n < 16 && w > 0
    ensures |Hex(n)| == 1 && HexPadded(n, w) == Repeat('0', w - 1) + Hex(n)
  {
    HexPaddedZero(w - 1);
  }

  lemma RepeatAppend(w: nat, n: nat)
    requires w > 1 && n >= 16
    ensures Repeat('0', w - 1 - |Hex(n / 16)|) + Hex(n / 16) + [HexDigit(n % 16)] == Repeat('0', w - |Hex(n)|) + Hex(n)
  {
  }

  // ----- Splitting and joining

  predicate Plain(field: string) {
    field != "" && ':' !in field && '.' !in field
  }

  predicate AllPlain(fields: seq<string>) {
    forall i :: 0 <= i < |fields| ==> Plain(fields[i])
  }

  /** `':'.join(fields)` */
  function Join(fields: seq<string>): string {
    if fields == [] then "" else if |fields| == 1 then fields[0] else fields[0] + ":" + Join(fields[1..])
  }

  /** `s.split(':')` */
  function SplitColon(s: string): (fields: seq<string>)
    ensures |fields| > 0
  {
    if s == "" then [""]
    else
      var rest := SplitColon(s[1..]);
      if s[0] == ':' then [""] + rest else [[s[0]] + rest[0]] + rest[1..]
  }

  /** `s.count('::')` */
  function CountDouble(s: string): nat {
    if |s| < 2 then 0 else if s[0] == ':' && s[1] == ':' then 1 + CountDouble(s[2..]) else CountDouble(s[1..])
  }

  /** `s.split('::')` */
  function SplitDouble(s: string): (parts: seq<string>)
    ensures |parts| == CountDouble(s) + 1
  {
    if |s| < 2 then [s]
    else if s[0] == ':' && s[1] == ':' then [""] + SplitDouble(s[2..])
    else
      var rest := SplitDouble(s[1..]);
      [[s[0]] + rest[0]] + rest[1..]
  }

  lemma {:induction false} SplitField(f: string, rest: string)
    requires ':' !in f
    ensures SplitColon(f) == [f]
    ensures SplitColon(f + ":" + rest) == [f] + SplitColon(rest)
  {
    var s := f + ":" + rest;
    if f == "" {
      assert s[1..] == rest;
    } else {
      SplitField(f[1..], rest);
      assert s[1..] == f[1..] + ":" + rest;
      assert [f[0]] + f[1..] == f;
    }
  }

  /** Splitting undoes joining. */
  lemma {:induction false} SplitJoin(fields: seq<string>)
    requires fields != [] && forall i :: 0 <= i < |fields| ==> ':' !in fields[i]
    ensures SplitColon(Join(fields)) == fields
  {
    SplitField(fields[0], "");
    if |fields| > 1 {
      SplitField(fields[0], Join(fields[1..]));
      SplitJoin(fields[1..]);
    }
  }

  lemma {:induction false} JoinConcat(a: seq<string>, b: seq<string>)
    requires a != [] && b != []
    ensures Join(a + b) == Join(a) + ":" + Join(b)
  {
    if |a| == 1 {
      assert (a + b)[1..] == b;
    } else {
      assert (a + b)[1..] == a[1..] + b;
      JoinConcat(a[1..], b);
    }
  }

  /** No colon at either end, and no two in a row. */
  predicate Single(s: string) {
    CountDouble(s) == 0 && (s != "" ==> s[0] != ':' && s[|s| - 1] != ':')
  }

  lemma {:induction false} FieldThen(f: string, rest: string)
    requires Plain(f) && Single(rest) && rest != ""
    ensures Single(f) && Single(f + ":" + rest)
  {
    var s := f + ":" + rest;
    if |f| == 1 {
      assert s[1..] == ":" + rest;
      assert (":" + rest)[1..] == rest;
    } else {
      FieldThen(f[1..], rest);
      assert s[1..] == f[1..] + ":" + rest;
    }
  }

  lemma {:induction false} JoinIsSingle(fields: seq<string>)
    requires AllPlain(fields)
    ensures Single(Join(fields)) && (fields != [] ==> Join(fields) != "")
  {
    if fields != [] {
      FieldThen(fields[0], "x");
      JoinIsSingle(fields[1..]);
      if |fields| > 1 {
        FieldThen(fields[0], Join(fields[1..]));
      }
    }
  }

  lemma {:induction false} WholeSplit(b: string)
    requires CountDouble(b) == 0
    ensures SplitDouble(b) == [b]
  {
    if |b| >= 2 {
      WholeSplit(b[1..]);
      assert [b[0]] + b[1..] == b;
    }
  }

  lemma {:induction false} SplitTail(a: string, b: string)
    requires CountDouble(a) == 0 && a != "" && a[|a| - 1] != ':' && Single(b)
    ensures CountDouble(a + "::" + b) == 1
    ensures SplitDouble(a + "::" + b) == [a, b]
  {
    var s := a + "::" + b;
    assert s[1..] == a[1..] + "::" + b;
    if |a| == 1 {
      assert s[1..][2..] == b;
      WholeSplit(b);
      assert SplitDouble(s[1..]) == ["", b];
      assert [a[0]] + "" == a;
    } else {
      SplitTail(a[1..], b);
      assert [a[0]] + a[1..] == a;
    }
  }

  /** Text with one `::` splits there. */
  lemma SplitAtDouble(a: string, b: string)
    requires Single(a) && Single(b)
    ensures CountDouble(a + "::" + b) == 1
    ensures SplitDouble(a + "::" + b) == [a, b]
  {
    if a == "" {
      assert (a + "::" + b)[2..] == b;
      WholeSplit(b);
    } else {
      SplitTail(a, b);
    }
  }


  // ----- Reading

  function Copies(f: string, n: int): (s: seq<string>)
    ensures |s| == if n > 0 then n else 0
    ensures forall i :: 0 <= i < |s| ==> s[i] == f
  {
    if n <= 0 then [] else Copies(f, n - 1) + [f]
  }

  /** A field padded to four characters, in lower case. */
  function PadField(f: string): string {
    Lower(Repeat('0', 4 - |f|) + f)
  }

  function PadFields(fields: seq<string>): (r: seq<string>)
    ensures |r| == |fields|
    ensures forall i :: 0 <= i < |r| ==> r[i] == PadField(fields[i])
  {
    if fields == [] then [] else PadFields(fields[..|fields| - 1]) + [PadField(fields[|fields| - 1])]
  }

  /** The text with `::` written out, and every field padded; other text as it is. */
  function Exploded(s: string): string {
    if CountDouble(s) == 1 then
      var parts := SplitDouble(s);
      var left, right := SplitColon(parts[0]), SplitColon(parts[1]);
      Join(PadFields(left + Copies("0000", 8 - |left| - |right|) + right))
    else s
  }

  /** The fields as the digits of a number in base `2^16`. */
  function FieldsValue(fields: seq<string>): Option<nat> {
    if fields == [] then Some(0)
    else
      match (FieldsValue(fields[..|fields| - 1]), IntFromHex(fields[|fields| - 1]))
      case (Some(v), Some(x)) => Some(0x1_0000 * v + x)
      case _ => None
  }

  function CountDots(s: string): nat {
    if s == "" then 0 else (if s[0] == '.' then 1 else 0) + CountDots(s[1..])
  }

  function Value(s: string): Result<nat, Error> {
    var fields := SplitColon(Exploded(s));
    if CountDots(fields[|fields| - 1]) == 3 then Err(Ipv4Tail)
    else match FieldsValue(fields) case Some(v) => Ok(v) case None => Err(ValueError)
  }

  lemma PadFieldsStep(fields: seq<string>, i: nat)
    requires i <= |fields|
    ensures i < |fields| ==>
              PadFields(fields[..i + 1]) == PadFields(fields[..i]) + [Lower(Repeat('0', 4 - |fields[i]|) + fields[i])]
    ensures i == 0 ==> PadFields(fields[..i]) == []
  {
    if i < |fields| {
      assert fields[..i + 1][..i] == fields[..i];
    }
  }

  lemma CopiesStep(f: string, n: int)
    ensures n <= 0 ==> Copies(f, n) == []
    ensures n >= 0 ==> Copies(f, n + 1) == Copies(f, n) + [f]
  {
  }

  lemma ExplodedIs(s: string)
    ensures CountDouble(s) != 1 ==> Exploded(s) == s
    ensures CountDouble(s) == 1 ==>
              var parts := SplitDouble(s);
              var left, right := SplitColon(parts[0]), SplitColon(parts[1]);
              Exploded(s) == Join(PadFields(left + Copies("0000", 8 - |left| - |right|) + right))
  {
    hide CountDouble, SplitDouble, SplitColon, Join, PadFields, Copies;
  }

  /** `_explode_shorthand_ip_string` */
  method ExplodeShorthandIpString(ipStr: string) returns (r: string)
    ensures r == Exploded(ipStr)
  {
    hide *;
    ExplodedIs(ipStr);
    if CountDouble(ipStr) == 1 {
      var hextet := SplitDouble(ipStr);
      var left, right := SplitColon(hextet[0]), SplitColon(hextet[1]);
      var sep := |left| + |right|;
      var newIp := left;
      CopiesStep("0000", 0);
      for i := 0 to if 8 - sep > 0 then 8 - sep else 0
        invariant newIp == left + Copies("0000", i)
      {
        CopiesStep("0000", i);
        newIp := newIp + ["0000"];
      }
      CopiesStep("0000", 8 - sep);
      newIp := newIp + right;
      var retIp: seq<string> := [];
      PadFieldsStep(newIp, 0);
      for i := 0 to |newIp|
        invariant retIp == PadFields(newIp[..i])
      {
        PadFieldsStep(newIp, i);
        retIp := retIp + [Lower(Repeat('0', 4 - |newIp[i]|) + newIp[i])];
      }
      assert newIp[..|newIp|] == newIp;
      return Join(retIp);
    }
    return ipStr;
  }

  /** `_ip_int_from_string` */
  method IpIntFromString(ipStr: string) returns (r: Result<nat, Error>)
    ensures r == Value(ipStr)
  {
    hide *;
    var ipInt := 0;
    var exploded := ExplodeShorthandIpString(ipStr);
    var fields := SplitColon(exploded);
    ValueIs(ipStr);
    FieldsStart(fields);
    if CountDots(fields[|fields| - 1]) == 3 {
      return Err(Ipv4Tail);
    }
    for i := 0 to |fields|
      invariant FieldsValue(fields[..i]) == Some(ipInt)
    {
      FieldsStep(fields, i, ipInt);
      var x := IntFromHex(fields[i]);
      if x.None? {
        NoValue(fields, i + 1);
        return Err(ValueError);
      }
      ipInt := 0x1_0000 * ipInt + x.value;
    }
    assert fields[..|fields|] == fields;
    return Ok(ipInt);
  }

  lemma ValueIs(s: string)
    ensures var fields := SplitColon(Exploded(s));
            Value(s) == if CountDots(fields[|fields| - 1]) == 3 then Err(Ipv4Tail)
                        else match FieldsValue(fields) case Some(v) => Ok(v) case None => Err(ValueError)
  {
  }

  lemma FieldsStart(fields: seq<string>)
    ensures FieldsValue(fields[..0]) == Some(0)
  {
  }

  lemma FieldsStep(fields: seq<string>, i: nat, v: nat)
    requires i < |fields| && FieldsValue(fields[..i]) == Some(v)
    ensures FieldsValue(fields[..i + 1]) ==
            match IntFromHex(fields[i]) case Some(x) => Some(0x1_0000 * v + x) case None => None
  {
    hide IntFromHex;
    assert fields[..i + 1][..i] == fields[..i];
  }

  lemma {:induction false} NoValue(fields: seq<string>, i: nat)
    requires i <= |fields| && FieldsValue(fields[..i]) == None
    ensures FieldsValue(fields) == None
  {
    if i == |fields| {
      assert fields[..i] == fields;
    } else {
      assert fields[..|fields| - 1][..i] == fields[..i];
      NoValue(fields[..|fields| - 1], i);
    }
  }

  // ----- Printing

  predicate IsZero(hextet: string) {
    hextet == "0"
  }

  /** The zero fields from `start` up to but not including `end`. */
  ghost predicate ZeroRun(hextets: seq<string>, start: nat, end: nat) {
    start <= end <= |hextets| && forall i :: start <= i < end ==> IsZero(hextets[i])
  }

  /** The run is a longest one, and the leftmost of those. */
  ghost predicate LeftmostLongest(hextets: seq<string>, start: nat, end: nat) {
    && ZeroRun(hextets, start, end)
    && forall s: nat, e: nat :: ZeroRun(hextets, s, e) ==>
      e - s <= end - start && (e - s == end - start > 0 ==> start <= s)
  }

  /** Among the first fields only. */
  ghost predicate BestAmong(hextets: seq<string>, n: nat, start: nat, end: nat) {
    n <= |hextets| && LeftmostLongest(hextets[..n], start, end)
  }

  /** The fields with one run shortened, so that joining them writes it as `::`. */
  function Shortened(hextets: seq<string>, start: nat, end: nat): seq<string>
    requires start <= end <= |hextets|
  {
    (if start == 0 then [""] else []) + hextets[..start] + [""] + hextets[end..] +
      (if end == |hextets| then [""] else [])
  }

  /** Only a run of two fields or more is shortened. */
  function ShortenedIfLong(hextets: seq<string>, start: nat, end: nat): seq<string> {
    if 1 < end - start && end <= |hextets| then Shortened(hextets, start, end) else hextets
  }

  /** `_compress_hextets` */
  method CompressHextets(list: seq<string>) returns (r: seq<string>)
    ensures exists start: nat, end: nat :: LeftmostLongest(list, start, end) && r == ShortenedIfLong(list, start, end)
  {
    var bestDoublecolonStart, bestDoublecolonLen := -1, 0;
    var doublecolonStart, doublecolonLen := -1, 0;
    var hextets := list;
    ghost var start: nat, end: nat := 0, 0;
    hide *;
    NoFields(list);
    for index := 0 to |hextets|
      invariant doublecolonLen >= 0 && doublecolonLen <= index && bestDoublecolonLen >= doublecolonLen
      invariant doublecolonStart == if doublecolonLen == 0 then -1 else index - doublecolonLen
      invariant ZeroRun(hextets, index - doublecolonLen, index)
      invariant 0 < index - doublecolonLen ==> !IsZero(hextets[index - doublecolonLen - 1])
      invariant end - start == bestDoublecolonLen && (bestDoublecolonLen > 0 ==> bestDoublecolonStart == start)
      invariant end <= index && BestAmong(hextets, index, start, end)
    {
      BestSoFar(hextets, start, end, index, index - doublecolonLen);
      if IsZero(hextets[index]) {
        doublecolonLen := doublecolonLen + 1;
        if doublecolonStart == -1 {
          doublecolonStart := index;
        }
        if doublecolonLen > bestDoublecolonLen {
          bestDoublecolonLen := doublecolonLen;
          bestDoublecolonStart := doublecolonStart;
          start, end := doublecolonStart, index + 1;
        }
      } else {
        doublecolonLen := 0;
        doublecolonStart := -1;
      }
    }
    BestOfAll(hextets, start, end);
    r := ShortenRun(hextets, bestDoublecolonStart, bestDoublecolonLen, start, end);
    assert LeftmostLongest(list, start, end) && r == ShortenedIfLong(list, start, end);
  }

  lemma BestOfAll(hextets: seq<string>, start: nat, end: nat)
    requires BestAmong(hextets, |hextets|, start, end)
    ensures LeftmostLongest(hextets, start, end)
  {
    assert hextets[..|hextets|] == hextets;
  }

  /** The list assignments at the end of it. */
  method ShortenRun(list: seq<string>, bestStart: int, bestLen: int, ghost start: nat, ghost end: nat)
    returns (hextets: seq<string>)
    requires start <= end <= |list| && end - start == bestLen && (bestLen > 0 ==> bestStart == start)
    ensures hextets == ShortenedIfLong(list, start, end)
  {
    hide *;
    ShortenedIs(list, start, end);
    hextets := list;
    if bestLen > 1 {
      var bestEnd := bestStart + bestLen;
      if bestEnd == |hextets| {
        hextets := hextets + [""];
      }
      hextets := hextets[..bestStart] + [""] + hextets[bestEnd..];
      if bestStart == 0 {
        hextets := [""] + hextets;
      }
    }
  }

  lemma ZeroAt(hextets: seq<string>, s: nat, e: nat, i: int)
    ensures ZeroRun(hextets, s, e) && s <= i < e ==> i < |hextets| && IsZero(hextets[i])
  {
  }

  lemma NoFields(hextets: seq<string>)
    ensures BestAmong(hextets, 0, 0, 0) && ZeroRun(hextets, 0, 0)
  {
  }

  /** The list assignments write the run as `::`. */
  lemma ShortenedIs(hextets: seq<string>, start: nat, end: nat)
    requires start <= end <= |hextets|
    ensures var h := if end == |hextets| then hextets + [""] else hextets;
            var t := h[..start] + [""] + h[end..];
            ShortenedIfLong(hextets, start, end) ==
              if end - start <= 1 then hextets else if start == 0 then [""] + t else t
  {
  }

  /** One more field: only a run that ends with it can be better than the best run before it. */
  lemma BestSoFar(hextets: seq<string>, start: nat, end: nat, index: nat, cur: nat)
    requires index < |hextets| && BestAmong(hextets, index, start, end) && end <= index
    requires cur <= index && ZeroRun(hextets, cur, index) && (0 < cur ==> !IsZero(hextets[cur - 1]))
    requires index - cur <= end - start
    ensures IsZero(hextets[index]) && index + 1 - cur > end - start ==> BestAmong(hextets, index + 1, cur, index + 1)
    ensures !IsZero(hextets[index]) || index + 1 - cur <= end - start ==> BestAmong(hextets, index + 1, start, end)
    ensures IsZero(hextets[index]) ==> ZeroRun(hextets, cur, index + 1)
    ensures ZeroRun(hextets, index + 1, index + 1)
  {
    var before, after := hextets[..index], hextets[..index + 1];
    forall s: nat, e: nat
      ensures e <= index ==> (ZeroRun(after, s, e) <==> ZeroRun(before, s, e))
      ensures e == index + 1 && s < e && ZeroRun(after, s, e) ==> cur <= s && IsZero(hextets[index])
    {
      if s <= e <= index {
        assert forall i :: s <= i < e ==> before[i] == after[i];
      }
      if e == index + 1 && s < e && ZeroRun(after, s, e) {
        ZeroAt(after, s, e, index);
        ZeroAt(after, s, e, cur - 1);
      }
    }
    assert IsZero(hextets[index]) ==> ZeroRun(after, cur, index + 1);
  }

  /** The `i`-th of the `k` fields of a number, most significant first. */
  function HextetAt(n: nat, k: nat, i: nat): (v: nat)
    requires i < k
    ensures v < 0x1_0000
  {
    if i == k - 1 then n % 0x1_0000 else HextetAt(n / 0x1_0000, k - 1, i)
  }

  /** The fields of a number, without leading zeros. */
  function Hextets(n: nat, k: nat): (h: seq<string>)
    ensures |h| == k && forall i :: 0 <= i < k ==> h[i] == Hex(HextetAt(n, k, i))
  {
    if k == 0 then [] else Hextets(n / 0x1_0000, k - 1) + [Hex(n % 0x1_0000)]
  }

  /** The fields with their leading zeros. */
  function LongHextets(n: nat, k: nat): (h: seq<string>)
    ensures |h| == k && forall i :: 0 <= i < k ==> h[i] == HexPadded(HextetAt(n, k, i), 4)
  {
    if k == 0 then [] else LongHextets(n / 0x1_0000, k - 1) + [HexPadded(n % 0x1_0000, 4)]
  }

  /** The text of an address: its fields, with the leftmost longest run of two or more zero fields written as `::`. */
  ghost predicate Printed(n: nat, text: string) {
    exists start: nat, end: nat :: LeftmostLongest(Hextets(n, 8), start, end) && PrintedWith(n, text, start, end)
  }

  predicate PrintedWith(n: nat, text: string, start: nat, end: nat) {
    && start <= end <= 8
    && var h := Hextets(n, 8);
       text == if end - start < 2 then Join(h) else Join(h[..start]) + "::" + Join(h[end..])
  }

  lemma HexPaddedStep(n: nat, w: nat)
    ensures HexPadded(n, 0) == ""
    ensures HexPadded(n, w + 1) == HexPadded(n / 16, w) + [HexDigit(n % 16)]
  {
  }

  lemma LastDigits(n: nat)
    ensures var m := n % 0x1_0000;
            && n / 16 / 16 / 16 / 16 == n / 0x1_0000
            && m % 16 == n % 16
            && m / 16 % 16 == n / 16 % 16
            && m / 16 / 16 % 16 == n / 16 / 16 % 16
            && m / 16 / 16 / 16 % 16 == n / 16 / 16 / 16 % 16
  {
    var a := n / 16;
    var b := a / 16;
    var c := b / 16;
    FourDigitNumber(n, n % 16, a % 16, b % 16, c % 16, c / 16);
  }

  lemma FourDigitNumber(n: nat, d0: nat, d1: nat, d2: nat, d3: nat, q: nat)
    requires d0 < 16 && d1 < 16 && d2 < 16 && d3 < 16
    requires n == 0x1_0000 * q + (d0 + 16 * (d1 + 16 * (d2 + 16 * d3)))
    ensures var m := n % 0x1_0000;
            && n / 0x1_0000 == q
            && m % 16 == d0 && m / 16 % 16 == d1 && m / 16 / 16 % 16 == d2 && m / 16 / 16 / 16 % 16 == d3
  {
    var m := d0 + 16 * (d1 + 16 * (d2 + 16 * d3));
    assert n / 0x1_0000 == q && n % 0x1_0000 == m;
    assert m / 16 == d1 + 16 * (d2 + 16 * d3);
    assert m / 16 / 16 == d2 + 16 * d3;
  }

  lemma PeelHextet(n: nat, w: nat)
    ensures HexPadded(n, w + 4) == HexPadded(n / 0x1_0000, w) + HexPadded(n % 0x1_0000, 4)
  {
    hide HexPadded, HexDigit;
    LastDigits(n);
    var m := n % 0x1_0000;
    HexPaddedStep(n, w + 3);
    HexPaddedStep(n / 16, w + 2);
    HexPaddedStep(n / 16 / 16, w + 1);
    HexPaddedStep(n / 16 / 16 / 16, w);
    HexPaddedStep(m, 3);
    HexPaddedStep(m / 16, 2);
    HexPaddedStep(m / 16 / 16, 1);
    HexPaddedStep(m / 16 / 16 / 16, 0);
  }

  /** Each group of four digits of the whole number is one field. */
  lemma {:induction false} DigitGroups(n: nat, k: nat, i: nat)
    requires i < k
    ensures HexPadded(n, 4 * k)[4 * i..4 * i + 4] == HexPadded(HextetAt(n, k, i), 4)
  {
    hide HexPadded, HexDigit;
    PeelHextet(n, 4 * (k - 1));
    var before, last := HexPadded(n / 0x1_0000, 4 * (k - 1)), HexPadded(n % 0x1_0000, 4);
    if i < k - 1 {
      DigitGroups(n / 0x1_0000, k - 1, i);
      SliceBefore(before, last, 4 * i, 4 * i + 4);
    } else {
      assert (before + last)[|before|..] == last;
    }
  }

  lemma SliceBefore(a: string, b: string, i: nat, j: nat)
    requires i <= j <= |a|
    ensures (a + b)[i..j] == a[i..j]
  {
  }

  lemma {:induction false} LeadingZeros(k: nat, s: string)
    ensures Digits(Repeat('0', k) + s) == Digits(s)
  {
    if s == "" {
      assert Repeat('0', k) + s == Repeat('0', k);
      if k > 0 {
        LeadingZeros(k - 1, "");
        assert Repeat('0', k - 1) + "" == Repeat('0', k - 1);
        DigitsAppend(Repeat('0', k - 1), '0');
      }
    } else {
      var init, c := s[..|s| - 1], s[|s| - 1];
      LeadingZeros(k, init);
      assert Repeat('0', k) + s == (Repeat('0', k) + init) + [c];
      DigitsAppend(Repeat('0', k) + init, c);
    }
  }

  lemma {:induction false} LowerDigits(s: string)
    ensures Digits(Lower(s)) == Digits(s)
  {
    if s != "" {
      var init, c := s[..|s| - 1], s[|s| - 1];
      hide *;
      LowerDigits(init);
      LowerAppend(init, c);
      assert s == init + [c];
      DigitsAppend(init, c);
      DigitsAppend(Lower(init), LowerChar(c));
    }
  }

  lemma LowerAppend(s: string, c: char)
    ensures Lower(s + [c]) == Lower(s) + [LowerChar(c)]
    ensures HexValue(LowerChar(c)) == HexValue(c)
  {
    hide Lower;
  }

  /** Padding changes no number, and makes an empty field zero. */
  lemma PadValue(f: string)
    ensures IntFromHex(PadField(f)) == if f == "" then Some(0) else IntFromHex(f)
  {
    var k := if 4 - |f| > 0 then 4 - |f| else 0;
    assert Repeat('0', 4 - |f|) == Repeat('0', k);
    LowerDigits(Repeat('0', k) + f);
    LeadingZeros(k, f);
  }

  /** A field reads the same with its leading zeros. */
  lemma HextetValue(v: nat)
    requires v < 0x1_0000
    ensures IntFromHex(Hex(v)) == IntFromHex(HexPadded(v, 4)) == Some(v)
    ensures IsZero(Hex(v)) <==> v == 0
  {
    hide Hex, HexPadded, Digits, Repeat, Pow2;
    HexReadsBack(v);
    Pow2Sixteen();
    PaddedHex(v, 4);
    LeadingZeros(4 - |Hex(v)|, Hex(v));
    HexReadsBack(0);
    HexZero();
  }

  lemma HexZero()
    ensures Hex(0) == "0" && PadField("0000") == "0000"
  {
  }

  lemma Pow2Sixteen()
    ensures Pow2(16) == 0x1_0000 && Pow2(128) == 0x1_0000_0000_0000_0000_0000_0000_0000_0000
  {
    assert Pow2(8) == 256;
    Pow2Add(8, 8);
    Pow2Add(16, 16);
    Pow2Add(32, 32);
    Pow2Add(64, 64);
  }

  /** `_string_from_ip_int` */
  method StringFromIpInt(ipInt: nat) returns (r: Result<string, Error>)
    ensures if ipInt >= Pow2(128) then r == Err(ValueError) else r.Ok?
    ensures r.Ok? ==> Printed(ipInt, r.value)
  {
    hide *;
    if ipInt > Pow2(128) - 1 {
      return Err(ValueError);
    }
    var hexStr := HexPadded(ipInt, 32);
    var hextets: seq<string> := [];
    for i := 0 to 8
      invariant hextets == Hextets(ipInt, 8)[..i]
    {
      DigitGroups(ipInt, 8, i);
      var x := 4 * i;
      HextetValue(HextetAt(ipInt, 8, i));
      hextets := hextets + [Hex(IntFromHex(hexStr[x..x + 4]).value)];
    }
    assert hextets == Hextets(ipInt, 8);
    ghost var all := hextets;
    hextets := CompressHextets(hextets);
    PrintedIs(ipInt, all, hextets);
    return Ok(Join(hextets));
  }

  lemma PrintedIs(n: nat, all: seq<string>, hextets: seq<string>)
    requires all == Hextets(n, 8)
    requires exists start: nat, end: nat :: LeftmostLongest(all, start, end) &&
               hextets == ShortenedIfLong(all, start, end)
    ensures Printed(n, Join(hextets))
  {
    hide Join, Shortened, Hextets;
    var start: nat, end: nat :| LeftmostLongest(all, start, end) && hextets == ShortenedIfLong(all, start, end);
    if end - start > 1 {
      JoinShortened(all, start, end);
    }
    assert PrintedWith(n, Join(hextets), start, end);
  }

  predicate AllZero(fields: seq<string>) {
    forall f :: f in fields ==> f == "0"
  }

  /** The longest run of zero fields, the first of those, is written as `::`, unless it is a single field. */
  lemma PrintedMeans(n: nat, text: string) returns (start: nat, end: nat)
    requires Printed(n, text)
    ensures start <= end <= 8 == |Hextets(n, 8)| && AllZero(Hextets(n, 8)[start..end])
    ensures forall s: nat, e: nat :: s <= e <= 8 && AllZero(Hextets(n, 8)[s..e]) ==>
              e - s <= end - start && (e - s == end - start ==> e == s || start <= s)
    ensures var h := Hextets(n, 8);
            text == if end - start < 2 then Join(h) else Join(h[..start]) + "::" + Join(h[end..])
  {
    hide Join, Hextets, AllZero;
    var h := Hextets(n, 8);
    start, end :| LeftmostLongest(h, start, end) && PrintedWith(n, text, start, end);
    SliceZero(h, start, end);
    forall s: nat, e: nat | s <= e <= 8 && AllZero(h[s..e])
      ensures e - s <= end - start && (e - s == end - start ==> e == s || start <= s)
    {
      SliceZero(h, s, e);
    }
  }

  lemma SliceZero(h: seq<string>, s: nat, e: nat)
    requires s <= e <= |h|
    ensures AllZero(h[s..e]) <==> ZeroRun(h, s, e)
  {
    if AllZero(h[s..e]) {
      forall i | s <= i < e
        ensures IsZero(h[i])
      {
        assert h[s..e][i - s] in h[s..e];
      }
    }
  }

  /** `2001:db8::1:0:0:1` */
  lemma PrintedExample(text: string)
    requires Printed(0x2001_0db8_0000_0000_0001_0000_0000_0001, text)
    ensures text == "2001:db8::1:0:0:1"
  {
    hide *;
    var n := 0x2001_0db8_0000_0000_0001_0000_0000_0001;
    ExampleFields();
    var h := ["2001", "db8", "0", "0", "1", "0", "0", "1"];
    var start, end := HowPrinted(n, text);
    ExampleRun(h, start, end);
    assert h[..2] == ["2001", "db8"] && h[4..] == ["1", "0", "0", "1"];
    ExampleJoins();
  }

  lemma ExampleJoins()
    ensures Join(["2001", "db8"]) == "2001:db8" && Join(["1", "0", "0", "1"]) == "1:0:0:1"
  {
    var r := ["1", "0", "0", "1"];
    assert r[1..] == ["0", "0", "1"] && r[1..][1..] == ["0", "1"] && r[1..][1..][1..] == ["1"];
    assert ["2001", "db8"][1..] == ["db8"];
  }

  lemma ExampleRun(h: seq<string>, start: nat, end: nat)
    requires h == ["2001", "db8", "0", "0", "1", "0", "0", "1"] && LeftmostLongest(h, start, end)
    ensures start == 2 && end == 4
  {
    assert ZeroRun(h, 2, 4);
    assert end - start >= 2;
    assert IsZero(h[start]) && IsZero(h[start + 1]);
    if end - start > 2 {
      ZeroAt(h, start, end, start + 2);
      assert false;
    }
  }

  lemma ExampleFields()
    ensures Hextets(0x2001_0db8_0000_0000_0001_0000_0000_0001, 8) == ["2001", "db8", "0", "0", "1", "0", "0", "1"]
  {
    hide *;
    HextetsLast(0x2001, 0);
    HextetsLast(0x2001_0db8, 1);
    HextetsLast(0x2001_0db8_0000, 2);
    HextetsLast(0x2001_0db8_0000_0000, 3);
    HextetsLast(0x2001_0db8_0000_0000_0001, 4);
    HextetsLast(0x2001_0db8_0000_0000_0001_0000, 5);
    HextetsLast(0x2001_0db8_0000_0000_0001_0000_0000, 6);
    HextetsLast(0x2001_0db8_0000_0000_0001_0000_0000_0001, 7);
    ExampleHex();
  }

  lemma ExampleHex()
    ensures Hex(0x2001) == "2001" && Hex(0xdb8) == "db8" && Hex(0) == "0" && Hex(1) == "1"
  {
    assert Hex(0x2) == "2" && Hex(0x20) == "20" && Hex(0x200) == "200";
    assert Hex(0xd) == "d" && Hex(0xdb) == "db";
  }

  lemma HextetsLast(n: nat, k: nat)
    ensures Hextets(n, 0) == []
    ensures Hextets(n, k + 1) == Hextets(n / 0x1_0000, k) + [Hex(n % 0x1_0000)]
  {
  }

  // ----- What text means

  /** The number a list of fields stands for, as the reader reports it. */
  function Reading(fields: seq<string>): Result<nat, Error> {
    match FieldsValue(fields) case Some(v) => Ok(v) case None => Err(ValueError)
  }

  lemma {:induction false} SameValues(a: seq<string>, b: seq<string>)
    requires |a| == |b| && forall i :: 0 <= i < |a| ==> IntFromHex(a[i]) == IntFromHex(b[i])
    ensures FieldsValue(a) == FieldsValue(b)
  {
    hide IntFromHex;
    if a != [] {
      SameValues(a[..|a| - 1], b[..|b| - 1]);
    }
  }

  lemma {:induction false} NoDots(s: string)
    requires '.' !in s
    ensures CountDots(s) == 0
  {
    if s != "" {
      NoDots(s[1..]);
    }
  }

  lemma {:induction false} RepeatOnly(c: char, n: int)
    ensures forall x :: x in Repeat(c, n) ==> x == c
  {
    if n > 0 {
      RepeatOnly(c, n - 1);
    }
  }

  lemma PadIsPlain(f: string)
    requires ':' !in f && '.' !in f
    ensures Plain(PadField(f))
  {
    RepeatOnly('0', 4 - |f|);
    var s := Repeat('0', 4 - |f|) + f;
    var zeros := |Repeat('0', 4 - |f|)|;
    forall i | 0 <= i < |s|
      ensures s[i] != ':' && s[i] != '.'
    {
      if i < zeros {
        assert s[i] in Repeat('0', 4 - |f|);
      } else {
        assert s[i] == f[i - zeros];
      }
    }
  }

  /** Text whose fields are known, once exploded. */
  lemma ReadFields(s: string, fields: seq<string>)
    requires fields != [] && AllPlain(fields) && Exploded(s) == Join(fields)
    ensures Value(s) == Reading(fields)
  {
    SplitJoin(fields);
    NoDots(fields[|fields| - 1]);
  }

  /** Without `::`, text is its fields. */
  lemma PlainText(fields: seq<string>)
    requires fields != [] && AllPlain(fields)
    ensures Exploded(Join(fields)) == Join(fields)
    ensures Value(Join(fields)) == Reading(fields)
  {
    JoinIsSingle(fields);
    ExplodedIs(Join(fields));
    ReadFields(Join(fields), fields);
  }

  /** What splitting one side of `::` gives: a single empty field if there is nothing there. */
  function Side(fields: seq<string>): seq<string> {
    if fields == [] then [""] else fields
  }

  lemma SplitSide(fields: seq<string>)
    requires AllPlain(fields)
    ensures SplitColon(Join(fields)) == Side(fields)
  {
    if fields != [] {
      SplitJoin(fields);
    } else {
      SplitField("", "");
    }
  }

  /** The fields that `::` is exploded to. */
  function Filled(left: seq<string>, right: seq<string>): seq<string> {
    PadFields(Side(left) + Copies("0000", 8 - |Side(left)| - |Side(right)|) + Side(right))
  }

  lemma ExplodeSides(left: seq<string>, right: seq<string>)
    requires AllPlain(left) && AllPlain(right)
    ensures Exploded(Join(left) + "::" + Join(right)) == Join(Filled(left, right))
  {
    hide CountDouble, SplitDouble, SplitColon, Join, PadFields, Copies, Side, Single, AllPlain;
    JoinIsSingle(left);
    JoinIsSingle(right);
    SplitAtDouble(Join(left), Join(right));
    ExplodedIs(Join(left) + "::" + Join(right));
    SplitSide(left);
    SplitSide(right);
  }

  /** With at most seven fields beside it, `::` stands for the zero fields that make eight. */
  lemma FilledFields(left: seq<string>, right: seq<string>)
    requires AllPlain(left) && AllPlain(right) && |left| + |right| <= 7
    ensures var zeros := left + Copies("0", 8 - |left| - |right|) + right;
            && |Filled(left, right)| == |zeros| == 8
            && AllPlain(Filled(left, right))
            && forall i :: 0 <= i < 8 ==> Filled(left, right)[i] == PadField(zeros[i])
  {
    hide PadField, Plain;
    PadZeros();
    assert forall i :: 0 <= i < |left| ==> Plain(left[i]);
    var zeros := left + Copies("0", 8 - |left| - |right|) + right;
    var parts := Side(left) + Copies("0000", 8 - |Side(left)| - |Side(right)|) + Side(right);
    forall i | 0 <= i < 8
      ensures PadField(parts[i]) == PadField(zeros[i]) && Plain(PadField(parts[i]))
    {
      assert Plain(zeros[i]) && (parts[i] == zeros[i] || (parts[i] in {"", "0000"} && zeros[i] == "0"));
      PlainPad(zeros[i]);
    }
  }

  lemma PlainPad(f: string)
    requires Plain(f)
    ensures Plain(PadField(f))
  {
    PadIsPlain(f);
  }

  lemma PadZeros()
    ensures PadField("") == PadField("0") == PadField("0000") && Plain("0")
  {
    assert Repeat('0', 4) == "0000" && Repeat('0', 3) == "000";
    assert PadField("") == "0000";
    assert PadField("0") == "0000";
    assert PadField("0000") == "0000";
  }

  /** `::` stands for the zero fields that make eight (section 2.2 of RFC 4291). */
  lemma DoubleColonMeans(left: seq<string>, right: seq<string>)
    requires AllPlain(left) && AllPlain(right) && |left| + |right| <= 7
    ensures Value(Join(left) + "::" + Join(right)) == Reading(left + Copies("0", 8 - |left| - |right|) + right)
  {
    hide Join, Value, Exploded, PadField, Filled, Reading, AllPlain;
    var zeros := left + Copies("0", 8 - |left| - |right|) + right;
    FilledFields(left, right);
    ExplodeSides(left, right);
    ReadFields(Join(left) + "::" + Join(right), Filled(left, right));
    forall i | 0 <= i < 8
      ensures IntFromHex(Filled(left, right)[i]) == IntFromHex(zeros[i])
    {
      PadValue(zeros[i]);
      PlainFields(left, right, i);
    }
    SameReading(Filled(left, right), zeros);
  }

  lemma SameReading(a: seq<string>, b: seq<string>)
    requires |a| == |b| && forall i :: 0 <= i < |a| ==> IntFromHex(a[i]) == IntFromHex(b[i])
    ensures Reading(a) == Reading(b)
  {
    SameValues(a, b);
  }

  lemma PlainFields(left: seq<string>, right: seq<string>, i: nat)
    requires AllPlain(left) && AllPlain(right) && |left| + |right| <= 7 && i < 8
    ensures (left + Copies("0", 8 - |left| - |right|) + right)[i] != ""
  {
    hide Copies;
    if i < |left| {
      assert left[i] != "";
    } else if i >= 8 - |right| {
      assert right[i - (8 - |right|)] != "";
    }
  }

  // ----- Printing and reading

  lemma {:induction false} HexIsPlain(n: nat)
    ensures Plain(Hex(n))
  {
    DigitValue(n % 16);
    if n >= 16 {
      HexIsPlain(n / 16);
    }
  }

  lemma HextetsArePlain(n: nat, k: nat)
    ensures AllPlain(Hextets(n, k))
  {
    hide Plain, Hex;
    forall i | 0 <= i < k
      ensures Plain(Hextets(n, k)[i])
    {
      HexIsPlain(HextetAt(n, k, i));
    }
  }

  lemma {:induction false} HextetsValue(n: nat, k: nat)
    requires n < Pow2(16 * k)
    ensures FieldsValue(Hextets(n, k)) == Some(n)
  {
    hide *;
    if k > 0 {
      var q, r := n / 0x1_0000, n % 0x1_0000;
      Pow2Sixteen();
      Pow2Add(16 * (k - 1), 16);
      DivideBound(n, Pow2(16 * (k - 1)));
      HextetsValue(q, k - 1);
      HextetValue(r);
      HextetsStep(n, k);
    } else {
      HextetsNone(n);
    }
  }

  lemma HextetsStep(n: nat, k: nat)
    requires k > 0 && FieldsValue(Hextets(n / 0x1_0000, k - 1)) == Some(n / 0x1_0000)
    requires IntFromHex(Hex(n % 0x1_0000)) == Some(n % 0x1_0000)
    ensures FieldsValue(Hextets(n, k)) == Some(n)
  {
    hide Hex, IntFromHex;
    assert Hextets(n, k)[..k - 1] == Hextets(n / 0x1_0000, k - 1);
  }

  lemma HextetsNone(n: nat)
    requires n < Pow2(16 * 0)
    ensures FieldsValue(Hextets(n, 0)) == Some(n)
  {
  }

  lemma DivideBound(n: nat, p: nat)
    requires n < p * 0x1_0000
    ensures n / 0x1_0000 < p
  {
  }

  /** A shortened list joins to the fields on either side of `::`. */
  lemma JoinShortened(h: seq<string>, start: nat, end: nat)
    requires start < end <= |h|
    ensures Join(Shortened(h, start, end)) == Join(h[..start]) + "::" + Join(h[end..])
  {
    hide Join;
    JoinFacts("");
    var l, r := h[..start], h[end..];
    var tail := [""] + Side(r);
    if end == |h| {
      assert Shortened(h, start, end) == (if start == 0 then [""] else []) + l + tail;
      assert r == [];
      assert Side(r) == [""];
    } else {
      assert Shortened(h, start, end) == (if start == 0 then [""] else []) + l + tail;
    }
    JoinConcat([""], Side(r));
    if start == 0 {
      assert Shortened(h, start, end) == [""] + tail;
      JoinConcat([""], tail);
      assert l == [];
      assert Join(Shortened(h, start, end)) == "" + ":" + ("" + ":" + Join(r));
    } else {
      assert Shortened(h, start, end) == l + tail;
      JoinConcat(l, tail);
      assert Join(Shortened(h, start, end)) == Join(l) + ":" + ("" + ":" + Join(r));
    }
    assert Join(l) + ":" + ("" + ":" + Join(r)) == Join(l) + "::" + Join(r);
  }

  lemma JoinFacts(f: string)
    ensures Join([]) == "" && Join([f]) == f
  {
  }

  /** Reading what was printed gives the address back, whatever it is. */
  lemma PrintedReadsBack(n: nat, text: string)
    requires n < Pow2(128) && Printed(n, text)
    ensures Value(text) == Ok(n)
  {
    hide *;
    var h := Hextets(n, 8);
    HextetsArePlain(n, 8);
    HextetsValue(n, 8);
    ReadingIs(h, n);
    var start, end := HowPrinted(n, text);
    if end - start > 1 {
      PlainSides(h, start, end);
      DoubleColonMeans(h[..start], h[end..]);
      RunIsZeros(h, start, end);
    } else {
      PlainText(h);
    }
  }

  lemma ReadingIs(h: seq<string>, n: nat)
    requires FieldsValue(h) == Some(n)
    ensures Reading(h) == Ok(n)
  {
  }

  lemma HowPrinted(n: nat, text: string) returns (start: nat, end: nat)
    requires Printed(n, text)
    ensures |Hextets(n, 8)| == 8 && LeftmostLongest(Hextets(n, 8), start, end) && ZeroRun(Hextets(n, 8), start, end)
    ensures start <= end <= 8
    ensures var h := Hextets(n, 8);
            text == if end - start < 2 then Join(h) else Join(h[..start]) + "::" + Join(h[end..])
  {
    start, end :| LeftmostLongest(Hextets(n, 8), start, end) && PrintedWith(n, text, start, end);
  }

  lemma PlainSides(h: seq<string>, start: nat, end: nat)
    requires AllPlain(h) && start <= end <= |h|
    ensures AllPlain(h[..start]) && AllPlain(h[end..])
  {
    hide Plain;
  }

  lemma RunIsZeros(h: seq<string>, start: nat, end: nat)
    requires |h| == 8 && ZeroRun(h, start, end)
    ensures h[..start] + Copies("0", 8 - |h[..start]| - |h[end..]|) + h[end..] == h
  {
  }

  /** The parse of the print of an address, as the methods do it. */
  method PrintThenParse(ipInt: nat) returns (r: Result<nat, Error>)
    ensures r == if ipInt < Pow2(128) then Ok(ipInt) else Err(ValueError)
  {
    hide *;
    var text := StringFromIpInt(ipInt);
    if text.Err? {
      return Err(ValueError);
    }
    PrintedReadsBack(ipInt, text.value);
    r := IpIntFromString(text.value);
  }

  // ----- The longhand version

  lemma LongIsPadded(n: nat)
    ensures AllPlain(LongHextets(n, 8))
    ensures PadFields(Hextets(n, 8)) == LongHextets(n, 8)
  {
    hide PadField, Hex, HexPadded, Plain;
    forall i | 0 <= i < 8
      ensures PadField(Hextets(n, 8)[i]) == LongHextets(n, 8)[i] && Plain(PadField(Hextets(n, 8)[i]))
    {
      PadHextet(HextetAt(n, 8, i));
    }
  }

  lemma {:induction false} LowerHex(n: nat, w: nat)
    ensures Lower(HexPadded(n, w)) == HexPadded(n, w)
  {
    var s := HexPadded(n, w);
    if w > 0 {
      LowerHex(n / 16, w - 1);
      DigitValue(n % 16);
      forall i | 0 <= i < w
        ensures LowerChar(s[i]) == s[i]
      {
        assert i < w - 1 ==> s[i] == HexPadded(n / 16, w - 1)[i] && Lower(HexPadded(n / 16, w - 1))[i] == s[i];
      }
    }
  }

  lemma PadHextet(v: nat)
    requires v < 0x1_0000
    ensures PadField(Hex(v)) == HexPadded(v, 4) && Plain(PadField(Hex(v)))
    ensures Hex(v) == HexPadded(v, 4) <==> v >= 0x1000
  {
    hide Hex, HexPadded, Repeat, Pow2, Plain;
    Pow2Sixteen();
    PaddedHex(v, 4);
    LowerHex(v, 4);
    HexIsPlain(v);
    PlainPad(Hex(v));
    FourDigits(v);
  }

  lemma FourDigits(v: nat)
    requires v < 0x1_0000
    ensures |Hex(v)| == 4 <==> v >= 0x1000
    ensures Repeat('0', 0) == ""
  {
    assert Pow2(4) == 16;
    assert Pow2(12) == 0x1000 by {
      assert Pow2(8) == 256;
      Pow2Add(8, 4);
    }
    if v < 0x1000 {
      PaddedHex(v, 3);
    } else {
      HexStep(v);
      HexStep(v / 16);
      HexStep(v / 16 / 16);
      HexStep(v / 16 / 16 / 16);
    }
  }

  lemma HexStep(n: nat)
    ensures n >= 16 ==> |Hex(n)| == |Hex(n / 16)| + 1
    ensures n < 16 ==> |Hex(n)| == 1
  {
  }

  /**
   `exploded` is documented as the longhand version of an address: eight fields of four
   digits.  It is that exactly if a run was shortened or no field has a leading zero;
   other text is returned as it was printed.
   */
  lemma ExplodedIsLonghand(n: nat, text: string, start: nat, end: nat)
    requires LeftmostLongest(Hextets(n, 8), start, end) && PrintedWith(n, text, start, end)
    ensures Exploded(text) == Join(LongHextets(n, 8)) <==>
            end - start > 1 || FullFields(n, 8)
    ensures end - start <= 1 ==> Exploded(text) == text
  {
    hide *;
    var h := Hextets(n, 8);
    HextetsArePlain(n, 8);
    LongIsPadded(n);
    PrintedForm(n, text, start, end);
    if end - start > 1 {
      PlainSides(h, start, end);
      ExplodeSides(h[..start], h[end..]);
      FilledFields(h[..start], h[end..]);
      RunIsZeros(h, start, end);
      assert Filled(h[..start], h[end..]) == PadFields(h);
    } else {
      PlainText(h);
      PlainSplit(h);
      PlainSplit(LongHextets(n, 8));
      assert Join(h) == Join(LongHextets(n, 8)) <==> h == LongHextets(n, 8);
      LongEnough(n, 8);
    }
  }

  /** 1:2:3:4:5:6:7:8 is printed with no run shortened, and `exploded` returns it as it is. */
  lemma OneToEight()
    ensures var n, text := 0x1_0002_0003_0004_0005_0006_0007_0008, "1:2:3:4:5:6:7:8";
            Printed(n, text) && Exploded(text) == text != Join(LongHextets(n, 8))
  {
    hide *;
    var n, text := 0x1_0002_0003_0004_0005_0006_0007_0008, "1:2:3:4:5:6:7:8";
    OneToEightFields();
    OneToEightPrinted(n, text);
    ExplodedIsLonghand(n, text, 0, 0);
  }

  function Eight(): (h: seq<string>)
    ensures |h| == 8
  {
    ["1", "2", "3", "4", "5", "6", "7", "8"]
  }

  /** The number whose fields count up to `k`. */
  function CountTo(k: nat): nat {
    if k == 0 then 0 else 0x1_0000 * CountTo(k - 1) + k
  }

  lemma {:induction false} CountsUp(k: nat)
    requires k <= 8
    ensures Hextets(CountTo(k), k) == Eight()[..k]
    ensures k > 0 ==> HextetAt(CountTo(k), k, k - 1) == k
  {
    hide Hex, Eight;
    if k > 0 {
      CountsUp(k - 1);
      assert CountTo(k) / 0x1_0000 == CountTo(k - 1) && CountTo(k) % 0x1_0000 == k;
      FieldOf(k);
      assert Eight()[..k - 1] + [Eight()[k - 1]] == Eight()[..k];
    }
  }

  lemma FieldOf(k: nat)
    requires 0 < k <= 8
    ensures Hex(k) == Eight()[k - 1]
  {
    assert Hex(k) == [HexDigit(k)];
  }

  lemma OneToEightFields()
    ensures Hextets(0x1_0002_0003_0004_0005_0006_0007_0008, 8) == Eight()
    ensures !FullFields(0x1_0002_0003_0004_0005_0006_0007_0008, 8)
  {
    hide Hextets, HextetAt, Hex, Eight;
    CountsUp(8);
    assert CountTo(8) == 0x1_0002_0003_0004_0005_0006_0007_0008;
    assert HextetAt(CountTo(8), 8, 7) == 8;
    assert Eight()[..8] == Eight();
  }

  lemma JoinedPair(x: string, y: string, rest: seq<string>, text: string)
    requires rest != [] && Join(rest) == text
    ensures Join([x, y] + rest) == x + ":" + y + ":" + text
  {
    assert ([x, y] + rest)[1..] == [y] + rest;
    assert ([y] + rest)[1..] == rest;
  }

  lemma LastFour()
    ensures Join(["5", "6"] + ["7", "8"]) == "5:6:7:8"
  {
    hide *;
    JoinedTwo();
    JoinedPair("5", "6", ["7", "8"], "7:8");
  }

  lemma LastSix()
    ensures Join(["3", "4"] + (["5", "6"] + ["7", "8"])) == "3:4:5:6:7:8"
  {
    hide *;
    LastFour();
    JoinedPair("3", "4", ["5", "6"] + ["7", "8"], "5:6:7:8");
  }

  lemma OneToEightJoined()
    ensures Join(Eight()) == "1:2:3:4:5:6:7:8"
  {
    hide *;
    EightIs();
    LastSix();
    JoinedPair("1", "2", ["3", "4"] + (["5", "6"] + ["7", "8"]), "3:4:5:6:7:8");
  }

  lemma EightIs()
    ensures Eight() == ["1", "2"] + (["3", "4"] + (["5", "6"] + ["7", "8"]))
  {
  }

  lemma JoinedTwo()
    ensures Join(["7", "8"]) == "7:8"
  {
  }

  lemma NoZeros(start: nat, end: nat)
    requires ZeroRun(Eight(), start, end)
    ensures start == end
  {
    assert start < end ==> IsZero(Eight()[start]);
  }

  lemma OneToEightPrinted(n: nat, text: string)
    requires text == "1:2:3:4:5:6:7:8" && Hextets(n, 8) == Eight()
    ensures LeftmostLongest(Hextets(n, 8), 0, 0) && PrintedWith(n, text, 0, 0) && Printed(n, text)
  {
    hide Hextets, Eight, Join, ZeroRun;
    OneToEightJoined();
    forall s: nat, e: nat | ZeroRun(Eight(), s, e)
      ensures s == e
    {
      NoZeros(s, e);
    }
    NoFieldsRun(Eight());
  }

  lemma NoFieldsRun(h: seq<string>)
    ensures ZeroRun(h, 0, 0)
  {
  }

  /** Every field of the address takes four digits. */
  predicate FullFields(n: nat, k: nat) {
    forall i :: 0 <= i < k ==> HextetAt(n, k, i) >= 0x1000
  }

  lemma LongEnough(n: nat, k: nat)
    ensures Hextets(n, k) == LongHextets(n, k) <==> FullFields(n, k)
  {
    hide Hextets, LongHextets, HexPadded, Hex;
    var h, long := Hextets(n, k), LongHextets(n, k);
    forall i | 0 <= i < k
      ensures h[i] == long[i] <==> HextetAt(n, k, i) >= 0x1000
    {
      PadHextet(HextetAt(n, k, i));
    }
    if FullFields(n, k) {
      assert h == long;
    } else {
      var i :| 0 <= i < k && HextetAt(n, k, i) < 0x1000;
      assert h[i] != long[i];
    }
  }

  lemma PlainSplit(fields: seq<string>)
    requires fields != [] && AllPlain(fields)
    ensures SplitColon(Join(fields)) == fields
  {
    SplitJoin(fields);
  }

  lemma PrintedForm(n: nat, text: string, start: nat, end: nat)
    requires LeftmostLongest(Hextets(n, 8), start, end) && PrintedWith(n, text, start, end)
    ensures |Hextets(n, 8)| == 8 && start <= end <= 8 && ZeroRun(Hextets(n, 8), start, end)
    ensures var h := Hextets(n, 8);
            text == if end - start < 2 then Join(h) else Join(h[..start]) + "::" + Join(h[end..])
  {
  }
}
