/** `GzipFile` opened for writing: one member, framed by its header and its trailer; and that it reads back. */
module GzipWriting {
  import opened Wrappers
  import opened GzipFormat
  import opened GzipReading

  const SUFFIX: seq<Byte> := [46, 103, 122]  // .gz

  /** The name that goes into the header. */
  function HeaderName(name: seq<Byte>): (r: seq<Byte>)
    ensures 0 !in name ==> 0 !in r
  {
    if |name| >= 3 && name[|name| - 3..] == SUFFIX then name[..|name| - 3] else name
  }

  /** The header that `_write_gzip_header` writes. */
  function WrittenHeader(name: seq<Byte>, mtime: nat): Header {
    Header(if HeaderName(name) != [] then FNAME else 0, Le32(mtime), 2, 255, [], HeaderName(name), [], [0, 0])
  }

  class GzipWriter {
    const codec: Codec
    ghost const header: Header
    var output: seq<Byte>         // what the file object was passed
    var pieces: seq<seq<Byte>>    // what the compressor was passed
    var offset: nat
    var crc: nat
    var size: nat
    var closed: bool

    ghost predicate Valid()
      reads this
    {
      && Lawful(codec)
      && crc == codec.crc(Concat(pieces), 0) && size == offset == |Concat(pieces)|
      && output == if closed then MemberBytes(codec, Member(header, codec.finished(pieces), 0))
                   else HeaderBytes(header) + codec.packed(pieces)
    }

    constructor (codec: Codec, name: seq<Byte>, mtime: nat)
      requires Lawful(codec) && mtime < WORD
      ensures Valid() && !closed && this.codec == codec && pieces == []
      ensures header == WrittenHeader(name, mtime)
    {
      hide HeaderBytes, FixedBytes, ExtraBytes, NameBytes, CommentBytes, HeaderCrcBytes, MemberBytes, HeaderName,
           Lawful, Concat, Le32;
      this.codec := codec;
      header := WrittenHeader(name, mtime);
      pieces, offset, closed := [], 0, false;
      crc, size := codec.crc([], 0), 0;
      var fname := HeaderName(name);
      var flags := 0;
      if fname != [] {
        flags := FNAME;
      }
      var out: seq<Byte> := [0x1f, 0x8b];
      out := out + [8];
      out := out + [flags];
      out := out + Le32(mtime);
      out := out + [2];
      out := out + [255];
      if fname != [] {
        out := out + (fname + [0]);
      }
      output := out;
      new;
      WrittenHeaderBytes(name, mtime);
      NothingPacked(codec);
      WriterIs(this);
    }

    method Write(data: seq<Byte>) returns (r: Result<nat, Error>)
      requires Valid()
      modifies this`output, this`pieces, this`offset, this`crc, this`size
      ensures Valid() && r == if closed then Err(ValueError) else Ok(|data|)
      ensures Concat(pieces) == old(Concat(pieces)) + if closed then [] else data
    {
      hide *;
      WriterIs(this);
      if closed {
        return Err(ValueError);
      }
      if |data| > 0 {
        CrcAppends(codec, Concat(pieces), data);
        PackedGrows(codec, pieces, data);
        OutputAppends(HeaderBytes(header), codec.packed(pieces), codec.packed(pieces + [data]));
        size := size + |data|;
        crc := codec.crc(data, crc);
        output := output + codec.packed(pieces + [data])[|codec.packed(pieces)|..];
        pieces := pieces + [data];
        offset := offset + |data|;
        WriterIs(this);
      }
      return Ok(|data|);
    }

    method Close()
      requires Valid()
      modifies this`output, this`closed
      ensures Valid() && closed
    {
      hide *;
      WriterIs(this);
      if closed {
        return;
      }
      PackedGrows(codec, pieces, []);
      OutputAppends(HeaderBytes(header), codec.packed(pieces), codec.finished(pieces));
      MemberIs(codec, header, codec.finished(pieces));
      output := output + codec.finished(pieces)[|codec.packed(pieces)|..];
      output := output + Le32(crc);
      output := output + Le32(size % 0x1_0000_0000);
      closed := true;
      WriterIs(this);
    }
  }

  lemma WriterIs(w: GzipWriter)
    ensures w.Valid() <==>
            && Lawful(w.codec)
            && w.crc == w.codec.crc(Concat(w.pieces), 0) && w.size == w.offset == |Concat(w.pieces)|
            && w.output == if w.closed then MemberBytes(w.codec, Member(w.header, w.codec.finished(w.pieces), 0))
                           else HeaderBytes(w.header) + w.codec.packed(w.pieces)
  {
    hide HeaderBytes, MemberBytes, Lawful, Concat;
  }

  lemma OutputAppends(h: seq<Byte>, a: seq<Byte>, b: seq<Byte>)
    requires a <= b
    ensures h + a + b[|a|..] == h + b
  {
  }

  lemma MemberIs(c: Codec, h: Header, body: seq<Byte>)
    ensures var content := c.output(body);
            HeaderBytes(h) + body + Le32(c.crc(content, 0)) + Le32(|content| % 0x1_0000_0000) ==
              MemberBytes(c, Member(h, body, 0))
  {
    hide HeaderBytes, Le32;
  }

  lemma WrittenHeaderBytes(name: seq<Byte>, mtime: nat)
    ensures var fname, h := HeaderName(name), WrittenHeader(name, mtime);
            HeaderBytes(h) == [0x1f, 0x8b] + [8] + [if fname != [] then FNAME else 0] + Le32(mtime) + [2] + [255] +
                              if fname != [] then fname + [0] else []
  {
    hide HeaderName, Le32;
    var h := WrittenHeader(name, mtime);
    OptionalFields(h);
    FixedIs(h.flags, h.mtime);
  }

  /** The header that is written, in numbers: flag byte 8 with a name, 0 without. */
  lemma WrittenInNumbers(name: seq<Byte>, mtime: nat)
    requires mtime < 0x1_0000_0000
    ensures var fname := if |name| >= 3 && name[|name| - 3..] == [46, 103, 122] then name[..|name| - 3] else name;
            HeaderBytes(WrittenHeader(name, mtime)) ==
              [31, 139, 8, if fname == [] then 0 else 8]
              + [mtime % 256, mtime / 0x100 % 256, mtime / 0x1_0000 % 256, mtime / 0x100_0000 % 256] + [2, 255]
              + (if fname == [] then [] else fname + [0])
  {
    WrittenHeaderBytes(name, mtime);
  }

  lemma FixedIs(flags: Byte, mtime: seq<Byte>)
    ensures [0x1f, 0x8b, 8, flags] + mtime + [2, 255] == [0x1f, 0x8b] + [8] + [flags] + mtime + [2] + [255]
  {
  }

  lemma OptionalFields(h: Header)
    requires h.flags == FNAME || h.flags == 0
    ensures HeaderBytes(h) == FixedBytes(h) + if h.flags == FNAME then h.name + [0] else []
  {
    hide FixedBytes;
    assert Flag(FNAME, FNAME) && !Flag(FNAME, FEXTRA) && !Flag(FNAME, FCOMMENT) && !Flag(FNAME, FHCRC);
    assert !Flag(0, FNAME) && !Flag(0, FEXTRA) && !Flag(0, FCOMMENT) && !Flag(0, FHCRC);
  }

  lemma NothingPacked(c: Codec)
    requires Lawful(c)
    ensures c.packed([]) == [] && Concat([]) == [] && c.crc([], 0) == 0
  {
  }

  /** What a writer leaves when it is closed is a well-formed member that holds what it was passed. */
  lemma WrittenMember(c: Codec, name: seq<Byte>, mtime: nat, pieces: seq<seq<Byte>>)
    requires Lawful(c) && 0 !in name
    ensures var m := Member(WrittenHeader(name, mtime), c.finished(pieces), 0);
            ValidMember(c, m) && c.output(m.body) == Concat(pieces)
  {
    PackedGrows(c, pieces, []);
  }

  /** Writes some content, in the given pieces, as one member. */
  method WriteMember(codec: Codec, name: seq<Byte>, mtime: nat, data: seq<seq<Byte>>)
    returns (output: seq<Byte>, ghost m: Member)
    requires Lawful(codec) && 0 !in name && mtime < WORD
    ensures ValidMember(codec, m) && codec.output(m.body) == Concat(data) && output == MemberBytes(codec, m)
  {
    hide *;
    var writer := new GzipWriter(codec, name, mtime);
    NothingPacked(codec);
    assert data[..0] == [];
    for i := 0 to |data|
      invariant fresh(writer) && writer.Valid() && !writer.closed && Concat(writer.pieces) == Concat(data[..i])
    {
      var written := writer.Write(data[i]);
      ConcatAppend(data[..i], data[i]);
      assert data[..i + 1] == data[..i] + [data[i]];
    }
    assert data[..|data|] == data;
    writer.Close();
    WrittenMember(codec, name, mtime, writer.pieces);
    output := writer.output;
    m := Member(WrittenHeader(name, mtime), codec.finished(writer.pieces), 0);
    ClosedOutput(writer);
  }

  lemma ClosedOutput(w: GzipWriter)
    requires w.Valid() && w.closed
    ensures w.output == MemberBytes(w.codec, Member(w.header, w.codec.finished(w.pieces), 0))
  {
  }

  /** Files written one after the other read back as what was written to all of them, in order. */
  method WriteThenRead(codec: Codec, name: seq<Byte>, mtime: nat, files: seq<seq<seq<Byte>>>) returns (back: seq<Byte>)
    requires Lawful(codec) && 0 !in name && mtime < WORD
    ensures back == ConcatAll(files)
  {
    hide *;
    var data: seq<Byte> := [];
    ghost var members: seq<Member> := [];
    NoMembers(codec);
    assert files[..0] == [];
    for i := 0 to |files|
      invariant ValidMembers(codec, members) && data == FileBytes(codec, members)
      invariant Content(codec, members) == ConcatAll(files[..i])
    {
      var output;
      ghost var m;
      output, m := WriteMember(codec, name, mtime, files[i]);
      FileAppend(codec, members, m);
      MoreMembers(codec, members, m);
      ConcatAllAppend(files[..i], files[i]);
      assert files[..i + 1] == files[..i] + [files[i]];
      data := data + output;
      members := members + [m];
    }
    assert files[..|files|] == files;
    var reader := new GzipReader(codec, data, members);
    var r := reader.Read(-1);
    WholeContent(reader.Total());
    TotalIs(reader);
    return r.value;
  }

  function ConcatAll(files: seq<seq<seq<Byte>>>): seq<Byte> {
    if files == [] then [] else ConcatAll(files[..|files| - 1]) + Concat(files[|files| - 1])
  }

  lemma ConcatAllAppend(files: seq<seq<seq<Byte>>>, f: seq<seq<Byte>>)
    ensures ConcatAll(files + [f]) == ConcatAll(files) + Concat(f)
  {
    assert (files + [f])[..|files|] == files;
  }

  lemma NoMembers(c: Codec)
    ensures ValidMembers(c, []) && FileBytes(c, []) == [] && Content(c, []) == [] && ConcatAll([]) == []
  {
  }

  lemma MoreMembers(c: Codec, members: seq<Member>, m: Member)
    requires ValidMembers(c, members) && ValidMember(c, m)
    ensures ValidMembers(c, members + [m])
  {
    hide ValidMember;
  }

  lemma TotalIs(r: GzipReader)
    ensures r.Total() == Content(r.codec, r.members)
  {
  }

  lemma WholeContent(total: seq<Byte>)
    ensures Next(total, 0, -1) == total
  {
  }
}
