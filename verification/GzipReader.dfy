/** `GzipFile` opened for reading: a buffer over the push-back file over members that follow each other. */
module GzipReading {
  import opened Wrappers
  import opened Naturals
  import opened GzipFormat
  import opened PaddedFiles
  import opened GzipTracking
  import opened GzipVerdict
  import opened GzipWellFormed

  const MAX_READ_CHUNK: nat := 10 * 1024 * 1024
  const MAX_SIZE: nat := 0x7fff_ffff_ffff_ffff
  const NEWLINE: Byte := 10

  class GzipReader {
    const codec: Codec
    const fileobj: PaddedFile
    var newMember: bool
    var extrabuf: seq<Byte>
    var extrasize: int
    var extrastart: int
    var offset: int
    var minReadsize: nat
    var inflater: Option<Inflater>
    var crc: nat
    var size: nat
    ghost const members: seq<Member>  // what the file holds, if it is a well-formed gzip file
    ghost var k: nat                  // the member being read
    ghost var produced: seq<Byte>     // what has been decompressed since the start of the file

    /** The buffer holds what was decompressed from `extrastart` on, and the reader is at `offset`. */
    ghost predicate Buffered()
      reads this`extrabuf, this`extrasize, this`extrastart, this`offset, this`produced
    {
      && 0 <= extrastart <= offset <= |produced| && extrabuf == produced[extrastart..]
      && extrasize == |produced| - offset == |extrabuf| - (offset - extrastart)
    }

    /** The running checksum and length are those of the member so far, and nothing is left over of it. */
    ghost predicate InMember()
      requires Lawful(codec)
      reads this`inflater, this`crc, this`size
    {
      && inflater.Some? && inflater.value.unusedData == [] == UnusedAfter(codec, inflater.value.fed)
      && crc == codec.crc(codec.output(inflater.value.fed), 0) && size == |codec.output(inflater.value.fed)|
    }

    ghost predicate Valid()
      reads this, fileobj
    {
      && Lawful(codec) && fileobj.Valid() && Buffered() && 1 <= minReadsize <= 512
      && (!newMember ==> InMember())
      && (newMember && fileobj.HasUnused() ==> inflater.Some? && codec.end(inflater.value.fed).Some?)
      && Bound()
    }

    /** What the whole file comes to: its content, or an error. */
    ghost function Whole(): Outcome
      requires Lawful(codec)
    {
      Verdict(codec, fileobj.data, 0)
    }

    /** What the reader is still to find is what is left of that. */
    ghost predicate Bound()
      requires fileobj.Valid()
      reads this`newMember, this`inflater, this`produced, fileobj
    {
      Foretold(codec, fileobj.data, newMember, fileobj.Position(), Fed(), produced)
    }

    ghost function Fed(): seq<Byte>
      reads this`inflater
    {
      if inflater.Some? then inflater.value.fed else []
    }

    /** The file is well-formed, and the reader is where it should be in it. */
    ghost predicate Tracks()
      requires fileobj.Valid()
      reads this`k, this`newMember, this`inflater, this`produced, fileobj
    {
      Follows(codec, members, fileobj.data, k, newMember, fileobj.Position(), Fed(), produced)
    }

    /** What the file holds. */
    ghost function Total(): seq<Byte> {
      Content(codec, members)
    }

    constructor (codec: Codec, data: seq<Byte>, ghost members: seq<Member>)
      requires Lawful(codec)
      ensures Valid() && fresh(fileobj) && this.codec == codec && this.members == members && fileobj.data == data
      ensures offset == 0 && produced == []
      ensures ValidMembers(codec, members) && data == FileBytes(codec, members) ==> Tracks()
    {
      this.codec := codec;
      this.members := members;
      newMember := true;
      extrabuf, extrasize, extrastart, offset := [], 0, 0, 0;
      minReadsize := 100;
      inflater := None;
      crc, size := 0, 0;
      k, produced := 0, [];
      fileobj := new PaddedFile(data);
      new;
      WholeFile(codec, members);
      hide *;
      if ValidMembers(codec, members) && data == FileBytes(codec, members) {
        FollowsStart(codec, members, data, 0, 0, [], []);
      }
      ForetoldStart(codec, data, []);
      BoundIs(this);
      ReaderIsValid(this);
      TracksIs(this);
    }

    /** `_read_exact` */
    method ReadExact(n: nat) returns (r: Result<seq<Byte>, Error>)
      requires fileobj.Valid()
      modifies fileobj
      ensures fileobj.Valid() && (fileobj.HasUnused() ==> old(fileobj.HasUnused()))
      ensures var p := old(fileobj.Position());
              if p + n <= |fileobj.data| then
                r == Ok(fileobj.data[p..p + n]) && fileobj.Position() == p + n
              else r == Err(EofError)
    {
      hide Min;
      ghost var p := fileobj.Position();
      LeastBounds(n, |fileobj.data| - p);
      var data := fileobj.Read(n);
      while |data| < n
        invariant fileobj.Valid() && (fileobj.HasUnused() ==> old(fileobj.HasUnused()))
        invariant fileobj.Position() == p + |data| && data == fileobj.data[p..p + |data|] && |data| <= n
        decreases n - |data|
      {
        LeastBounds(n - |data|, |fileobj.data| - fileobj.Position());
        var b := fileobj.Read(n - |data|);
        if b == [] {
          return Err(EofError);
        }
        data := data + b;
      }
      return Ok(data);
    }

    /** Reads and discards a string that ends with a zero byte. */
    method SkipString()
      requires fileobj.Valid()
      modifies fileobj
      ensures fileobj.Valid() && (fileobj.HasUnused() ==> old(fileobj.HasUnused()))
      ensures fileobj.Position() == PastZero(fileobj.data, old(fileobj.Position()))
    {
      while true
        invariant fileobj.Valid() && (fileobj.HasUnused() ==> old(fileobj.HasUnused()))
        invariant PastZero(fileobj.data, fileobj.Position()) == PastZero(fileobj.data, old(fileobj.Position()))
        decreases |fileobj.data| - fileobj.Position()
      {
        var s := fileobj.Read(1);
        if s == [] || s == [0] {
          break;
        }
      }
    }

    /** The fields of `_read_gzip_header`, up to the end of the header. */
    method SkipHeader() returns (r: Result<bool, Error>)
      requires fileobj.Valid()
      modifies fileobj
      ensures fileobj.Valid() && (fileobj.HasUnused() ==> old(fileobj.HasUnused()))
      ensures match HeaderEnd(fileobj.data, old(fileobj.Position()))
              case Err(e) => r == Err(e)
              case Ok(None) => r == Ok(false) && fileobj.Position() == |fileobj.data|
              case Ok(Some(q)) => r == Ok(true) && fileobj.Position() == q
    {
      ghost var p := fileobj.Position();
      hide FieldsEnd;
      var magic := fileobj.Read(2);
      if magic == [] {
        return Ok(false);
      }
      if magic != [0x1f, 0x8b] {
        return Err(NotGzipped);
      }
      var fixed := ReadExact(8);
      if fixed.Err? {
        return Err(fixed.error);
      }
      var method', flag := fixed.value[0], fixed.value[1];
      if method' != 8 {
        return Err(UnknownMethod);
      }
      r := SkipFields(flag);
    }

    /** The optional fields of a header. */
    method SkipFields(flag: Byte) returns (r: Result<bool, Error>)
      requires fileobj.Valid()
      modifies fileobj
      ensures fileobj.Valid() && (fileobj.HasUnused() ==> old(fileobj.HasUnused()))
      ensures match FieldsEnd(fileobj.data, old(fileobj.Position()), flag)
              case Err(e) => r == Err(e)
              case Ok(q) => r == Ok(true) && fileobj.Position() == q.value
    {
      hide ExtraEnd, PastZero, Flag, FromLe;
      if Flag(flag, FEXTRA) {
        ExtraEndIs(fileobj.data, fileobj.Position());
        var extraLen := ReadExact(2);
        if extraLen.Err? {
          return Err(extraLen.error);
        }
        var extra := ReadExact(FromLe(extraLen.value));
        if extra.Err? {
          return Err(extra.error);
        }
      }
      if Flag(flag, FNAME) {
        SkipString();
      }
      if Flag(flag, FCOMMENT) {
        SkipString();
      }
      if Flag(flag, FHCRC) {
        var headerCrc := ReadExact(2);
        if headerCrc.Err? {
          return Err(headerCrc.error);
        }
      }
      return Ok(true);
    }

    /** `_add_read_data` */
    method AddReadData(data: seq<Byte>)
      requires Buffered()
      modifies this`crc, this`extrabuf, this`extrasize, this`extrastart, this`size, this`produced
      ensures Buffered() && produced == old(produced) + data && extrastart == offset
      ensures crc == codec.crc(data, old(crc)) && size == old(size) + |data|
    {
      crc := codec.crc(data, crc);
      var start := offset - extrastart;
      SkipBuffered(produced, extrastart, start, data);
      extrabuf := extrabuf[start..] + data;
      extrasize := extrasize + |data|;
      extrastart := offset;
      size := size + |data|;
      produced := produced + data;
    }

    /** `_read_eof`: checks the trailer, and skips the zero bytes after it. */
    method ReadEof() returns (r: Result<(), Error>)
      requires fileobj.Valid()
      modifies fileobj
      ensures r == TrailerCheck(fileobj.data, old(fileobj.Position()), crc, size)
      ensures r.Ok? ==> fileobj.Valid() && old(fileobj.Position()) + 8 <= |fileobj.data|
      ensures r.Ok? ==> fileobj.Position() == PastZeros(fileobj.data, old(fileobj.Position()) + 8)
    {
      hide TrailerCheck, FromLe, PastZeros, Min;
      ghost var p := fileobj.Position();
      TrailerCheckIs(fileobj.data, p, crc, size);
      var trailer := ReadExact(8);
      if trailer.Err? {
        return Err(trailer.error);
      }
      SliceOfSlice(fileobj.data, p, p + 8, 0, 4);
      SliceOfSlice(fileobj.data, p, p + 8, 4, 8);
      if FromLe(trailer.value[0..4]) != crc {
        return Err(CrcFailed);
      }
      if FromLe(trailer.value[4..8]) != size % WORD {
        return Err(BadLength);
      }
      ghost var q := PastZeros(fileobj.data, p + 8);
      var c: seq<Byte> := [0];
      while c == [0]
        invariant fileobj.Valid() && |c| <= 1
        invariant c == [0] ==> PastZeros(fileobj.data, fileobj.Position()) == q
        invariant c != [0] ==> fileobj.Position() == q + |c| && fileobj.data[q..q + |c|] == c && fileobj.CanReturn(|c|)
        decreases |fileobj.data| - fileobj.Position() + |c|, if c == [0] then 1 else 0
      {
        PastZerosStep(fileobj.data, fileobj.Position());
        c := fileobj.Read(1);
      }
      if c != [] {
        var put := fileobj.Prepend(c);
        return put;
      }
      return Ok(());
    }

    /**
     `_read_gzip_header`: what is unread of the buffer is shown to the old decompressor too, which
     makes nothing of it.
     */
    method ReadGzipHeader() returns (r: Result<bool, Error>)
      requires Valid() && newMember && crc == 0 && size == 0
      modifies this, fileobj
      ensures Buffered() && offset == old(offset) && produced == old(produced)
      ensures newMember && minReadsize == old(minReadsize) && k == old(k) && crc == 0 && size == 0
      ensures fileobj.Valid()
      ensures match HeaderEnd(fileobj.data, old(fileobj.Position()))
              case Err(e) => r == Err(e)
              case Ok(None) => r == Ok(false) && fileobj.Position() == |fileobj.data|
              case Ok(Some(q)) => r == Ok(true) && fileobj.Position() == q
      ensures r == Ok(false) ==> inflater == old(inflater) && (fileobj.HasUnused() ==> old(fileobj.HasUnused()))
    {
      hide *;
      ValidParts(this);
      r := SkipHeader();
      BufferedIs(this);
      if r != Ok(true) {
        return;
      }
      var unused := fileobj.Unused();
      if unused != [] {
        var (inflater', uncompress) := Decompress(codec, inflater.value, unused);
        DecompressFacts(codec, inflater.value, unused);
        inflater := Some(inflater');
        CrcAppends(codec, [], []);
        BufferedIs(this);
        AddReadData(uncompress);
      }
    }

    /** `_read`: the next part of the file, decompressed; `false` when there is no more of it. */
    method ReadMore(size': nat) returns (r: Result<bool, Error>)
      requires Valid() && size' > 0
      modifies this, fileobj
      ensures Buffered() && offset == old(offset) && old(produced) <= produced && minReadsize == old(minReadsize)
      ensures r.Err? ==> r.error != NameError
      ensures r.Ok? ==> Valid()
      ensures r == Ok(true) ==> fileobj.Position() > old(fileobj.Position())
      ensures r == Ok(false) ==> produced == old(produced)
      ensures r.Err? ==> Whole() == Err(r.error)
      ensures r == Ok(false) ==> Whole() == Ok(produced)
      ensures old(newMember) && HeaderEnd(fileobj.data, old(fileobj.Position())).Err? ==>
                r == Err(HeaderEnd(fileobj.data, old(fileobj.Position())).error)
      ensures r == Ok(false) <==> old(newMember) && HeaderEnd(fileobj.data, old(fileobj.Position())) == Ok(None)
      ensures old(newMember) && r != Ok(false) && HeaderEnd(fileobj.data, old(fileobj.Position())).Ok? ==>
                var q := HeaderEnd(fileobj.data, old(fileobj.Position())).value.value;
                FoundInBody(codec, fileobj.data, q, [], size', r)
      ensures !old(newMember) ==> FoundInBody(codec, fileobj.data, old(fileobj.Position()), old(Fed()), size', r)
      ensures old(Tracks()) ==> r.Ok? && Tracks() && (r == Ok(false) ==> produced == Total())
    {
      hide *;
      ValidParts(this);
      TracksIs(this);
      BoundIs(this);
      WholeIs(this);
      if newMember {
        ForetoldHeader(codec, fileobj.data, fileobj.Position(), Fed(), produced);
        if Tracks() {
          AtStart(codec, members, fileobj.data, k, fileobj.Position(), Fed(), produced);
        }
        CrcAppends(codec, [], []);
        BufferedIs(this);
        crc := codec.crc([], 0);
        size := 0;
        BufferedIs(this);
        ValidIs(this);
        var header := ReadGzipHeader();
        TracksIs(this);
        BoundIs(this);
        if header.Err? {
          return Err(header.error);
        }
        ValidIs(this);
        if !header.value {
          return Ok(false);
        }
        FreshInflater(codec);
        BufferedIs(this);
        inflater := Some(Inflater([], []));
        newMember := false;
        BufferedIs(this);
        InMemberIs(this);
        TracksIs(this);
        BoundIs(this);
        ValidIs(this);
      }
      r := ReadBody(size');
    }

    /** Decompresses what was read, in `_read`. */
    method Feed(buf: seq<Byte>)
      requires Lawful(codec) && Buffered() && InMember()
      modifies this`inflater, this`crc, this`extrabuf, this`extrasize, this`extrastart, this`size, this`produced
      ensures Buffered()
      ensures var fed := old(Fed()) + buf;
              && old(inflater).Some? && inflater == Some(Inflater(fed, UnusedAfter(codec, fed))) && Fed() == fed
              && codec.output(old(Fed())) <= codec.output(fed)
              && produced == old(produced) + codec.output(fed)[|codec.output(old(Fed()))|..]
              && crc == codec.crc(codec.output(fed), 0) && size == |codec.output(fed)|
      ensures var u := inflater.value.unusedData;
              |u| <= |buf| && buf[|buf| - |u|..] == u && (u != [] ==> codec.end(Fed()).Some?)
    {
      hide *;
      InMemberIs(this);
      FedIs(this);
      var (inflater', uncompress) := Decompress(codec, inflater.value, buf);
      DecompressFacts(codec, inflater.value, buf);
      CrcAppends(codec, codec.output(inflater.value.fed), uncompress);
      BufferedIs(this);
      inflater := Some(inflater');
      BufferedIs(this);
      AddReadData(uncompress);
      FedIs(this);
    }

    /**
     The end of the file where a member was not over, in `_read`: nothing is left to flush, nor any
     trailer, so it always fails.
     */
    method EndOfFile() returns (error: Error)
      requires fileobj.Valid() && fileobj.Position() == |fileobj.data|
      requires inflater.Some? && inflater.value.unusedData == []
      modifies fileobj
      ensures error == EofError
    {
      var put := fileobj.Prepend(inflater.value.unusedData);
      var eof := ReadEof();
      return eof.error;
    }

    /** The end of a member, in `_read`: what was read past it is put back, and its trailer checked. */
    method EndMember(buf: seq<Byte>) returns (r: Result<(), Error>)
      requires fileobj.Valid() && Buffered() && inflater.Some?
      requires |buf| <= fileobj.Position() && fileobj.data[fileobj.Position() - |buf|..fileobj.Position()] == buf
      requires fileobj.CanReturn(|buf|)
      requires var u := inflater.value.unusedData; |u| <= |buf| && buf[|buf| - |u|..] == u
      modifies this`newMember, this`k, fileobj
      ensures Buffered()
      ensures var q := old(fileobj.Position()) - |inflater.value.unusedData|;
              && r == TrailerCheck(fileobj.data, q, crc, size)
              && (r.Ok? ==>
                    && newMember && k == old(k) + 1 && fileobj.Valid()
                    && q + 8 <= |fileobj.data| && fileobj.Position() == PastZeros(fileobj.data, q + 8))
    {
      hide *;
      ghost var unused := |inflater.value.unusedData|;
      ReadLast(fileobj.data, fileobj.Position() - |buf|, fileobj.Position(), unused);
      ReturnLess(fileobj, |buf|, unused);
      var put := fileobj.Prepend(inflater.value.unusedData);
      BufferedIs(this);
      if put.Err? {
        return put;
      }
      r := ReadEof();
      BufferedIs(this);
      if r.Ok? {
        newMember := true;
        k := k + 1;
        BufferedIs(this);
      }
    }

    /** What `_read` does with a part of the file: decompresses it, and ends the member if it is over. */
    method Absorb(buf: seq<Byte>) returns (r: Result<(), Error>)
      requires Lawful(codec) && fileobj.Valid() && Buffered() && InMember() && !newMember
      requires |buf| <= fileobj.Position() && fileobj.data[fileobj.Position() - |buf|..fileobj.Position()] == buf
      requires fileobj.CanReturn(|buf|)
      modifies this`inflater, this`crc, this`extrabuf, this`extrasize, this`extrastart,
        this`size, this`produced, this`newMember, this`k, fileobj
      ensures Buffered() && Absorbed(codec, old(Fed()), buf, old(produced), Fed(), produced)
      ensures var q, u := old(fileobj.Position()), UnusedAfter(codec, Fed());
              && |u| <= |buf|
              && if u == [] then r == Ok(()) && !newMember && InMember() && k == old(k) &&
                fileobj.Valid() && fileobj.Position() == q
                 else
                   && r == TrailerCheck(fileobj.data, q - |u|, codec.crc(codec.output(Fed()), 0), |codec.output(Fed())|)
                   && (r.Ok? ==>
                         && newMember && k == old(k) + 1 && inflater.Some? && codec.end(Fed()).Some? && fileobj.Valid()
                         && q - |u| + 8 <= |fileobj.data| && fileobj.Position() == PastZeros(fileobj.data, q - |u| + 8))
    {
      hide *;
      InMemberIs(this);
      Feed(buf);
      AbsorbedIs(codec, old(Fed()), buf, old(produced), Fed(), produced);
      if inflater.value.unusedData == [] {
        InMemberIs(this);
        return Ok(());
      }
      r := EndMember(buf);
      FedIs(this);
    }

    /** The part of `_read` after the header. */
    method ReadBody(size': nat) returns (r: Result<bool, Error>)
      requires Valid() && !newMember && size' > 0
      modifies this, fileobj
      ensures Buffered() && offset == old(offset) && old(produced) <= produced && minReadsize == old(minReadsize)
      ensures r.Err? ==> r.error != NameError
      ensures r.Ok? ==> Valid()
      ensures r.Ok? ==> r.value && fileobj.Position() > old(fileobj.Position())
      ensures r.Err? ==> Whole() == Err(r.error)
      ensures FoundInBody(codec, fileobj.data, old(fileobj.Position()), old(Fed()), size', r)
      ensures old(Tracks()) ==> r.Ok? && Tracks()
    {
      hide *;
      ValidParts(this);
      TracksIs(this);
      InMemberIs(this);
      BoundIs(this);
      WholeIs(this);
      FedIs(this);
      ghost var tracks, p, fed, was := Tracks(), fileobj.Position(), Fed(), produced;
      LeastBounds(size', |fileobj.data| - p);
      var buf := fileobj.Read(size');
      if tracks {
        InsideRead(codec, members, fileobj.data, k, p, fed, was, buf);
      }
      ForetoldMore(codec, fileobj.data, p, p + |buf|, fed, was);
      FoundIs(codec, fileobj.data, p, fed, size');
      if buf == [] {
        ForetoldCutOff(codec, fileobj.data, fed, was);
        BufferedIs(this);
        var error := EndOfFile();
        BufferedIs(this);
        return Err(error);
      }
      BufferedIs(this);
      InMemberIs(this);
      var end := Absorb(buf);
      AbsorbedParts(codec, fed, buf, was, Fed(), produced);
      AbsorbedFacts(codec, fed, buf, was, Fed(), produced);
      OnTrackIs(codec, members, fileobj.data, old(k), p + |buf|, Fed(), produced);
      if end.Err? {
        return Err(end.error);
      }
      FedIs(this);
      BoundIs(this);
      ValidIs(this);
      TracksIs(this);
      return Ok(true);
    }

    /** Takes the next bytes from the buffer. */
    method Take(n: nat) returns (chunk: seq<Byte>)
      requires Buffered() && n <= extrasize
      modifies this`extrasize, this`offset
      ensures Buffered() && offset == old(offset) + n && chunk == produced[old(offset)..offset]
    {
      var start := offset - extrastart;
      SliceOfSlice(produced, extrastart, |produced|, start, start + n);
      chunk := extrabuf[start..start + n];
      extrasize := extrasize - n;
      offset := offset + n;
    }

    /**
     The two loops of `read`: fills the buffer to what is wanted, or to the end of the file, and
     tells whether it came to that.
     */
    method Refill(want: Option<nat>) returns (r: Result<bool, Error>)
      requires Valid()
      modifies this, fileobj
      ensures Buffered() && offset == old(offset) && minReadsize == old(minReadsize)
      ensures r.Err? ==> r.error != NameError && Whole() == Err(r.error)
      ensures r.Ok? ==> fileobj.Valid() && Valid() && old(produced) <= produced
      ensures r.Ok? && r.value ==> Whole() == Ok(produced)
      ensures r.Ok? ==> r.value || (want.Some? && want.value <= extrasize)
      ensures r.Ok? && r.value ==> want.None? || extrasize < want.value
      ensures old(Tracks()) ==> r.Ok? && Tracks() && (r.value ==> produced == Total())
    {
      hide *;
      ValidParts(this);
      BufferedIs(this);
      ghost var tracks, was := Tracks(), produced;
      var readsize := 1024;
      while want.None? || want.value > extrasize
        invariant fileobj.Valid() && Valid() && Buffered() && offset == old(offset)
        invariant minReadsize == old(minReadsize) && readsize > 0
        invariant was <= produced
        invariant tracks ==> Tracks()
        decreases |fileobj.data| - fileobj.Position()
      {
        BufferedIs(this);
        var more := ReadMore(readsize);
        if more.Err? {
          return Err(more.error);
        }
        ValidParts(this);
        BufferedIs(this);
        if !more.value {
          return Ok(true);
        }
        ChunkSize(readsize * 2);
        readsize := Min(MAX_READ_CHUNK, readsize * 2);
      }
      return Ok(false);
    }

    /** `read`: the next `n` bytes of the content, or all that is left. */
    method Read(n: int) returns (r: Result<seq<Byte>, Error>)
      requires Valid()
      modifies this, fileobj
      ensures Buffered() && (r.Err? ==> r.error != NameError && offset == old(offset))
      ensures r.Err? ==> Whole() == Err(r.error)
      ensures r.Ok? && (n < 0 || |r.value| < n) ==> Whole() == Ok(produced) && offset == |produced|
      ensures r.Ok? ==>
                Valid() && Took(old(produced), produced, old(offset), offset, r.value) && extrastart <= old(offset)
      ensures r.Ok? ==> minReadsize == old(minReadsize) && (n >= 0 ==> |r.value| <= n)
      ensures old(Tracks()) ==>
                r.Ok? && Tracks() && old(offset) <= |Total()| && r.value == Next(Total(), old(offset), n)
    {
      hide *;
      ValidParts(this);
      var complete := Refill(if n < 0 then None else Some(n));
      BufferedIs(this);
      if complete.Err? {
        return Err(complete.error);
      }
      var size' := if complete.value then extrasize else n;
      ValidParts(this);
      var chunk := Take(size');
      ValidIs(this);
      TookIs(old(produced), produced, old(offset), size');
      if old(Tracks()) {
        TracksPrefix(this);
        NextIs(produced, Total(), old(offset), size', n);
      }
      return Ok(chunk);
    }

    /** The loops of `read1` and `peek`: reads on until there is something, or nothing more. */
    method RefillSome(size': nat) returns (r: Result<(), Error>)
      requires Valid() && size' > 0
      modifies this, fileobj
      ensures Buffered() && offset == old(offset) && minReadsize == old(minReadsize)
      ensures r.Err? ==> r.error != NameError && Whole() == Err(r.error)
      ensures r.Ok? ==> fileobj.Valid() && Valid() && old(produced) <= produced
      ensures r.Ok? ==> extrasize > 0 || Whole() == Ok(produced)
      ensures old(Tracks()) ==> r.Ok? && Tracks() && (extrasize > 0 || produced == Total())
    {
      hide *;
      ValidParts(this);
      BufferedIs(this);
      ghost var tracks, was := Tracks(), produced;
      while extrasize <= 0
        invariant fileobj.Valid() && Valid() && Buffered() && offset == old(offset) && minReadsize == old(minReadsize)
        invariant was <= produced
        invariant tracks ==> Tracks()
        decreases |fileobj.data| - fileobj.Position()
      {
        var more := ReadMore(size');
        if more.Err? {
          return Err(more.error);
        }
        ValidParts(this);
        if !more.value {
          break;
        }
      }
      return Ok(());
    }

    /** `read1`: some bytes, `n` at most, of what is buffered or comes next. */
    method Read1(n: int) returns (r: Result<seq<Byte>, Error>)
      requires Valid()
      modifies this, fileobj
      ensures Buffered() && (r.Err? ==> r.error != NameError && offset == old(offset))
      ensures r.Err? ==> Whole() == Err(r.error)
      ensures r.Ok? && r.value == [] && n != 0 ==> Whole() == Ok(produced) && offset == |produced|
      ensures r.Ok? ==> Valid() && Took(old(produced), produced, old(offset), offset, r.value)
      ensures r.Ok? ==> n >= 0 ==> |r.value| <= n
      ensures old(Tracks()) ==>
                r.Ok? && Tracks() && produced <= Total() && (r.value == [] ==> n == 0 || offset == |Total()|)
    {
      hide *;
      ValidParts(this);
      var filled := RefillSome(1024);
      BufferedIs(this);
      if filled.Err? {
        return Err(filled.error);
      }
      var size' := n;
      if size' < 0 || size' > extrasize {
        size' := extrasize;
      }
      ValidParts(this);
      var chunk := Take(size');
      ValidIs(this);
      TookIs(old(produced), produced, old(offset), size');
      if old(Tracks()) {
        TracksPrefix(this);
      }
      return Ok(chunk);
    }

    /** `peek`: some of the next bytes, which stay to be read. */
    method Peek(n': int) returns (r: Result<seq<Byte>, Error>)
      requires Valid()
      modifies this, fileobj
      ensures Buffered() && offset == old(offset) && (r.Err? ==> r.error != NameError && Whole() == Err(r.error))
      ensures r.Ok? && r.value == [] ==> Whole() == Ok(produced) && offset == |produced|
      ensures r.Ok? ==> Valid() && Took(old(produced), produced, old(offset), old(offset) + |r.value|, r.value)
      ensures r.Ok? ==> |r.value| <= if n' < 100 then 100 else n'
      ensures old(Tracks()) ==> r.Ok? && Tracks() && produced <= Total() && (r.value == [] ==> offset == |Total()|)
    {
      hide *;
      ValidParts(this);
      BufferedIs(this);
      var n := n';
      if n < 100 {
        n := 100;
      }
      if extrasize == 0 {
        var filled := RefillSome(if n < 1024 then 1024 else n);
        if filled.Err? {
          return Err(filled.error);
        }
      }
      BufferedIs(this);
      ValidParts(this);
      var start := offset - extrastart;
      var remaining := extrasize;
      assert remaining == |extrabuf| - start;
      var end := Min(start + n, |extrabuf|);
      PeekIs(produced, extrastart, start, n);
      TookIs(old(produced), produced, offset, end - start);
      if old(Tracks()) {
        TracksPrefix(this);
      }
      return Ok(extrabuf[start..end]);
    }

    /** `_unread` */
    method Unread(buf: seq<Byte>)
      requires Buffered() && extrastart <= offset - |buf|
      modifies this`extrasize, this`offset
      ensures Buffered() && offset == old(offset) - |buf|
    {
      extrasize := |buf| + extrasize;
      offset := offset - |buf|;
    }

    /** `readline`, which pays no attention to the size it is passed. */
    method ReadLine(size': int) returns (r: Result<seq<Byte>, Error>)
      requires Valid()
      modifies this, fileobj
      ensures Buffered() && (r.Err? ==> r.error != NameError && Whole() == Err(r.error))
      ensures r.Ok? ==> Valid() && Took(old(produced), produced, old(offset), offset, r.value)
      ensures r.Ok? ==> LineRead(produced, old(offset), offset, Whole())
      ensures old(Tracks()) ==> r.Ok? && Tracks() && produced <= Total() && IsLine(Total(), old(offset), offset)
    {
      hide *;
      ValidParts(this);
      BufferedIs(this);
      ghost var tracks, was, o := Tracks(), produced, offset;
      var start := offset - extrastart;
      var i := Find(extrabuf, start) + 1;
      if i > 0 {
        ShortLine(produced, extrastart, start);
        var line := Take(i - start);
        ValidIs(this);
        TookIs(was, produced, o, i - start);
        LineEnded(produced, o, offset, Whole());
        if tracks {
          TracksPrefix(this);
          LineIn(produced, Total(), o, offset);
        }
        return Ok(line);
      }
      var readsize;
      r, readsize := LongLine(o);
      if r.Ok? {
        GrowReadsize(readsize);
      }
    }

    /** Reads more at a time after a long line. */
    method GrowReadsize(readsize: nat)
      requires Valid()
      modifies this`minReadsize
      ensures Valid() && Buffered()
    {
      if readsize > minReadsize {
        minReadsize := Min(minReadsize * 2, 512);
      }
    }

    /** Keeps the first `n` bytes of what was read, and puts the rest back. */
    method KeepPart(c: seq<Byte>, n: nat) returns (part: seq<Byte>)
      requires fileobj.Valid() && Valid() && n <= |c| && extrastart + |c| <= offset
      modifies this`extrasize, this`offset
      ensures fileobj.Valid() && Valid() && Buffered() && offset == old(offset) - |c| + n && part == c[..n]
    {
      hide *;
      ValidParts(this);
      part := c[..n];
      Unread(c[n..]);
      ValidIs(this);
    }

    /** One round of the loop of `readline`: one more part of the line, and whether the line is over. */
    method LinePart(size': int, readsize: nat, ghost o: int) returns (r: Result<bool, Error>, more: seq<Byte>)
      requires fileobj.Valid() && Valid() && 0 < readsize <= size' && NoNewline(produced, o, offset)
      modifies this, fileobj
      ensures Buffered() && (r.Err? ==> r.error != NameError && Whole() == Err(r.error))
      ensures r.Ok? ==> fileobj.Valid() && Valid() && minReadsize == old(minReadsize)
      ensures r.Ok? ==> Took(old(produced), produced, old(offset), offset, more)
      ensures r == Ok(false) ==> 0 < |more| <= readsize && NoNewline(produced, o, offset)
      ensures r == Ok(true) ==> LineRead(produced, o, offset, Whole())
      ensures old(Tracks()) ==> r.Ok? && Tracks() && (r == Ok(true) ==> IsLine(Total(), o, offset))
    {
      hide *;
      ghost var tracks, q, before := Tracks(), offset, produced;
      var c := Read(readsize);
      if c.Err? {
        return Err(c.error), [];
      }
      ValidParts(this);
      BufferedIs(this);
      more := c.value;
      PartRead(before, produced, o, q, offset, more);
      LineGoesOn(produced, o, q, more);
      var i := CutOff(Find(more, 0), |more|, size');
      CutOffIs(more, size');
      if i < 0 && more != [] {
        return Ok(false), more;
      }
      LineOver(before, produced, o, q, more, i);
      if i >= 0 {
        LineEnded(produced, o, q + i + 1, Whole());
      } else {
        LineCut(produced, o, q, Whole());
      }
      if tracks {
        TracksPrefix(this);
        LineFound(produced, Total(), o, q, more, readsize, i);
      }
      more := KeepPart(more, i + 1);
      return Ok(true), more;
    }

    /** The loop of `readline`, for a line that does not end in the buffer. */
    method LongLine(ghost o: int) returns (r: Result<seq<Byte>, Error>, readsize: nat)
      requires Valid() && o == offset
      modifies this, fileobj
      ensures Buffered() && (r.Err? ==> r.error != NameError && Whole() == Err(r.error))
      ensures r.Ok? ==> Valid() && Took(old(produced), produced, o, offset, r.value)
      ensures r.Ok? ==> LineRead(produced, o, offset, Whole())
      ensures old(Tracks()) ==> r.Ok? && Tracks() && produced <= Total() && IsLine(Total(), o, offset)
    {
      hide *;
      ValidParts(this);
      BufferedIs(this);
      ghost var tracks, was := Tracks(), produced;
      var size := MAX_SIZE;
      readsize := minReadsize;
      var bufs: seq<seq<Byte>> := [];
      LineStarts(produced, o);
      while size != 0
        invariant fileobj.Valid() && Valid() && Buffered() && was <= produced && 0 <= o <= offset <= |produced|
        invariant size == MAX_SIZE - (offset - o) >= 0 && (size > 0 ==> 0 < readsize <= size) && (tracks ==> Tracks())
        invariant Concat(bufs) == produced[o..offset] && NoNewline(produced, o, offset)
        decreases size
      {
        ghost var q, before := offset, produced;
        var over, more := LinePart(size, readsize, o);
        if over.Err? {
          return Err(over.error), readsize;
        }
        PartsAppend(bufs, before, produced, o, q, offset, more);
        bufs := bufs + [more];
        if over.value {
          if tracks {
            ValidParts(this);
            TracksPrefix(this);
          }
          TookIs(was, produced, o, offset - o);
          return Ok(Concat(bufs)), readsize;
        }
        size := size - |more|;
        LeastBounds(size, readsize * 2);
        readsize := Min(size, readsize * 2);
      }
      TookIs(was, produced, o, offset - o);
      LineCut(produced, o, offset, Whole());
      if tracks {
        ValidParts(this);
        TracksPrefix(this);
        LineTooLong(produced, Total(), o, offset);
      }
      return Ok(Concat(bufs)), readsize;
    }

    /** `rewind` */
    method Rewind()
      requires Valid()
      modifies this, fileobj
      ensures fileobj.Valid() && Valid() && offset == 0
      ensures old(Tracks()) ==> Tracks()
    {
      hide *;
      ValidParts(this);
      TracksIs(this);
      if Tracks() {
        FollowsFile(codec, members, fileobj.data, k, newMember, fileobj.Position(), Fed(), produced);
      }
      fileobj.SeekStart();
      newMember := true;
      extrabuf := [];
      extrasize := 0;
      extrastart := 0;
      offset := 0;
      k, produced := 0, [];
      BufferedIs(this);
      ForetoldStart(codec, fileobj.data, Fed());
      BoundIs(this);
      ValidIs(this);
      TracksIs(this);
      if old(Tracks()) {
        WholeFile(codec, members);
        FollowsStart(codec, members, fileobj.data, 0, 0, Fed(), []);
      }
    }

    /**
     `seek`: forward by reading, backward from the start.  A target before the start of the
     file is not refused: it is taken modulo 1024, the size of the parts that are skipped.
     */
    method Seek(offset': int, whence: int) returns (r: Result<int, Error>)
      requires Valid()
      modifies this, fileobj
      ensures Buffered() && (r.Err? ==> r.error != NameError)
      ensures r.Err? && whence in {0, 1} ==> Whole() == Err(r.error)
      ensures whence !in {0, 1} ==>
                r == Err(ValueError) && Valid() && offset == old(offset) && (old(Tracks()) ==> Tracks())
      ensures r.Ok? ==> Valid() && r.value == offset
      ensures r.Ok? && whence in {0, 1} ==>
                var target := if whence == 1 then old(offset) + offset' else offset';
                Sought(produced, if target < 0 then target % 1024 else target, offset, Whole())
      ensures old(Tracks()) && whence in {0, 1} ==>
                r.Ok? && Tracks() &&
                  offset == SeekEnd(|Total()|, if whence == 1 then old(offset) + offset' else offset')
    {
      hide *;
      ValidParts(this);
      BufferedIs(this);
      var target := offset';
      if whence != 0 {
        if whence == 1 {
          target := offset + target;
        } else {
          return Err(ValueError);
        }
      }
      if target < offset {
        Rewind();
      }
      r := SkipTo(target);
    }

    /** The rest of `seek`: reads up to the target. */
    method SkipTo(target: int) returns (r: Result<int, Error>)
      requires fileobj.Valid() && Valid() && (offset <= target || offset == 0)
      modifies this, fileobj
      ensures Buffered() && (r.Err? ==> r.error != NameError && Whole() == Err(r.error))
      ensures r.Ok? ==> Valid() && r.value == offset
      ensures r.Ok? ==> Sought(produced, if target < 0 then target % 1024 else target, offset, Whole())
      ensures old(Tracks()) ==> r.Ok? && Tracks() && offset == SeekEnd(|Total()|, target)
    {
      hide *;
      ghost var tracks := Tracks();
      ValidParts(this);
      BufferedIs(this);
      if tracks {
        TracksPrefix(this);
      }
      ghost var base := offset;
      SoughtIs(produced, base, base, Whole());
      MinIs(base, |Total()|);
      var count := target - offset;
      var times := if count < 0 then 0 else count / 1024;
      for i := 0 to times
        invariant fileobj.Valid() && Valid() && Buffered()
        invariant Sought(produced, base + 1024 * i, offset, Whole())
        invariant tracks ==> Tracks() && offset == Min(base + 1024 * i, |Total()|)
      {
        var skipped := SkipPart(1024, base + 1024 * i);
        if skipped.Err? {
          return Err(skipped.error);
        }
      }
      var skipped := SkipPart(count % 1024, base + 1024 * times);
      if skipped.Err? {
        return Err(skipped.error);
      }
      SeekEndIs(|Total()|, target, base);
      return Ok(offset);
    }

    /** Reads over `n` bytes. */
    method SkipPart(n: nat, ghost target: nat) returns (r: Result<seq<Byte>, Error>)
      requires fileobj.Valid() && Valid() && Sought(produced, target, offset, Whole())
      modifies this, fileobj
      ensures Buffered() && (r.Err? ==> r.error != NameError && Whole() == Err(r.error))
      ensures r.Ok? ==> fileobj.Valid() && Valid() && Sought(produced, target + n, offset, Whole())
      ensures old(Tracks()) ==> r.Ok? && Tracks()
      ensures old(Tracks()) && old(offset) == Min(target, |Total()|) ==> offset == Min(target + n, |Total()|)
    {
      hide *;
      ghost var q, before := offset, produced;
      r := Read(n);
      if r.Ok? {
        ValidParts(this);
        TookParts(before, produced, q, offset, r.value);
        WholePrefix(this);
        SoughtOn(before, target, q, Whole(), produced, n, offset);
        SkippedTo(Total(), target, q, n);
      }
    }
  }

  /** `buf` was decompressed after `fed`. */
  ghost predicate Absorbed(c: Codec, fed: seq<Byte>, buf: seq<Byte>, was: seq<Byte>, fed': seq<Byte>,
      produced: seq<Byte>) {
    && fed' == fed + buf && c.output(fed) <= c.output(fed')
    && produced == was + c.output(fed')[|c.output(fed)|..]
  }

  lemma AbsorbedIs(c: Codec, fed: seq<Byte>, buf: seq<Byte>, was: seq<Byte>, fed': seq<Byte>, produced: seq<Byte>)
    requires fed' == fed + buf && c.output(fed) <= c.output(fed') && produced == was + c.output(fed')[|c.output(fed)|..]
    ensures Absorbed(c, fed, buf, was, fed', produced)
  {
  }

  lemma AbsorbedParts(c: Codec, fed: seq<Byte>, buf: seq<Byte>, was: seq<Byte>, fed': seq<Byte>, produced: seq<Byte>)
    requires Absorbed(c, fed, buf, was, fed', produced)
    ensures was <= produced
  {
  }

  /** The file has been read to `q` inside member `k`; what is left over of it has a trailer that passes. */
  ghost predicate OnTrack(c: Codec, ms: seq<Member>, data: seq<Byte>, k: nat, q: nat, fed: seq<Byte>,
      produced: seq<Byte>)
    requires Lawful(c)
  {
    var u := UnusedAfter(c, fed);
    if u == [] then Follows(c, ms, data, k, false, q, fed, produced)
    else
      && |u| <= q <= |data|
      && TrailerCheck(data, q - |u|, c.crc(c.output(fed), 0), |c.output(fed)|).Ok?
      && q - |u| + 8 <= |data| && Follows(c, ms, data, k + 1, true, PastZeros(data, q - |u| + 8), fed, produced)
  }

  /** A part of the file was read inside a member: there is some, and what comes of it is on track. */
  lemma InsideRead(c: Codec, ms: seq<Member>, data: seq<Byte>, k: nat, p: nat, fed: seq<Byte>, was: seq<Byte>,
      buf: seq<Byte>)
    requires Lawful(c) && Follows(c, ms, data, k, false, p, fed, was)
    requires p + |buf| <= |data| && buf == data[p..p + |buf|]
    ensures p + 8 <= |data|
    ensures forall fed', produced :: Absorbed(c, fed, buf, was, fed', produced) ==>
              OnTrack(c, ms, data, k, p + |buf|, fed', produced)
  {
    hide *;
    Inside(c, ms, data, k, p, fed, was, p + |buf|);
    forall fed', produced | Absorbed(c, fed, buf, was, fed', produced)
      ensures OnTrack(c, ms, data, k, p + |buf|, fed', produced)
    {
      AbsorbedFacts(c, fed, buf, was, fed', produced);
      var u := UnusedAfter(c, fed');
      if u != [] {
        TrailerPasses(c, data, p + |buf| - |u|, c.output(fed'), c.crc(c.output(fed'), 0), |c.output(fed')|);
      }
      OnTrackIs(c, ms, data, k, p + |buf|, fed', produced);
    }
  }

  lemma OnTrackIs(c: Codec, ms: seq<Member>, data: seq<Byte>, k: nat, q: nat, fed: seq<Byte>, produced: seq<Byte>)
    requires Lawful(c)
    ensures var u := UnusedAfter(c, fed);
            OnTrack(c, ms, data, k, q, fed, produced) <==>
            if u == [] then Follows(c, ms, data, k, false, q, fed, produced)
            else
              && |u| <= q <= |data|
              && TrailerCheck(data, q - |u|, c.crc(c.output(fed), 0), |c.output(fed)|).Ok?
              && q - |u| + 8 <= |data| && Follows(c, ms, data, k + 1, true, PastZeros(data, q - |u| + 8), fed, produced)
  {
    hide Follows, TrailerCheck, UnusedAfter, PastZeros, Lawful;
  }

  lemma AbsorbedFacts(c: Codec, fed: seq<Byte>, buf: seq<Byte>, was: seq<Byte>, fed': seq<Byte>, produced: seq<Byte>)
    requires Absorbed(c, fed, buf, was, fed', produced)
    ensures fed' == fed + buf && c.output(fed) <= c.output(fed') && produced == was + c.output(fed')[|c.output(fed)|..]
  {
  }

  lemma ValidParts(r: GzipReader)
    requires r.Valid()
    ensures Lawful(r.codec) && r.fileobj.Valid() && r.Buffered() && 1 <= r.minReadsize <= 512
    ensures !r.newMember ==> r.InMember()
    ensures r.newMember && r.fileobj.HasUnused() ==> r.inflater.Some? && r.codec.end(r.inflater.value.fed).Some?
    ensures r.Bound()
  {
  }

  lemma BoundIs(r: GzipReader)
    requires r.fileobj.Valid()
    ensures r.Bound() <==>
              Foretold(r.codec, r.fileobj.data, r.newMember, r.fileobj.Position(), r.Fed(), r.produced)
    ensures r.Fed() == if r.inflater.Some? then r.inflater.value.fed else []
  {
  }

  lemma WholeIs(r: GzipReader)
    requires Lawful(r.codec)
    ensures r.Whole() == Verdict(r.codec, r.fileobj.data, 0)
  {
  }

  /**
   The result of reading on inside a member at `p`, of which `fed` came before: an early end is
   refused, and so is a wrong trailer; otherwise there was more.
   */
  ghost predicate FoundInBody(c: Codec, data: seq<Byte>, p: nat, fed: seq<Byte>, size: nat, r: Result<bool, Error>)
    requires Lawful(c) && p <= |data|
  {
    var q := Min(p + size, |data|);
    var u := UnusedAfter(c, fed + data[p..q]);
    && (p == |data| ==> r == Err(EofError))
    && (p < |data| && u == [] ==> r == Ok(true))
    && (p < |data| && u != [] ==>
          && |u| <= q
          && r == match TrailerCheck(data, q - |u|, c.crc(c.output(fed + data[p..q]), 0), |c.output(fed + data[p..q])|)
                  case Err(e) => Err(e)
                  case Ok(_) => Ok(true))
  }

  lemma FoundIs(c: Codec, data: seq<Byte>, p: nat, fed: seq<Byte>, size: nat)
    requires Lawful(c) && p <= |data|
    ensures var q := Min(p + size, |data|);
            var fed' := fed + data[p..q];
            var u := UnusedAfter(c, fed');
            && (p == |data| ==> FoundInBody(c, data, p, fed, size, Err(EofError)))
            && (p < |data| && u == [] ==> FoundInBody(c, data, p, fed, size, Ok(true)))
            && (p < |data| && u != [] && |u| <= q ==>
                  match TrailerCheck(data, q - |u|, c.crc(c.output(fed'), 0), |c.output(fed')|)
                  case Err(e) => FoundInBody(c, data, p, fed, size, Err(e))
                  case Ok(_) => FoundInBody(c, data, p, fed, size, Ok(true)))
    ensures Min(p + size, |data|) == p + Min(size, |data| - p)
  {
    hide UnusedAfter, TrailerCheck, Lawful;
  }

  lemma TracksPrefix(r: GzipReader)
    requires Lawful(r.codec) && r.fileobj.Valid() && r.Tracks()
    ensures r.produced <= r.Total()
  {
    hide Follows;
    FollowsPrefix(r.codec, r.members, r.fileobj.data, r.k, r.newMember, r.fileobj.Position(), r.Fed(), r.produced);
  }

  lemma FollowsFile(c: Codec, ms: seq<Member>, data: seq<Byte>, k: nat, newMember: bool, p: nat,
      fed: seq<Byte>, produced: seq<Byte>)
    requires Follows(c, ms, data, k, newMember, p, fed, produced)
    ensures ValidMembers(c, ms) && data == FileBytes(c, ms)
  {
  }

  // ----- Lines

  /** `s.find(b'\n', from)` */
  function Find(s: seq<Byte>, from: nat): (i: int)
    requires from <= |s|
    ensures i == -1 || from <= i < |s|
    decreases |s| - from
  {
    if from == |s| then -1 else if s[from] == NEWLINE then from else Find(s, from + 1)
  }

  /** Where the line that starts at `o` ends: past its newline, or at the end of the content. */
  function LineEnd(total: seq<Byte>, o: nat): (e: nat)
    requires o <= |total|
    ensures o <= e <= |total|
    decreases |total| - o
  {
    if o == |total| then o else if total[o] == NEWLINE then o + 1 else LineEnd(total, o + 1)
  }

  /** The line that starts at `o`, cut off after the largest size there can be. */
  predicate IsLine(total: seq<Byte>, o: int, end: int) {
    0 <= o <= |total| && (end == LineEnd(total, o) || end == o + MAX_SIZE < LineEnd(total, o))
  }

  /** A line: no newline before its last byte; it ends with one, with the content or at the largest size. */
  lemma LineMeans(total: seq<Byte>, o: nat, end: int)
    requires o <= |total|
    ensures IsLine(total, o, end) <==>
            && o <= end <= |total| && (forall i :: o <= i < end - 1 ==> total[i] != 10)
            && (end == |total| || end == o + 0x7fff_ffff_ffff_ffff || (end > o && total[end - 1] == 10))
  {
    LineEndMeans(total, o);
  }

  lemma {:induction false} LineEndMeans(total: seq<Byte>, o: nat)
    requires o <= |total|
    ensures var e := LineEnd(total, o);
            && (forall i :: o <= i < e - 1 ==> total[i] != 10)
            && (e == |total| || total[e - 1] == 10) && (e == o ==> o == |total|)
    decreases |total| - o
  {
    if o < |total| && total[o] != NEWLINE {
      LineEndMeans(total, o + 1);
    }
  }

  /** The line is as long as a size allows if and only if the size does not cut it. */
  lemma LineWithinSize(total: seq<Byte>, o: nat, end: int, size: int)
    requires IsLine(total, o, end) && size < MAX_SIZE
    ensures end - o <= size <==> LineEnd(total, o) <= o + size
    ensures size >= 0 ==> (end == Min(LineEnd(total, o), o + size) <==> LineEnd(total, o) <= o + size)
  {
  }

  /** `ab` and a newline: all three bytes, also if two are asked for. */
  lemma LineBeyondSize(end: int)
    requires IsLine([97, 98, 10], 0, end)
    ensures end == 3
  {
    var total: seq<Byte> := [97, 98, 10];
    assert LineEnd(total, 2) == 3;
    assert LineEnd(total, 1) == LineEnd(total, 2);
  }

  ghost predicate NoNewline(s: seq<Byte>, o: int, e: int) {
    0 <= o <= e <= |s| && forall i :: o <= i < e ==> s[i] != NEWLINE
  }

  lemma {:induction false} FindIs(s: seq<Byte>, from: nat)
    requires from <= |s|
    ensures var i := Find(s, from);
            if i == -1 then NoNewline(s, from, |s|) else NoNewline(s, from, i) && s[i] == NEWLINE
    decreases |s| - from
  {
    if from < |s| && s[from] != NEWLINE {
      FindIs(s, from + 1);
    }
  }

  lemma {:induction false} LineEndIs(s: seq<Byte>, o: nat, e: nat)
    requires NoNewline(s, o, e)
    ensures LineEnd(s, o) == LineEnd(s, e)
    decreases e - o
  {
    if o < e {
      LineEndIs(s, o + 1, e);
    }
  }

  /** A newline in the buffer ends the line. */
  lemma ShortLine(produced: seq<Byte>, extrastart: nat, start: nat)
    requires extrastart + start <= |produced|
    ensures var s := produced[extrastart..];
            start <= |s| &&
            (Find(s, start) >= 0 ==>
               var e := extrastart + Find(s, start) + 1;
               e <= |produced| && NoNewline(produced, extrastart + start, e - 1) && produced[e - 1] == NEWLINE)
  {
    hide Find;
    FindIs(produced[extrastart..], start);
    assert forall i :: extrastart <= i < |produced| ==> produced[i] == produced[extrastart..][i - extrastart];
  }

  /** What `readline` gives of any file: up to a newline, or all that is left, or as much as there may be. */
  ghost predicate LineRead(produced: seq<Byte>, o: int, end: int, whole: Outcome) {
    && 0 <= o <= end <= |produced| && (forall i :: o <= i < end - 1 ==> produced[i] != 10)
    && ((o < end && produced[end - 1] == 10) || end == o + 0x7fff_ffff_ffff_ffff ||
        (end == |produced| && whole == Ok(produced)))
  }

  lemma LineEnded(produced: seq<Byte>, o: int, end: int, whole: Outcome)
    requires 0 <= o < end <= |produced| && NoNewline(produced, o, end - 1) && produced[end - 1] == NEWLINE
    ensures LineRead(produced, o, end, whole)
  {
  }

  lemma LineCut(produced: seq<Byte>, o: int, end: int, whole: Outcome)
    requires NoNewline(produced, o, end)
    requires end == o + MAX_SIZE || (end == |produced| && whole == Ok(produced))
    ensures LineRead(produced, o, end, whole)
  {
  }

  /** A line that ends in what has been decompressed ends there in the content. */
  lemma LineIn(produced: seq<Byte>, total: seq<Byte>, o: nat, e: nat)
    requires produced <= total && o < e <= |produced| && NoNewline(produced, o, e - 1) && produced[e - 1] == NEWLINE
    ensures IsLine(total, o, e)
  {
    hide MAX_SIZE;
    NoNewlineGrows(produced, total, o, e - 1);
    LineEndIs(total, o, e - 1);
  }

  lemma LineStarts(produced: seq<Byte>, o: int)
    requires 0 <= o <= |produced|
    ensures NoNewline(produced, o, o) && Concat([]) == produced[o..o] && MAX_SIZE > 512
  {
  }

  lemma NoNewlineGrows(before: seq<Byte>, produced: seq<Byte>, o: int, q: int)
    requires before <= produced && NoNewline(before, o, q)
    ensures 0 <= o <= q <= |produced| && NoNewline(produced, o, q) && before[o..q] == produced[o..q]
  {
    assert produced[..|before|] == before;
  }

  lemma NoNewlineJoin(produced: seq<Byte>, o: int, q: int, c: seq<Byte>, n: nat)
    requires NoNewline(produced, o, q) && q + |c| <= |produced| && c == produced[q..q + |c|] && NoNewline(c, 0, n)
    ensures NoNewline(produced, o, q + n) && produced[o..q] + c[..n] == produced[o..q + n]
    ensures n < |c| ==> produced[q + n] == c[n] && produced[o..q] + c[..n + 1] == produced[o..q + n + 1]
  {
    forall i | o <= i < q + n
      ensures produced[i] != NEWLINE
    {
      if i >= q {
        assert produced[i] == c[i - q];
      }
    }
    SliceOfSlice(produced, q, q + |c|, 0, n);
    assert c[..n] == produced[q..q + n];
    if n < |c| {
      SliceOfSlice(produced, q, q + |c|, 0, n + 1);
      assert c[..n + 1] == produced[q..q + n + 1];
    }
  }

  /** Where to end a line that would get longer than `size`. */
  function CutOff(i: int, n: nat, size: int): int {
    if size <= i || (i == -1 && n > size) then size - 1 else i
  }

  /** No more is read at a time than may be added to the line. */
  lemma CutOffIs(c: seq<Byte>, size: int)
    requires |c| <= size
    ensures CutOff(Find(c, 0), |c|, size) == Find(c, 0)
  {
  }

  /** The bytes `c` stand at `q` in what has been decompressed. */
  ghost predicate PartAt(produced: seq<Byte>, q: int, c: seq<Byte>) {
    0 <= q && q + |c| <= |produced| && c == produced[q..q + |c|]
  }

  lemma PartIs(produced: seq<Byte>, q: int, c: seq<Byte>)
    requires PartAt(produced, q, c)
    ensures 0 <= q && q + |c| <= |produced| && c == produced[q..q + |c|]
  {
  }

  lemma PartRead(before: seq<Byte>, produced: seq<Byte>, o: int, q: int, end: int, c: seq<Byte>)
    requires Took(before, produced, q, end, c) && NoNewline(before, o, q)
    ensures before <= produced && end == q + |c| && PartAt(produced, q, c) && NoNewline(produced, o, q)
  {
    hide NoNewline;
    NoNewlineGrows(before, produced, o, q);
  }

  /** A part of a line without a newline. */
  lemma LineGoesOn(produced: seq<Byte>, o: int, q: int, c: seq<Byte>)
    requires NoNewline(produced, o, q) && PartAt(produced, q, c)
    ensures Find(c, 0) == -1 ==> NoNewline(produced, o, q + |c|)
  {
    hide Find, NoNewline;
    FindIs(c, 0);
    if Find(c, 0) == -1 {
      NoNewlineJoin(produced, o, q, c, |c|);
    }
  }

  /** A part of a line with its newline in it, or with nothing in it. */
  lemma LineOver(was: seq<Byte>, produced: seq<Byte>, o: int, q: int, c: seq<Byte>, i: int)
    requires was <= produced && NoNewline(produced, o, q) && PartAt(produced, q, c)
    requires i == Find(c, 0) && (i >= 0 || c == [])
    ensures -1 <= i && i + 1 <= |c| && Took(was, produced, q, q + i + 1, c[..i + 1])
    ensures i == -1 ==> c == []
    ensures i >= 0 ==> 0 <= o <= q + i < |produced| && NoNewline(produced, o, q + i) && produced[q + i] == NEWLINE
  {
    hide *;
    PartIs(produced, q, c);
    FindIs(c, 0);
    NoNewlineIs(c, 0, i);
    NoNewlineIs(produced, o, q);
    SliceOfSlice(produced, q, q + |c|, 0, i + 1);
    TookIs(was, produced, q, i + 1);
    if i >= 0 {
      NoNewlineJoin(produced, o, q, c, i);
    }
  }

  lemma NoNewlineIs(s: seq<Byte>, o: int, e: int)
    ensures NoNewline(s, o, e) ==> 0 <= o <= e <= |s|
  {
  }

  /** The parts of a line, put together. */
  lemma PartsAppend(bufs: seq<seq<Byte>>, before: seq<Byte>, produced: seq<Byte>, o: int, q: int, end: int,
      more: seq<Byte>)
    requires 0 <= o <= q <= |before| && Concat(bufs) == before[o..q] && Took(before, produced, q, end, more)
    ensures before <= produced && q <= end <= |produced|
    ensures end == q + |more| && Concat(bufs + [more]) == produced[o..end]
  {
    hide Concat;
    ConcatAppend(bufs, more);
    assert produced[..|before|] == before;
    assert before[o..q] == produced[o..q];
    assert produced[o..q] + produced[q..end] == produced[o..end];
  }

  /** The line is over: with a newline, or because nothing is left. */
  lemma LineFound(produced: seq<Byte>, total: seq<Byte>, o: int, q: int, c: seq<Byte>, n: nat, i: int)
    requires produced <= total && NoNewline(produced, o, q) && PartAt(produced, q, c) && n > 0
    requires 0 <= q <= |total| && c == Next(total, q, n)
    requires if i >= 0 then i < |c| && NoNewline(produced, o, q + i) && produced[q + i] == NEWLINE
             else i == -1 && c == []
    ensures IsLine(total, o, q + i + 1)
  {
    hide MAX_SIZE;
    if i >= 0 {
      LineIn(produced, total, o, q + i + 1);
    } else {
      assert q == |total|;
      NoNewlineGrows(produced, total, o, q);
      LineEndIs(total, o, q);
    }
  }

  /** A line without a newline in the first `MAX_SIZE` bytes. */
  lemma LineTooLong(produced: seq<Byte>, total: seq<Byte>, o: int, e: int)
    requires produced <= total && NoNewline(produced, o, e) && e == o + MAX_SIZE
    ensures IsLine(total, o, e)
  {
    hide MAX_SIZE;
    NoNewlineGrows(produced, total, o, e);
    LineEndIs(total, o, e);
  }

  // ----- Seeking

  /** Where a seek ends up. */
  function SeekEnd(total: nat, target: int): nat {
    Min(if target >= 0 then target else target % 1024, total)
  }

  /**
   It is the target, cut to the content, if and only if the target is not negative or nothing is left
   of it modulo 1024.
   */
  lemma SeeksTarget(total: nat, target: int)
    ensures SeekEnd(total, target) == (if target < 0 then 0 else if target > total then total else target) <==>
            target >= 0 || target % 1024 == 0 || total == 0
  {
  }

  /** A target before the start is counted in blocks of 1024 bytes, and what is left of it from the start. */
  lemma SeekBeforeStart(total: nat, back: nat, blocks: nat)
    requires 0 < back <= 1024
    ensures SeekEnd(total, -(back as int) - 1024 * blocks) == if total < 1024 - back then total else 1024 - back
  {
  }

  lemma MinIs(a: nat, b: nat)
    ensures a <= b ==> Min(a + 1024 * 0, b) == a
  {
  }

  lemma SkippedTo(total: seq<Byte>, from: nat, q: nat, n: nat)
    ensures q == Min(from, |total|) ==> q <= |total| && q + |Next(total, q, n)| == Min(from + n, |total|)
  {
  }

  /** A reader that was to go to `target` is there, or at the end of the content. */
  ghost predicate Sought(produced: seq<Byte>, target: int, offset: int, whole: Outcome) {
    0 <= offset <= |produced| &&
    (offset == target || (offset < target && offset == |produced| && whole == Ok(produced)))
  }

  lemma SoughtIs(produced: seq<Byte>, target: int, offset: int, whole: Outcome)
    requires 0 <= offset <= |produced| && offset == target
    ensures Sought(produced, target, offset, whole)
  {
  }

  lemma SoughtOn(before: seq<Byte>, target: int, q: int, whole: Outcome, produced: seq<Byte>, n: nat, offset: int)
    requires Sought(before, target, q, whole) && before <= produced && q <= offset <= |produced| && offset - q <= n
    requires offset - q < n ==> whole == Ok(produced) && offset == |produced|
    requires whole.Ok? ==> produced <= whole.value
    ensures Sought(produced, target + n, offset, whole)
  {
    if whole == Ok(before) {
      assert produced == before;
    }
  }

  /** What was given out is part of the content, if there is one. */
  lemma WholePrefix(r: GzipReader)
    requires r.Valid()
    ensures Lawful(r.codec) && (r.Whole().Ok? ==> r.produced <= r.Whole().value)
  {
    hide *;
    ValidParts(r);
    BoundIs(r);
    WholeIs(r);
    if r.Whole().Ok? {
      ForetoldPrefix(r.codec, r.fileobj.data, r.newMember, r.fileobj.Position(), r.Fed(), r.produced);
    }
  }

  lemma SeekEndIs(total: nat, target: int, base: nat)
    requires base <= target || base == 0
    ensures var count := target - base;
            var times := if count < 0 then 0 else count / 1024;
            && Min(base + 1024 * times + count % 1024, total) == SeekEnd(total, target)
            && base + 1024 * times + count % 1024 == if target < 0 then target % 1024 else target
  {
  }

  lemma TookParts(was: seq<Byte>, produced: seq<Byte>, o: int, end: int, chunk: seq<Byte>)
    requires Took(was, produced, o, end, chunk)
    ensures was <= produced && 0 <= o <= end <= |produced| && chunk == produced[o..end] && end == o + |chunk|
  {
  }

  lemma ChunkSize(n: nat)
    ensures Min(MAX_READ_CHUNK, n) > 0 || n == 0
  {
  }

  /** A call gave out the bytes from `o` to `end` of what has been decompressed, which only grew. */
  ghost predicate Took(was: seq<Byte>, produced: seq<Byte>, o: int, end: int, chunk: seq<Byte>) {
    was <= produced && 0 <= o <= end <= |produced| && chunk == produced[o..end]
  }

  lemma PeekIs(produced: seq<Byte>, extrastart: nat, start: nat, n: nat)
    requires extrastart + start <= |produced|
    ensures var end := Min(start + n, |produced| - extrastart);
            && start <= end <= |produced| - extrastart && end - start <= n &&
              produced[extrastart..][start..end] == produced[extrastart + start..extrastart + end]
            && (end == start ==> n == 0 || extrastart + start == |produced|)
  {
  }

  lemma TookIs(was: seq<Byte>, produced: seq<Byte>, o: nat, n: nat)
    requires was <= produced && o + n <= |produced|
    ensures Took(was, produced, o, o + n, produced[o..o + n])
  {
  }

  /** The next `n` bytes from `o`, or all that is left of them. */
  function Next(total: seq<Byte>, o: nat, n: int): seq<Byte>
    requires o <= |total|
  {
    if n < 0 || |total| - o < n then total[o..] else total[o..o + n]
  }

  lemma NextIs(produced: seq<Byte>, total: seq<Byte>, o: nat, want: nat, n: int)
    requires produced <= total && o + want <= |produced|
    requires want == n || (produced == total && o + want == |total| && (n < 0 || want < n))
    ensures o <= |total| && produced[o..o + want] == Next(total, o, n)
  {
  }

  lemma FedIs(r: GzipReader)
    ensures r.Fed() == if r.inflater.Some? then r.inflater.value.fed else []
  {
  }

  lemma ValidIs(r: GzipReader)
    requires Lawful(r.codec) && r.fileobj.Valid() && r.Buffered() && 1 <= r.minReadsize <= 512
    ensures r.Valid() <==>
            && (!r.newMember ==> r.InMember())
            && (r.newMember && r.fileobj.HasUnused() ==> r.inflater.Some? && r.codec.end(r.inflater.value.fed).Some?)
            && r.Bound()
  {
  }

  lemma BufferedIs(r: GzipReader)
    ensures r.Buffered() <==>
            && 0 <= r.extrastart <= r.offset <= |r.produced| && r.extrabuf == r.produced[r.extrastart..]
            && r.extrasize == |r.produced| - r.offset == |r.extrabuf| - (r.offset - r.extrastart)
  {
  }

  lemma InMemberIs(r: GzipReader)
    requires Lawful(r.codec)
    ensures r.InMember() <==>
            && r.inflater.Some? && r.inflater.value.unusedData == [] == UnusedAfter(r.codec, r.inflater.value.fed)
            && r.crc == r.codec.crc(r.codec.output(r.inflater.value.fed), 0)
            && r.size == |r.codec.output(r.inflater.value.fed)|
  {
  }

  lemma FreshInflater(c: Codec)
    requires Lawful(c)
    ensures UnusedAfter(c, []) == [] && c.output([]) == [] && c.crc([], 0) == 0
  {
  }

  lemma ReturnLess(f: PaddedFile, m: nat, n: nat)
    requires f.CanReturn(m) && n <= m
    ensures f.CanReturn(n)
  {
  }

  lemma ReadLast(data: seq<Byte>, p: nat, q: nat, n: nat)
    requires p <= q <= |data|
    ensures n <= q - p ==> data[p..q][q - p - n..] == data[q - n..q]
  {
    if n <= q - p {
      SliceOfSlice(data, p, q, q - p - n, q - p);
    }
  }

  lemma LeastBounds(a: nat, b: nat)
    ensures Min(a, b) <= a && Min(a, b) <= b
    ensures Min(a, b) == 0 ==> a == 0 || b == 0
  {
  }

  lemma ReaderIsValid(r: GzipReader)
    requires Lawful(r.codec) && r.fileobj.Valid() && r.newMember && r.inflater == None && 1 <= r.minReadsize <= 512
    requires !r.fileobj.HasUnused() && r.Bound()
    requires r.extrabuf == [] && r.produced == [] && r.extrasize == r.extrastart == r.offset == 0
    ensures r.Valid()
  {
  }

  lemma TracksIs(r: GzipReader)
    requires r.fileobj.Valid()
    ensures r.Tracks() <==>
              Follows(r.codec, r.members, r.fileobj.data, r.k, r.newMember, r.fileobj.Position(), r.Fed(), r.produced)
    ensures r.Fed() == if r.inflater.Some? then r.inflater.value.fed else []
    ensures r.Total() == Content(r.codec, r.members)
  {
  }

  lemma SkipBuffered(produced: seq<Byte>, extrastart: nat, start: nat, data: seq<Byte>)
    requires extrastart + start <= |produced|
    ensures produced[extrastart..][start..] + data == (produced + data)[extrastart + start..]
  {
  }

  lemma PastZerosStep(data: seq<Byte>, p: nat)
    requires p <= |data|
    ensures Min(1, |data| - p) == if p == |data| then 0 else 1
    ensures p == |data| ==> PastZeros(data, p) == p
    ensures p < |data| ==>
              data[p..p + 1] == [data[p]] && PastZeros(data, p) == if data[p] == 0 then PastZeros(data, p + 1) else p
  {
  }

  lemma TrailerCheckIs(data: seq<Byte>, p: nat, crc: nat, size: nat)
    requires p <= |data|
    ensures |data| < p + 8 ==> TrailerCheck(data, p, crc, size) == Err(EofError)
    ensures p + 8 <= |data| ==>
              TrailerCheck(data, p, crc, size) ==
              if FromLe(data[p..p + 4]) != crc then Err(CrcFailed)
              else if FromLe(data[p + 4..p + 8]) != size % WORD then Err(BadLength)
              else Ok(())
  {
  }

  lemma ExtraEndIs(data: seq<Byte>, p: nat)
    requires p <= |data|
    ensures |data| < p + 2 ==> ExtraEnd(data, p) == Err(EofError)
    ensures p + 2 <= |data| ==>
              ExtraEnd(data, p) ==
                if |data| < p + 2 + FromLe(data[p..p + 2]) then Err(EofError) else Ok(p + 2 + FromLe(data[p..p + 2]))
  {
  }
}
