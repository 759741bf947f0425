/** Runs of calls on a gzip reader: what each may answer, and what all of them together give out. */
module GzipSessions {
  import opened Wrappers
  import opened GzipFormat
  import opened GzipReading
  import opened GzipVerdict
  import opened GzipWellFormed

  datatype Call = Read(n: int) | Read1(n: int) | Peek(n: int) | ReadLine(n: int) | Seek(offset: int, whence: int)

  datatype Reply = Bytes(bytes: seq<Byte>) | At(position: int) | Refused

  /** What a call may answer at `o`, and where it leaves the reader, whatever happened to be buffered. */
  ghost predicate Answers(total: seq<Byte>, o: int, call: Call, reply: Reply, end: int) {
    && 0 <= o <= |total| && 0 <= end <= |total|
    && match call
       case Read(n) => reply == Bytes(Next(total, o, n)) && end == o + |reply.bytes|
       case Read1(n) =>
         && o <= end && reply == Bytes(total[o..end]) && (n >= 0 ==> end - o <= n)
         && (o == end ==> n == 0 || o == |total|)
       case Peek(n) =>
         && end == o && reply.Bytes? && o + |reply.bytes| <= |total| && reply.bytes == total[o..o + |reply.bytes|]
         && (reply.bytes == [] ==> o == |total|) && |reply.bytes| <= if n < 100 then 100 else n
       case ReadLine(n) => o <= end && reply == Bytes(total[o..end]) && IsLine(total, o, end)
       case Seek(offset, whence) =>
         if whence in {0, 1} then end == SeekEnd(|total|, if whence == 1 then o + offset else offset) &&
           reply == At(end)
         else end == o && reply == Refused
  }

  lemma TookAll(total: seq<Byte>, was: seq<Byte>, produced: seq<Byte>, o: int, end: int, chunk: seq<Byte>)
    requires produced <= total && Took(was, produced, o, end, chunk)
    ensures 0 <= o <= end <= |total| && chunk == total[o..end] && end == o + |chunk|
  {
  }

  /** One call on a reader of a well-formed file. */
  method Perform(reader: GzipReader, call: Call) returns (reply: Reply)
    requires reader.Valid() && reader.Tracks()
    modifies reader, reader.fileobj
    ensures reader.fileobj.Valid() && reader.Valid() && reader.Tracks()
    ensures Answers(reader.Total(), old(reader.offset), call, reply, reader.offset)
  {
    hide *;
    ValidParts(reader);
    BufferedIs(reader);
    TracksPrefix(reader);
    ghost var o, was, total := reader.offset, reader.produced, reader.Total();
    match call {
      case Read(n) =>
        var r := reader.Read(n);
        reply := Bytes(r.value);
      case Read1(n) =>
        var r := reader.Read1(n);
        reply := Bytes(r.value);
      case Peek(n) =>
        var r := reader.Peek(n);
        reply := Bytes(r.value);
      case ReadLine(n) =>
        var r := reader.ReadLine(n);
        reply := Bytes(r.value);
      case Seek(offset, whence) =>
        var r := reader.Seek(offset, whence);
        reply := if r.Ok? then At(r.value) else Refused;
    }
    ValidParts(reader);
    BufferedIs(reader);
    TracksPrefix(reader);
    AnswersIs(total, o, call, reply, reader.offset, was, reader.produced);
  }

  lemma AnswersIs(total: seq<Byte>, o: int, call: Call, reply: Reply, end: int, was: seq<Byte>, produced: seq<Byte>)
    requires 0 <= o <= |total| && 0 <= end <= |total| && produced <= total
    requires match call
             case Read(n) => reply == Bytes(Next(total, o, n)) && Took(was, produced, o, end, reply.bytes)
             case Read1(n) =>
               && reply.Bytes? && Took(was, produced, o, end, reply.bytes)
               && (n >= 0 ==> |reply.bytes| <= n) && (reply.bytes == [] ==> n == 0 || end == |total|)
             case Peek(n) =>
               && reply.Bytes? && Took(was, produced, o, o + |reply.bytes|, reply.bytes) && end == o
               && (reply.bytes == [] ==> end == |total|) && |reply.bytes| <= if n < 100 then 100 else n
             case ReadLine(n) => reply.Bytes? && Took(was, produced, o, end, reply.bytes) && IsLine(total, o, end)
             case Seek(offset, whence) =>
               if whence in {0, 1} then
                 end == SeekEnd(|total|, if whence == 1 then o + offset else offset) && reply == At(end)
               else reply == Refused && end == o
    ensures Answers(total, o, call, reply, end)
  {
    hide SeekEnd, IsLine, Next, Took;
    if call.Peek? {
      TookAll(total, was, produced, o, o + |reply.bytes|, reply.bytes);
    } else if !call.Seek? {
      TookAll(total, was, produced, o, end, reply.bytes);
    }
  }

  /** A run of calls that starts at `o` and ends at `end`. */
  ghost predicate Session(total: seq<Byte>, o: int, calls: seq<Call>, replies: seq<Reply>, end: int) {
    && |calls| == |replies|
    && if calls == [] then 0 <= o == end <= |total|
       else
         var n := |calls| - 1;
         exists m :: Session(total, o, calls[..n], replies[..n], m) && Answers(total, m, calls[n], replies[n], end)
  }

  lemma SessionGrows(total: seq<Byte>, o: int, calls: seq<Call>, replies: seq<Reply>, m: int, call: Call,
      reply: Reply, end: int)
    requires Session(total, o, calls, replies, m) && Answers(total, m, call, reply, end)
    ensures Session(total, o, calls + [call], replies + [reply], end)
  {
    assert (calls + [call])[..|calls|] == calls && (replies + [reply])[..|calls|] == replies;
  }

  /** Any run of calls on a reader of a well-formed file. */
  method RunSession(reader: GzipReader, calls: seq<Call>) returns (replies: seq<Reply>)
    requires reader.Valid() && reader.Tracks()
    modifies reader, reader.fileobj
    ensures reader.Valid() && Session(reader.Total(), old(reader.offset), calls, replies, reader.offset)
  {
    hide *;
    ValidParts(reader);
    BufferedIs(reader);
    TracksPrefix(reader);
    replies := [];
    NoCalls(reader.Total(), reader.offset);
    assert calls[..0] == [];
    for i := 0 to |calls|
      invariant reader.fileobj.Valid() && reader.Valid() && reader.Tracks()
      invariant Session(reader.Total(), old(reader.offset), calls[..i], replies, reader.offset)
    {
      ghost var m := reader.offset;
      var reply := Perform(reader, calls[i]);
      SessionGrows(reader.Total(), old(reader.offset), calls[..i], replies, m, calls[i], reply, reader.offset);
      assert calls[..i + 1] == calls[..i] + [calls[i]];
      replies := replies + [reply];
    }
    assert calls[..|calls|] == calls;
  }

  lemma NoCalls(total: seq<Byte>, o: int)
    requires 0 <= o <= |total|
    ensures Session(total, o, [], [], o)
  {
  }

  /** The bytes that the calls gave out and moved past. */
  function Consumed(calls: seq<Call>, replies: seq<Reply>): seq<Byte> {
    if calls == [] || |replies| != |calls| then []
    else
      var n := |calls| - 1;
      Consumed(calls[..n], replies[..n]) + if calls[n].Peek? || !replies[n].Bytes? then [] else replies[n].bytes
  }

  /** Whatever calls are mixed, without seeking they give out the content in order, no byte lost and none twice. */
  lemma {:induction false} SessionReadsInOrder(total: seq<Byte>, o: int, calls: seq<Call>,
      replies: seq<Reply>, end: int)
    requires Session(total, o, calls, replies, end) && forall i :: 0 <= i < |calls| ==> !calls[i].Seek?
    ensures 0 <= o <= end <= |total| && Consumed(calls, replies) == total[o..end]
    decreases |calls|
  {
    hide *;
    if calls == [] {
      NothingConsumed(total, o, calls, replies, end);
    } else {
      var n := |calls| - 1;
      var m := LastCall(total, o, calls, replies, end);
      SessionReadsInOrder(total, o, calls[..n], replies[..n], m);
      AnswersInOrder(total, m, calls[n], replies[n], end);
      ConsumedStep(calls, replies);
      assert total[o..m] + total[m..end] == total[o..end];
    }
  }

  lemma NothingConsumed(total: seq<Byte>, o: int, calls: seq<Call>, replies: seq<Reply>, end: int)
    requires Session(total, o, calls, replies, end) && calls == []
    ensures 0 <= o <= end <= |total| && Consumed(calls, replies) == total[o..end]
  {
  }

  lemma LastCall(total: seq<Byte>, o: int, calls: seq<Call>, replies: seq<Reply>, end: int) returns (m: int)
    requires Session(total, o, calls, replies, end) && calls != []
    ensures |calls| == |replies|
    ensures var n := |calls| - 1;
            Session(total, o, calls[..n], replies[..n], m) && Answers(total, m, calls[n], replies[n], end)
  {
    hide Answers;
    var n := |calls| - 1;
    m :| Session(total, o, calls[..n], replies[..n], m) && Answers(total, m, calls[n], replies[n], end);
  }

  lemma ConsumedStep(calls: seq<Call>, replies: seq<Reply>)
    requires |calls| == |replies| > 0
    ensures var n := |calls| - 1;
            Consumed(calls, replies) ==
            Consumed(calls[..n], replies[..n]) + if calls[n].Peek? || !replies[n].Bytes? then [] else replies[n].bytes
  {
  }

  lemma AnswersInOrder(total: seq<Byte>, o: int, call: Call, reply: Reply, end: int)
    requires Answers(total, o, call, reply, end) && !call.Seek?
    ensures 0 <= o <= end <= |total| && reply.Bytes?
    ensures (if call.Peek? then [] else reply.bytes) == total[o..end]
  {
    hide IsLine;
  }

  /** So a run from the start that ends with reading all the rest has given out the whole content. */
  lemma SessionReadsAll(total: seq<Byte>, calls: seq<Call>, replies: seq<Reply>, n: int, end: int)
    requires Session(total, 0, calls + [Read(n)], replies, end) && n < 0
    requires forall i :: 0 <= i < |calls| ==> !calls[i].Seek?
    ensures Consumed(calls + [Read(n)], replies) == total
  {
    hide Consumed;
    SessionReadsInOrder(total, 0, calls + [Read(n)], replies, end);
    var all := calls + [Read(n)];
    var m :| Session(total, 0, all[..|calls|], replies[..|calls|], m) &&
      Answers(total, m, all[|calls|], replies[|calls|], end);
    assert end == |total|;
    assert total[0..|total|] == total;
  }

  // ----- Any file at all

  /** Reading a whole file, well-formed or not: only the bytes of gzip members have a content. */
  method ReadWhole(codec: Codec, data: seq<Byte>) returns (r: Result<seq<Byte>, Error>)
    requires Lawful(codec)
    ensures r.Ok? <==> exists ms :: ValidMembers(codec, ms) && data == FileBytes(codec, ms)
    ensures forall ms :: ValidMembers(codec, ms) && data == FileBytes(codec, ms) ==> r == Ok(Content(codec, ms))
    ensures r == Verdict(codec, data, 0)
    ensures data != [] && !Magic(data, 0) ==> r == Err(NotGzipped)
    ensures r.Err? ==> r.error != NameError
  {
    hide *;
    var reader := new GzipReader(codec, data, []);
    ValidParts(reader);
    BufferedIs(reader);
    WholeIs(reader);
    r := reader.Read(-1);
    WholeIs(reader);
    BufferedIs(reader);
    if r.Ok? {
      TookParts([], reader.produced, 0, reader.offset, r.value);
      assert reader.produced[0..|reader.produced|] == reader.produced;
    }
    VerdictIsContent(codec, data);
    VerdictIs(codec, data, 0);
    HeaderRefusals(data, 0);
  }
}
