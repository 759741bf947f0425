/** The push-back file under the gzip reader: bytes that were read can be put back, to be read again. */
module PaddedFiles {
  import opened Wrappers
  import opened Naturals
  import opened GzipFormat

  /**
   `_PaddedFile` over a file that is read in full, as regular files and byte buffers are:
   `data` is what the file holds and `at` how far it has been read.  `position` is `_read`:
   where in the buffer reading goes on, or nothing once the buffer is used up.
   */
  class PaddedFile {
    const data: seq<Byte>
    var at: nat
    var buffer: seq<Byte>
    var length: nat
    var position: Option<nat>

    /** The buffer holds the last bytes that were read from the file. */
    predicate Valid()
      reads this
    {
      && at <= |data|
      && (position.Some? ==> position.value <= length <= at && buffer == data[at - length..at])
    }

    /** Which byte of the file comes next. */
    function Position(): (p: nat)
      requires Valid()
      reads this
      ensures p <= at <= |data|
    {
      if position.Some? then at - length + position.value else at
    }

    /** Whether the last `n` bytes can be put back. */
    predicate CanReturn(n: nat)
      reads this
    {
      position.Some? ==> n <= position.value
    }

    /** Whether bytes of the buffer are still to be read. */
    predicate HasUnused()
      reads this
    {
      position.Some? && position.value < length
    }

    constructor (data: seq<Byte>)
      ensures Valid() && this.data == data && Position() == 0
      ensures !HasUnused()
    {
      this.data := data;
      at, buffer, length, position := 0, [], 0, Some(0);
    }

    /** `self.file.read` */
    method ReadFile(size: nat) returns (r: seq<Byte>)
      requires at <= |data|
      modifies this`at
      ensures at == old(at) + |r| && |r| == Min(size, |data| - old(at)) && r == data[old(at)..at]
    {
      var end := Min(at + size, |data|);
      r := data[at..end];
      at := end;
    }

    /** The next bytes, once and in order: those of the buffer first, then those of the file. */
    method Read(size: nat) returns (r: seq<Byte>)
      requires Valid()
      modifies this
      ensures Valid() && Position() == old(Position()) + |r| && |r| == Min(size, |data| - old(Position()))
      ensures r == data[old(Position())..Position()]
      ensures CanReturn(|r|) && (HasUnused() ==> old(HasUnused()))
    {
      if position.None? {
        r := ReadFile(size);
        return;
      }
      if position.value + size <= length {
        var read := position.value;
        SliceOfSlice(data, at - length, at, read, read + size);
        position := Some(read + size);
        return buffer[read..read + size];
      }
      var read := position.value;
      position := None;
      var more := ReadFile(size - length + read);
      r := buffer[read..] + more;
    }

    /**
     `prepend(bytes, True)`.  Its last branch names an undefined variable, which raises
     `NameError`; it is for bytes that are not all in the part of the buffer already read.
     */
    method Prepend(bytes: seq<Byte>) returns (r: Result<(), Error>)
      requires Valid()
      requires |bytes| <= Position() && data[Position() - |bytes|..Position()] == bytes
      modifies this
      ensures r == if old(CanReturn(|bytes|)) then Ok(()) else Err(NameError)
      ensures r.Ok? ==> Valid() && Position() == old(Position()) - |bytes|
    {
      if position.None? {
        buffer := bytes;
      } else if |bytes| <= position.value {
        position := Some(position.value - |bytes|);
        return Ok(());
      } else {
        return Err(NameError);
      }
      length := |buffer|;
      position := Some(0);
      return Ok(());
    }

    /** What of the buffer has not been read. */
    method Unused() returns (r: seq<Byte>)
      requires Valid()
      ensures Position() + |r| <= |data| && r == data[Position()..Position() + |r|]
      ensures r == [] <==> !HasUnused()
    {
      if position.None? {
        return [];
      }
      return buffer[position.value..];
    }

    /** `seek(0)`, the only way it is called. */
    method SeekStart()
      modifies this
      ensures Valid() && Position() == 0 && !HasUnused()
    {
      position := None;
      buffer := [];
      at := 0;
    }
  }
}
