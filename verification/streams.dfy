/**
 * The byte sources the connection manager reads from: a `DataInputStream`
 * over a socket's input, and the `FileInputStream` an audio file is copied
 * from. Both may return fewer bytes than asked for on any read.
 */
module Streams {
  import opened Wire
  import opened Protocol

  /** Outcome of one `read(buffer, 0, n)`: some bytes, -1, or an IOException. */
  datatype ReadResult = Got(chunk: Bytes) | Eof | Failed

  /**
   * A `DataInputStream` over a socket: the bytes the peer sends, how the
   * stream ends once they are used up, and how far reading has got.
   */
  class DataInput {
    const bytes: Bytes
    const end: StreamEnd
    var pos: nat

    ghost predicate Valid()
      reads this
    {
      pos <= |bytes|
    }

    /** The bytes not yet read. */
    function Remaining(): Bytes
      reads this
      requires Valid()
    {
      bytes[pos..]
    }

    constructor (bytes: Bytes, end: StreamEnd)
      ensures Valid() && this.bytes == bytes && this.end == end && pos == 0
    {
      this.bytes := bytes;
      this.end := end;
      pos := 0;
    }

    /** `readFully` of `n` bytes; `None` stands for the EOFException (or IOException) when fewer remain. */
    method ReadFully(n: nat) returns (r: Option<Bytes>)
      requires Valid()
      modifies this
      ensures Valid() && old(pos) <= pos
      ensures n <= |old(Remaining())| ==> r == Some(old(Remaining())[..n]) && pos == old(pos) + n
      ensures n > |old(Remaining())| ==> r == None
    {
      if pos + n <= |bytes| {
        assert bytes[pos..][..n] == bytes[pos..pos + n];
        r := Some(bytes[pos..pos + n]);
        pos := pos + n;
      } else {
        r := None;
        pos := |bytes|;
      }
    }

    /** `readUTF`: a 2-byte length, then that many bytes. */
    method ReadUtf() returns (r: Option<Bytes>)
      requires Valid()
      modifies this
      ensures Valid() && old(pos) <= pos
      ensures r == ParseUtf(old(Remaining()))
      ensures r.Some? ==> pos == old(pos) + 2 + |r.value|
    {
      ghost var rest := Remaining();
      var prefix := ReadFully(2);
      if prefix.None? {
        return None;
      }
      var n := U16(prefix.value[0], prefix.value[1]);
      assert Remaining() == rest[2..];
      var body := ReadFully(n);
      if body.None? {
        return None;
      }
      assert rest[2..][..n] == rest[2..2 + n];
      r := body;
    }

    /** `readLong`: 8 bytes, big-endian, two's complement. */
    method ReadLong() returns (r: Option<int>)
      requires Valid()
      modifies this
      ensures Valid() && old(pos) <= pos
      ensures r == ParseLong(old(Remaining()))
      ensures r.Some? ==> pos == old(pos) + 8
    {
      var raw := ReadFully(8);
      if raw.None? {
        return None;
      }
      var u := FromBigEndian(raw.value);
      r := Some(if u >= TWO_63 then u - TWO_64 else u);
    }

    /**
     * `read(buffer, 0, n)`: blocks until at least one byte is there, then
     * returns any number of them up to `n`; at the end of the bytes it returns
     * -1 or throws, as the stream ends.
     */
    method Read(n: nat) returns (r: ReadResult)
      requires Valid() && 0 < n <= BUFFER_SIZE
      modifies this
      ensures Valid()
      ensures r.Got? ==> 0 < |r.chunk| <= n && pos == old(pos) + |r.chunk|
                         && r.chunk == old(Remaining())[..|r.chunk|]
      ensures r.Eof? ==> old(Remaining()) == [] && end == EndOfStream && pos == old(pos)
      ensures r.Failed? ==> old(Remaining()) == [] && end == Broken && pos == old(pos)
      ensures old(Remaining()) != [] ==> r.Got?
    {
      if pos == |bytes| {
        r := if end == EndOfStream then Eof else Failed;
      } else {
        var k: nat :| 0 < k <= n && pos + k <= |bytes|;
        assert bytes[pos..][..k] == bytes[pos..pos + k];
        r := Got(bytes[pos..pos + k]);
        pos := pos + k;
      }
    }
  }

  /**
   * The copy loop of `sendAudioFile`: read the file into a 4096-byte buffer
   * until `read` returns -1, writing each chunk as it comes. The chunks are
   * what is written, in order.
   */
  method CopyFile(content: Bytes) returns (chunks: seq<Bytes>)
    ensures Flatten(chunks) == content
    ensures forall i :: 0 <= i < |chunks| ==> 0 < |chunks[i]| <= BUFFER_SIZE
  {
    chunks := [];
    var offset := 0;
    while offset < |content|
      invariant offset <= |content|
      invariant Flatten(chunks) == content[..offset]
      invariant forall i :: 0 <= i < |chunks| ==> 0 < |chunks[i]| <= BUFFER_SIZE
    {
      var n: nat :| 0 < n <= BUFFER_SIZE && offset + n <= |content|;
      var chunk := content[offset..offset + n];
      assert (chunks + [chunk])[..|chunks|] == chunks;
      assert content[..offset + n] == content[..offset] + chunk;
      chunks := chunks + [chunk];
      offset := offset + n;
    }
    assert content[..offset] == content;
  }
}
