/**
 * Byte-level layout of the chat protocol: the `DataOutput.writeUTF` and
 * `DataOutput.writeLong` encodings, their `DataInput` counterparts, and the two
 * frames the connection manager puts on a socket.
 *
 * Strings are modelled as their already-encoded (modified UTF-8) bytes, so a
 * message is a byte sequence and no Unicode appears in the model.
 */
module Wire {

  type byte = b: int | 0 <= b < 256

  type Bytes = seq<byte>

  datatype Option<T> = None | Some(value: T)

  /** Largest encoded length `writeUTF` accepts: the 2-byte length prefix. */
  const MAX_UTF: nat := 65535

  /** Size of the copy buffers on both the sending and the receiving side. */
  const BUFFER_SIZE: nat := 4096

  const TWO_63: int := 0x8000_0000_0000_0000
  const TWO_64: int := 0x1_0000_0000_0000_0000

  /** The frame tags, as ASCII bytes: "TEXT" and "AUDIO_FILE". */
  const TEXT_TAG: Bytes := [84, 69, 88, 84]
  const AUDIO_TAG: Bytes := [65, 85, 68, 73, 79, 95, 70, 73, 76, 69]

  /** `readUnsignedShort` of two bytes. */
  function U16(hi: byte, lo: byte): nat { hi as int * 256 + lo as int }

  function Max0(n: int): nat { if n < 0 then 0 else n }

  function Min(a: int, b: int): int { if a <= b then a else b }

  function Pow256(n: nat): (p: nat)
    ensures p > 0
  {
    if n == 0 then 1 else 256 * Pow256(n - 1)
  }

  /** The `width` low-order bytes of `v`, most significant first. */
  function ToBigEndian(v: nat, width: nat): (r: Bytes)
    ensures |r| == width
  {
    if width == 0 then [] else ToBigEndian(v / 256, width - 1) + [v % 256]
  }

  /** The unsigned value of a big-endian byte sequence. */
  function FromBigEndian(bs: Bytes): nat
  {
    if bs == [] then 0 else FromBigEndian(bs[..|bs| - 1]) * 256 + bs[|bs| - 1]
  }

  lemma {:induction false} FromBigEndianBound(bs: Bytes)
    ensures FromBigEndian(bs) < Pow256(|bs|)
  {
    if bs != [] {
      FromBigEndianBound(bs[..|bs| - 1]);
    }
  }

  lemma {:induction false} BigEndianRoundTrip(v: nat, width: nat)
    requires v < Pow256(width)
    ensures FromBigEndian(ToBigEndian(v, width)) == v
  {
    if width > 0 {
      var r := ToBigEndian(v, width);
      assert r[..|r| - 1] == ToBigEndian(v / 256, width - 1);
      BigEndianRoundTrip(v / 256, width - 1);
    }
  }

  /** `writeShort` of a length: two bytes, big-endian. */
  function Be16(n: nat): (r: Bytes)
    requires n <= MAX_UTF
    ensures |r| == 2 && U16(r[0], r[1]) == n
  {
    [n / 256, n % 256]
  }

  /** `writeUTF` of an already-encoded string: its length in two bytes, then its bytes. */
  function Utf(s: Bytes): (r: Bytes)
    requires |s| <= MAX_UTF
    ensures |r| == 2 + |s| && r[2..] == s
  {
    Be16(|s|) + s
  }

  /**
   * `readUTF` at the start of `rest`: an unsigned 16-bit length, then that many
   * bytes. `None` stands for the EOFException thrown when the stream holds fewer.
   */
  function ParseUtf(rest: Bytes): (r: Option<Bytes>)
    ensures r.Some? ==> 2 + |r.value| <= |rest| && |r.value| <= MAX_UTF
    ensures r.Some? ==> rest[..2 + |r.value|] == Utf(r.value)
  {
    if |rest| < 2 then None
    else
      var n := U16(rest[0], rest[1]);
      if |rest| < 2 + n then None else Some(rest[2..2 + n])
  }

  /** `writeLong`: the 64-bit two's complement of `v`, big-endian. */
  function Be64(v: int): (r: Bytes)
    requires -TWO_63 <= v < TWO_63
    ensures |r| == 8
  {
    ToBigEndian(if v < 0 then v + TWO_64 else v, 8)
  }

  /** `readLong` at the start of `rest`; `None` stands for the EOFException. */
  function ParseLong(rest: Bytes): (r: Option<int>)
    ensures r.Some? ==> |rest| >= 8 && -TWO_63 <= r.value < TWO_63
    ensures |rest| >= 8 ==> r.Some?
  {
    if |rest| < 8 then None
    else
      var u := FromBigEndian(rest[..8]);
      FromBigEndianBound(rest[..8]);
      assert Pow256(8) == TWO_64;
      Some(if u >= TWO_63 then u - TWO_64 else u)
  }

  lemma Pow256Eight()
    ensures Pow256(8) == TWO_64
  {
  }

  /** Reading back what `writeUTF` wrote yields the same string, whatever follows it. */
  lemma UtfRoundTrip(s: Bytes, rest: Bytes)
    requires |s| <= MAX_UTF
    ensures ParseUtf(Utf(s) + rest) == Some(s)
  {
    var w := Utf(s) + rest;
    assert U16(w[0], w[1]) == |s|;
    assert w[2..2 + |s|] == s;
  }

  /** Reading back what `writeLong` wrote yields the same value, negative ones included. */
  lemma {:induction false} LongRoundTrip(v: int, rest: Bytes)
    requires -TWO_63 <= v < TWO_63
    ensures ParseLong(Be64(v) + rest) == Some(v)
  {
    Pow256Eight();
    var u: nat := if v < 0 then v + TWO_64 else v;
    BigEndianRoundTrip(u, 8);
    assert (Be64(v) + rest)[..8] == Be64(v);
  }

  /** The text frame of `sendMessageToAll`: `writeUTF("TEXT")`, then `writeUTF(message)`. */
  function TextFrame(message: Bytes): (r: Bytes)
    requires |message| <= MAX_UTF
    ensures |r| == 8 + |message|
  {
    Utf(TEXT_TAG) + Utf(message)
  }

  /**
   * The audio frame of `sendAudioFile`: `writeUTF("AUDIO_FILE")`, `writeLong`
   * of the file length, then the file's bytes in order.
   */
  function AudioFrame(content: Bytes): (r: Bytes)
    requires |content| < TWO_63
    ensures |r| == 20 + |content|
  {
    Utf(AUDIO_TAG) + Be64(|content|) + content
  }

  /**
   * The bytes one text send leaves on a socket as the source is written: when
   * the message is too long for `writeUTF`, the exception comes after the
   * "TEXT" tag has already been written.
   */
  function TextWireAsWritten(message: Bytes): (r: Bytes)
    // the tag always goes out, even for a message `writeUTF` refuses
    ensures |r| >= 6 && r[..6] == Utf(TEXT_TAG)
    ensures |message| > MAX_UTF ==> |r| == 6
    // a message that fits is sent exactly as by the corrected send
    ensures |message| <= MAX_UTF ==> r == TextWire(message)
  {
    if |message| <= MAX_UTF then TextFrame(message) else Utf(TEXT_TAG)
  }

  /**
   * The bytes one text send leaves on a socket once the length is checked
   * before anything is written: a whole frame or nothing.
   */
  function TextWire(message: Bytes): (r: Bytes)
    ensures r == [] || (|message| <= MAX_UTF && r == TextFrame(message))
    ensures |message| <= MAX_UTF ==> r != []
  {
    if |message| <= MAX_UTF then TextFrame(message) else []
  }

  /** Concatenation of the chunks a copy loop wrote, in order. */
  function Flatten(chunks: seq<Bytes>): Bytes
  {
    if chunks == [] then [] else Flatten(chunks[..|chunks| - 1]) + chunks[|chunks| - 1]
  }

  /**
   * `after` is `before` followed by a prefix of `frame` (possibly all of it):
   * what a write that may fail part-way leaves on a stream.
   */
  predicate PartialWrite(before: Bytes, after: Bytes, frame: Bytes)
  {
    |before| <= |after| <= |before| + |frame| && after == before + frame[..|after| - |before|]
  }
}
