/**
 * What the reader side of the connection manager does with the bytes of one
 * socket: the `handleClientSocket` loop reads a tag with `readUTF`, dispatches
 * on it, and `receiveAndSaveAudio` copies a length-prefixed payload into the
 * fixed audio file. Here that loop is given as functions over the bytes not yet
 * read; the imperative loop in module Connections is proved equal to them.
 */
module Protocol {
  import opened Wire

  /** A callback the reader invokes: `onTextMessageReceived` or `onAudioMessageReceived`. */
  datatype Event = TextReceived(message: Bytes) | AudioReceived(content: Bytes)

  /**
   * How the byte source ends once its bytes are used up: `read` returns -1
   * (and `readUTF`/`readLong` throw EOFException), or `read` throws an
   * IOException (connection reset, the 10-minute read timeout).
   */
  datatype StreamEnd = EndOfStream | Broken

  /**
   * Why the reader loop ended: an IOException while reading (caught, loop
   * broken), the IllegalStateException of a missing application context
   * (not caught, propagates out of the submitted job), or the loop condition found the
   * socket already closed.
   */
  datatype Exit = ReadFailed | ContextMissing | SocketClosed

  /**
   * One pass of the reader loop: either the loop goes on after `consumed`
   * bytes, having invoked `events` and left `file` in the audio slot (None:
   * the file was not touched), or the loop is left with `exit`.
   */
  datatype StepResult =
    | Next(events: seq<Event>, file: Option<Bytes>, consumed: nat)
    | Stop(exit: Exit, file: Option<Bytes>)

  /** What a whole reader session does: the callbacks, the last audio file written, how it ended. */
  datatype Session = Session(events: seq<Event>, file: Option<Bytes>, exit: Exit)

  /** The audio slot after `later` has been written over `earlier`. */
  function Override(earlier: Option<Bytes>, later: Option<Bytes>): Option<Bytes>
  {
    if later.Some? then later else earlier
  }

  /**
   * `receiveAndSaveAudio` on the bytes that follow an "AUDIO_FILE" tag: read
   * the 8-byte length L, fail if there is no application context, then copy
   * bytes until L have been read or the stream ends, and post the callback.
   * There is no check that L bytes actually arrived.
   */
  function ReceiveAudio(rest: Bytes, end: StreamEnd, hasContext: bool): (st: StepResult)
    // the length is consumed first; no payload byte is read without a context
    ensures ParseLong(rest).None? ==> st == Stop(ReadFailed, None)
    ensures !hasContext && |rest| >= 8 ==> st == Stop(ContextMissing, None)
    // never reads past the declared payload
    ensures st.Next? ==> ParseLong(rest).Some? && 8 <= st.consumed <= |rest|
    ensures st.Next? ==> st.consumed <= 8 + Max0(ParseLong(rest).value)
    // stops short of L bytes only at end of stream
    ensures st.Next? && st.consumed < 8 + Max0(ParseLong(rest).value) ==>
              st.consumed == |rest| && end == EndOfStream
    // the file and the callback both get exactly the bytes read
    ensures st.Next? ==> st.file == Some(rest[8..st.consumed])
    ensures st.Next? ==> st.events == [AudioReceived(rest[8..st.consumed])]
    // an IOException on the payload leaves the bytes read so far in the file and posts nothing
    ensures st.Stop? && hasContext && |rest| >= 8 ==>
              st.exit == ReadFailed && end == Broken && st.file == Some(rest[8..])
              && |rest| < 8 + ParseLong(rest).value
  {
    match ParseLong(rest)
    case None => Stop(ReadFailed, None)
    case Some(len) =>
      if !hasContext then Stop(ContextMissing, None)
      else
        var body := rest[8..];
        if len <= |body| then
          var n := Max0(len);
          assert body[..n] == rest[8..8 + n];
          Next([AudioReceived(body[..n])], Some(body[..n]), 8 + n)
        else if end == EndOfStream then
          assert body == rest[8..|rest|];
          Next([AudioReceived(body)], Some(body), |rest|)
        else
          assert end == Broken && body == rest[8..];
          Stop(ReadFailed, Some(body))
  }

  /** A step of `ReceiveAudio` seen from `k` bytes earlier in the stream. */
  function Shift(st: StepResult, k: nat): StepResult
  {
    match st
    case Next(evs, f, c) => Next(evs, f, k + c)
    case Stop(x, f) => st
  }

  /** One pass of the `handleClientSocket` loop: read a tag and act on it. */
  function Step(rest: Bytes, end: StreamEnd, hasContext: bool): (st: StepResult)
    ensures st.Next? ==> 2 <= st.consumed <= |rest|
    ensures st.Stop? ==> st.exit == ReadFailed || (st.exit == ContextMissing && !hasContext)
    ensures ParseUtf(rest).None? ==> st == Stop(ReadFailed, None)
  {
    match ParseUtf(rest)
    case None => Stop(ReadFailed, None)
    case Some(tag) =>
      var k := 2 + |tag|;
      var after := rest[k..];
      if tag == AUDIO_TAG then
        Shift(ReceiveAudio(after, end, hasContext), k)
      else if tag == TEXT_TAG then
        match ParseUtf(after)
        case None => Stop(ReadFailed, None)
        case Some(message) => Next([TextReceived(message)], None, k + 2 + |message|)
      else
        // unknown tag: logged, and the loop reads the next tag
        Next([], None, k)
  }

  /** The reader loop run over all of `rest` until it ends. */
  function Decode(rest: Bytes, end: StreamEnd, hasContext: bool): (d: Session)
    // a session over the bytes ends only on an exception, never on the loop condition
    ensures d.exit == ReadFailed || (d.exit == ContextMissing && !hasContext)
    // it invokes at most one callback for every two bytes it reads
    ensures 2 * |d.events| <= |rest|
    decreases |rest|
  {
    match Step(rest, end, hasContext)
    case Stop(x, f) => Session([], f, x)
    case Next(evs, f, k) =>
      var d := Decode(rest[k..], end, hasContext);
      Session(evs + d.events, Override(f, d.file), d.exit)
  }

  /** One unfolding of `Decode` on a pass that lets the loop go on. */
  lemma DecodeNext(rest: Bytes, end: StreamEnd, hasContext: bool)
    requires Step(rest, end, hasContext).Next?
    ensures var st := Step(rest, end, hasContext);
            var d := Decode(rest[st.consumed..], end, hasContext);
            Decode(rest, end, hasContext) == Session(st.events + d.events, Override(st.file, d.file), d.exit)
  {
  }

  /** A frame as the sender writes it. */
  datatype Frame = Text(message: Bytes) | Audio(content: Bytes)

  /** What `sendMessageToAll` and `sendAudioFile` can put on the wire. */
  predicate Sendable(f: Frame)
  {
    match f
    case Text(m) => |m| <= MAX_UTF
    case Audio(c) => |c| < TWO_63
  }

  function Encode(f: Frame): Bytes
    requires Sendable(f)
  {
    match f
    case Text(m) => TextFrame(m)
    case Audio(c) => AudioFrame(c)
  }

  function EncodeAll(fs: seq<Frame>): Bytes
    requires forall i :: 0 <= i < |fs| ==> Sendable(fs[i])
  {
    if fs == [] then [] else Encode(fs[0]) + EncodeAll(fs[1..])
  }

  /** The callback a frame should produce at the receiver. */
  function EventOf(f: Frame): Event
  {
    match f
    case Text(m) => TextReceived(m)
    case Audio(c) => AudioReceived(c)
  }

  function EventsOf(fs: seq<Frame>): seq<Event>
  {
    if fs == [] then [] else [EventOf(fs[0])] + EventsOf(fs[1..])
  }

  /** The content of the last audio frame in `fs`, if any: what the audio slot holds afterwards. */
  function LastAudio(fs: seq<Frame>): Option<Bytes>
  {
    if fs == [] then None
    else Override(if fs[0].Audio? then Some(fs[0].content) else None, LastAudio(fs[1..]))
  }

  /** A text frame is read as exactly its message, and the next tag is read right after it. */
  lemma TextFrameStep(message: Bytes, rest: Bytes, end: StreamEnd, hasContext: bool)
    requires |message| <= MAX_UTF
    ensures Step(TextFrame(message) + rest, end, hasContext)
         == Next([TextReceived(message)], None, |TextFrame(message)|)
  {
    var w := TextFrame(message) + rest;
    assert w == Utf(TEXT_TAG) + (Utf(message) + rest);
    UtfRoundTrip(TEXT_TAG, Utf(message) + rest);
    assert w[6..] == Utf(message) + rest;
    UtfRoundTrip(message, rest);
  }

  /**
   * With a context, a complete audio frame is read as exactly its content, the
   * file holds that content, and the next tag is read right after the payload.
   */
  lemma AudioFrameStep(content: Bytes, rest: Bytes, end: StreamEnd)
    requires |content| < TWO_63
    ensures Step(AudioFrame(content) + rest, end, true)
         == Next([AudioReceived(content)], Some(content), |AudioFrame(content)|)
  {
    var w := AudioFrame(content) + rest;
    var after := Be64(|content|) + (content + rest);
    assert w == Utf(AUDIO_TAG) + after;
    UtfRoundTrip(AUDIO_TAG, after);
    assert w[12..] == after;
    LongRoundTrip(|content|, content + rest);
    assert after[8..] == content + rest;
    assert (content + rest)[..|content|] == content;
  }

  lemma FrameStep(f: Frame, rest: Bytes, end: StreamEnd)
    requires Sendable(f)
    ensures Step(Encode(f) + rest, end, true)
         == Next([EventOf(f)], if f.Audio? then Some(f.content) else None, |Encode(f)|)
  {
    match f
    case Text(m) => TextFrameStep(m, rest, end, true);
    case Audio(c) => AudioFrameStep(c, rest, end);
  }

  /** Reading a complete frame and then anything: its callback, then the rest read as if alone. */
  lemma DecodeAfterFrame(f: Frame, tail: Bytes, w: Bytes, end: StreamEnd)
    requires Sendable(f) && w == Encode(f) + tail
    ensures var dt := Decode(tail, end, true);
            Decode(w, end, true) ==
            Session([EventOf(f)] + dt.events, Override(if f.Audio? then Some(f.content) else None, dt.file), dt.exit)
  {
    FrameStep(f, tail, end);
    assert (Encode(f) + tail)[|Encode(f)|..] == tail;
    DecodeNext(Encode(f) + tail, end, true);
  }

  lemma ConsRegroup(fs: seq<Frame>, events: seq<Event>, file: Option<Bytes>)
    requires fs != []
    ensures [EventOf(fs[0])] + (EventsOf(fs[1..]) + events) == EventsOf(fs) + events
    ensures Override(if fs[0].Audio? then Some(fs[0].content) else None, Override(LastAudio(fs[1..]), file))
         == Override(LastAudio(fs), file)
  {
    assert EventsOf(fs) == [EventOf(fs[0])] + EventsOf(fs[1..]);
  }

  /**
   * Frame boundary: reading a run of complete frames followed by anything
   * invokes the frames' callbacks in order, then carries on with what follows
   * exactly as if it came first.
   */
  lemma {:induction false} DecodeFrames(fs: seq<Frame>, rest: Bytes, end: StreamEnd)
    requires forall i :: 0 <= i < |fs| ==> Sendable(fs[i])
    ensures var d := Decode(rest, end, true);
            Decode(EncodeAll(fs) + rest, end, true) ==
            Session(EventsOf(fs) + d.events, Override(LastAudio(fs), d.file), d.exit)
  {
    if fs != [] {
      var tail := EncodeAll(fs[1..]) + rest;
      DecodeAfterFrame(fs[0], tail, EncodeAll(fs) + rest, end);
      DecodeFrames(fs[1..], rest, end);
      var d := Decode(rest, end, true);
      ConsRegroup(fs, d.events, d.file);
    } else {
      assert EncodeAll(fs) + rest == rest;
    }
  }

  /**
   * Round trip: a stream made of complete frames, closed by the peer, is read
   * as the frames' callbacks in order; the loop then ends on the EOFException.
   */
  lemma DecodeRoundTrip(fs: seq<Frame>)
    requires forall i :: 0 <= i < |fs| ==> Sendable(fs[i])
    ensures Decode(EncodeAll(fs), EndOfStream, true) == Session(EventsOf(fs), LastAudio(fs), ReadFailed)
  {
    DecodeFrames(fs, [], EndOfStream);
    assert EncodeAll(fs) + [] == EncodeAll(fs);
  }

  /** A tag that is neither "AUDIO_FILE" nor "TEXT" produces nothing and the loop reads the next tag. */
  lemma UnknownTagSkipped(tag: Bytes, rest: Bytes, end: StreamEnd, hasContext: bool)
    requires |tag| <= MAX_UTF && tag != AUDIO_TAG && tag != TEXT_TAG
    ensures Decode(Utf(tag) + rest, end, hasContext) == Decode(rest, end, hasContext)
  {
    UtfRoundTrip(tag, rest);
    assert (Utf(tag) + rest)[2 + |tag|..] == rest;
  }

  /**
   * Without an application context the 8-byte length is consumed and the loop
   * ends at once: no payload byte is read and no audio callback is posted.
   */
  lemma MissingContextStops(len: int, rest: Bytes, end: StreamEnd)
    requires -TWO_63 <= len < TWO_63
    ensures Step(Utf(AUDIO_TAG) + Be64(len) + rest, end, false) == Stop(ContextMissing, None)
  {
    var w := Utf(AUDIO_TAG) + Be64(len) + rest;
    assert w == Utf(AUDIO_TAG) + (Be64(len) + rest);
    UtfRoundTrip(AUDIO_TAG, Be64(len) + rest);
    assert w[12..] == Be64(len) + rest;
  }

  /** Without an application context no session ever invokes the audio callback or writes the file. */
  lemma {:induction false} MissingContextNoAudio(rest: Bytes, end: StreamEnd)
    ensures var d := Decode(rest, end, false);
            d.file == None && forall i :: 0 <= i < |d.events| ==> d.events[i].TextReceived?
    decreases |rest|
  {
    match Step(rest, end, false)
    case Stop(x, f) =>
    case Next(evs, f, k) =>
      MissingContextNoAudio(rest[k..], end);
  }

  /**
   * Truncation as the code has it: when the peer closes the stream before the
   * declared L bytes, the loop exits, the short file is kept and the audio
   * callback is still posted with it; an IOException instead posts nothing.
   */
  lemma TruncatedAudio(len: int, body: Bytes, end: StreamEnd)
    requires |body| < len < TWO_63
    ensures Decode(Utf(AUDIO_TAG) + Be64(len) + body, end, true)
         == if end == EndOfStream then Session([AudioReceived(body)], Some(body), ReadFailed)
            else Session([], Some(body), ReadFailed)
  {
    var w := Utf(AUDIO_TAG) + Be64(len) + body;
    assert w == Utf(AUDIO_TAG) + (Be64(len) + body);
    UtfRoundTrip(AUDIO_TAG, Be64(len) + body);
    assert w[12..] == Be64(len) + body;
    LongRoundTrip(len, body);
    assert (Be64(len) + body)[8..] == body;
  }

  /**
   * As written, a text message longer than `writeUTF` allows leaves a lone
   * "TEXT" tag on the wire, so the next message's tag is read as a message and
   * its message as a tag: sending the oversized message and then "hi" makes
   * the peer see the text "TEXT" instead of "hi".
   */
  lemma OversizedTextDesynchronises(hi: Bytes)
    requires hi == [104, 105]
    ensures var long := seq(MAX_UTF + 1, i => 97);
            Decode(TextWireAsWritten(long) + TextWireAsWritten(hi), EndOfStream, true).events ==
            [TextReceived(TEXT_TAG)]
  {
    var long := seq(MAX_UTF + 1, i => 97);
    assert TextWireAsWritten(long) == Utf(TEXT_TAG);
    assert TextWireAsWritten(hi) == Utf(TEXT_TAG) + Utf(hi);
    var w := Utf(TEXT_TAG) + (Utf(TEXT_TAG) + Utf(hi));
    assert TextWireAsWritten(long) + TextWireAsWritten(hi) == w;
    // the lone tag and the next message's tag are read as one text frame
    assert Utf(TEXT_TAG) + Utf(TEXT_TAG) == TextFrame(TEXT_TAG);
    assert w == TextFrame(TEXT_TAG) + Utf(hi);
    TextFrameStep(TEXT_TAG, Utf(hi), EndOfStream, true);
    assert w[12..] == Utf(hi);
    DecodeNext(w, EndOfStream, true);
    // "hi" is then read as an unknown tag, and the stream ends
    assert Utf(hi) == Utf(hi) + [];
    UnknownTagSkipped(hi, [], EndOfStream, true);
  }

  lemma DecodeAfterText(m: Bytes, tail: Bytes, w: Bytes, end: StreamEnd, hasContext: bool)
    requires |m| <= MAX_UTF && w == TextFrame(m) + tail
    ensures var dt := Decode(tail, end, hasContext);
            Decode(w, end, hasContext) == Session([TextReceived(m)] + dt.events, dt.file, dt.exit)
  {
    TextFrameStep(m, tail, end, hasContext);
    assert (TextFrame(m) + tail)[|TextFrame(m)|..] == tail;
    DecodeNext(TextFrame(m) + tail, end, hasContext);
  }

  /** Only the messages that fit in `writeUTF` are sent. */
  function Fitting(messages: seq<Bytes>): seq<Event>
  {
    if messages == [] then []
    else (if |messages[0]| <= MAX_UTF then [TextReceived(messages[0])] else [])
         + Fitting(messages[1..])
  }

  function TextWires(messages: seq<Bytes>): Bytes
  {
    if messages == [] then [] else TextWire(messages[0]) + TextWires(messages[1..])
  }

  lemma FittingRegroup(messages: seq<Bytes>, events: seq<Event>)
    requires messages != [] && |messages[0]| <= MAX_UTF
    ensures [TextReceived(messages[0])] + (Fitting(messages[1..]) + events) == Fitting(messages) + events
  {
    assert Fitting(messages) == [TextReceived(messages[0])] + Fitting(messages[1..]);
  }

  /**
   * Corrected text sends keep the stream in step: any run of them, oversized
   * messages included, is read as exactly the messages that fit, in order.
   */
  lemma {:induction false} TextWiresDecode(messages: seq<Bytes>, rest: Bytes, end: StreamEnd, hasContext: bool)
    ensures var d := Decode(rest, end, hasContext);
            Decode(TextWires(messages) + rest, end, hasContext) ==
            Session(Fitting(messages) + d.events, d.file, d.exit)
  {
    if messages != [] {
      var m := messages[0];
      var tail := TextWires(messages[1..]) + rest;
      assert TextWires(messages) + rest == TextWire(m) + tail;
      if |m| <= MAX_UTF {
        DecodeAfterText(m, tail, TextWires(messages) + rest, end, hasContext);
        TextWiresDecode(messages[1..], rest, end, hasContext);
        FittingRegroup(messages, Decode(rest, end, hasContext).events);
      } else {
        assert TextWires(messages) + rest == tail;
        assert Fitting(messages) == Fitting(messages[1..]);
        TextWiresDecode(messages[1..], rest, end, hasContext);
      }
    } else {
      assert TextWires(messages) + rest == rest;
    }
  }
}
