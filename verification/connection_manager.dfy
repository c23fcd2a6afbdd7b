/**
 * The connection manager: the registry of open sockets (`socketOutputMap`),
 * the broadcast senders, the per-socket reader loop with its audio receive,
 * and the teardown that removes a socket.
 *
 * The thread pool is abstracted away: each operation runs to completion on
 * its own, each frame write is atomic, and posting to the main thread is
 * immediate. A socket's output stream is modelled by the bytes written
 * through it; its input by a `DataInput`.
 */
module Connections {
  import opened Wire
  import opened Protocol
  import opened Streams

  type SocketId = nat

  /** The file handed to `sendAudioFile`: `length()` is 0 and opening it fails when it does not exist. */
  datatype AudioFile = Missing | Stored(content: Bytes)

  predicate Storable(file: AudioFile)
  {
    file.Stored? ==> |file.content| < TWO_63
  }

  /**
   * The bytes one `sendAudioFile` entry writes when the socket takes them all:
   * the whole frame, or for a missing file the tag and a zero length, after
   * which opening the file throws.
   */
  function AudioWire(file: AudioFile): (w: Bytes)
    requires Storable(file)
    ensures file.Missing? ==> w == AudioFrame([])
    ensures file.Stored? ==> w == AudioFrame(file.content)
  {
    match file
    case Missing => Utf(AUDIO_TAG) + Be64(0)
    case Stored(c) => AudioFrame(c)
  }

  /**
   * A broadcast of `frame` over a snapshot of the registry: every entry was
   * attempted; the sockets outside `failing` got the whole frame, the ones in
   * it a prefix of it, and no entry was added or dropped.
   */
  predicate Broadcast(before: map<SocketId, Bytes>, after: map<SocketId, Bytes>, frame: Bytes, failing: set<SocketId>)
  {
    && after.Keys == before.Keys
    && (forall s :: s in before && s !in failing ==> after[s] == before[s] + frame)
    && (forall s :: s in before && s in failing ==> PartialWrite(before[s], after[s], frame))
  }

  /** The callbacks that actually run: none when no callback is set. */
  function Deliver(callbackSet: bool, events: seq<Event>): seq<Event>
  {
    if callbackSet then events else []
  }

  /**
   * Reading what is left, `rest`, from a state where `received` callbacks have
   * run and the audio slot holds `file`, ends with `receivedEnd`, `fileEnd`
   * and `exitEnd`: the reader loop's invariant.
   */
  ghost predicate OnTrack(rest: Bytes, end: StreamEnd, hasContext: bool, callbackSet: bool,
                          received: seq<Event>, file: Option<Bytes>,
                          receivedEnd: seq<Event>, fileEnd: Option<Bytes>, exitEnd: Exit)
  {
    var r := Decode(rest, end, hasContext);
    && received + Deliver(callbackSet, r.events) == receivedEnd
    && Override(file, r.file) == fileEnd
    && r.exit == exitEnd
  }

  /** A pass that lets the loop go on keeps the reader on track. */
  lemma ReaderGoesOn(rest: Bytes, end: StreamEnd, hasContext: bool, callbackSet: bool,
                     received: seq<Event>, file: Option<Bytes>,
                     received': seq<Event>, file': Option<Bytes>,
                     receivedEnd: seq<Event>, fileEnd: Option<Bytes>, exitEnd: Exit)
    requires OnTrack(rest, end, hasContext, callbackSet, received, file, receivedEnd, fileEnd, exitEnd)
    requires Step(rest, end, hasContext).Next?
    requires received' == received + Deliver(callbackSet, Step(rest, end, hasContext).events)
    requires file' == Override(file, Step(rest, end, hasContext).file)
    ensures OnTrack(rest[Step(rest, end, hasContext).consumed..], end, hasContext, callbackSet,
                    received', file', receivedEnd, fileEnd, exitEnd)
  {
    var st := Step(rest, end, hasContext);
    var r := Decode(rest[st.consumed..], end, hasContext);
    DecodeNext(rest, end, hasContext);
    Regroup(callbackSet, received, file, st.events, st.file, r.events, r.file, receivedEnd, fileEnd);
  }

  /** Delivering a pass's events, then the rest's, is delivering both; a later file overrides an earlier one. */
  lemma Regroup(callbackSet: bool, received: seq<Event>, file: Option<Bytes>,
                events: seq<Event>, stepFile: Option<Bytes>, later: seq<Event>, laterFile: Option<Bytes>,
                receivedEnd: seq<Event>, fileEnd: Option<Bytes>)
    requires received + Deliver(callbackSet, events + later) == receivedEnd
    requires Override(file, Override(stepFile, laterFile)) == fileEnd
    ensures received + Deliver(callbackSet, events) + Deliver(callbackSet, later) == receivedEnd
    ensures Override(Override(file, stepFile), laterFile) == fileEnd
  {
    if !callbackSet {
      assert received + [] + [] == received;
    }
  }

  /** A pass that leaves the loop reaches the end the invariant promised. */
  lemma ReaderStops(rest: Bytes, end: StreamEnd, hasContext: bool, callbackSet: bool,
                    received: seq<Event>, file: Option<Bytes>, file': Option<Bytes>,
                    receivedEnd: seq<Event>, fileEnd: Option<Bytes>, exitEnd: Exit)
    requires OnTrack(rest, end, hasContext, callbackSet, received, file, receivedEnd, fileEnd, exitEnd)
    requires Step(rest, end, hasContext).Stop?
    requires file' == Override(file, Step(rest, end, hasContext).file)
    ensures received == receivedEnd && file' == fileEnd && Step(rest, end, hasContext).exit == exitEnd
  {
    assert received + [] == received;
  }

  class ConnectionManager {
    /** `socketOutputMap`: each registered socket and the bytes written through its output stream. */
    var outputs: map<SocketId, Bytes>
    /** Sockets that `closeSocketAndRemove` has closed. */
    var closed: set<SocketId>
    /** Callbacks invoked so far, in order. */
    var received: seq<Event>
    /** Contents of the fixed file `received_audio.3gp`; None until it is first written. */
    var audioFile: Option<Bytes>
    /** Number of `removeGroup` requests made to the Wi-Fi Direct manager. */
    var groupRemovals: nat

    /** `appContext != null`. */
    const hasContext: bool
    /** `messageCallback != null`. */
    const callbackSet: bool
    /** `wifiP2pManager != null && channel != null`. */
    const p2pSet: bool

    /** A socket is registered only while it has not been closed. */
    ghost predicate Valid()
      reads this
    {
      outputs.Keys !! closed
    }

    constructor (hasContext: bool, callbackSet: bool, p2pSet: bool)
      ensures Valid()
      ensures outputs == map[] && closed == {} && received == [] && audioFile == None && groupRemovals == 0
      ensures this.hasContext == hasContext && this.callbackSet == callbackSet && this.p2pSet == p2pSet
    {
      outputs := map[];
      closed := {};
      received := [];
      audioFile := None;
      groupRemovals := 0;
      this.hasContext := hasContext;
      this.callbackSet := callbackSet;
      this.p2pSet := p2pSet;
    }

    /**
     * `addSocket`: wrap the socket's output stream and register it, then start
     * its reader. `outputOk` says whether `getOutputStream` succeeds; on a
     * closed socket it never does. On failure nothing is registered and no
     * reader starts.
     */
    method AddSocket(sock: SocketId, outputOk: bool) returns (readerStarted: bool)
      requires Valid()
      modifies this
      ensures Valid()
      ensures readerStarted == (outputOk && sock !in closed)
      ensures outputs == if readerStarted then old(outputs)[sock := []] else old(outputs)
      ensures closed == old(closed) && received == old(received) && audioFile == old(audioFile)
      ensures groupRemovals == old(groupRemovals)
    {
      if !outputOk || sock in closed {
        // getOutputStream threw: logged, nothing registered
        return false;
      }
      outputs := outputs[sock := []];
      readerStarted := true;
    }

    /**
     * `closeSocketAndRemove`: close the socket (a failure to close is only
     * logged), drop it from the registry, and ask for the Wi-Fi Direct group
     * to be removed when the manager and channel are set. Removing a socket
     * that is not registered leaves the registry as it was.
     */
    method CloseSocketAndRemove(sock: SocketId)
      requires Valid()
      modifies this
      ensures Valid()
      ensures outputs == old(outputs) - {sock} && sock !in outputs
      ensures sock !in old(outputs) ==> outputs == old(outputs)
      ensures closed == old(closed) + {sock}
      ensures groupRemovals == old(groupRemovals) + (if p2pSet then 1 else 0)
      ensures received == old(received) && audioFile == old(audioFile)
    {
      closed := closed + {sock};
      outputs := outputs - {sock};
      if p2pSet {
        groupRemovals := groupRemovals + 1;
      }
    }

    /**
     * `sendMessageToAll`: for each registered socket, write the "TEXT" tag and
     * then the message; an IOException on one socket is logged and the next
     * one is still tried. `failing` is the set of sockets whose write throws.
     * A message too long for `writeUTF` throws on every socket, after the tag
     * has gone out (see `TextWireAsWritten`).
     */
    method SendMessageToAll(message: Bytes, failing: set<SocketId>)
      requires Valid()
      modifies this
      ensures Valid()
      ensures Broadcast(old(outputs), outputs, TextWireAsWritten(message), failing)
      ensures |message| > MAX_UTF ==> Broadcast(old(outputs), outputs, Utf(TEXT_TAG), failing)
      ensures closed == old(closed) && received == old(received) && audioFile == old(audioFile)
      ensures groupRemovals == old(groupRemovals)
    {
      var pending := outputs.Keys;
      ghost var before := outputs;
      while pending != {}
        invariant pending <= before.Keys && outputs.Keys == before.Keys
        invariant forall s :: s in pending ==> outputs[s] == before[s]
        invariant forall s :: s in before && s !in pending && s !in failing ==>
                    outputs[s] == before[s] + TextWireAsWritten(message)
        invariant forall s :: s in before && s !in pending && s in failing ==>
                    PartialWrite(before[s], outputs[s], TextWireAsWritten(message))
        invariant closed == old(closed) && received == old(received) && audioFile == old(audioFile)
        invariant groupRemovals == old(groupRemovals)
        decreases pending
      {
        var s :| s in pending;
        // an oversized message: writeUTF(message) throws once the tag is out
        var frame := TextWireAsWritten(message);
        var written := frame;
        if s in failing {
          var k: nat :| k <= |frame|;
          written := frame[..k];
        }
        outputs := outputs[s := outputs[s] + written];
        pending := pending - {s};
      }
    }

    /**
     * `sendAudioFile`: for each registered socket, write the "AUDIO_FILE" tag,
     * the file length and the file's bytes copied through a 4096-byte buffer;
     * an IOException on one socket is logged and the next one is still tried.
     * `failing` is the set of sockets whose write throws.
     */
    method SendAudioFile(file: AudioFile, failing: set<SocketId>)
      requires Valid() && Storable(file)
      modifies this
      ensures Valid()
      ensures Broadcast(old(outputs), outputs, AudioWire(file), failing)
      ensures closed == old(closed) && received == old(received) && audioFile == old(audioFile)
      ensures groupRemovals == old(groupRemovals)
    {
      var pending := outputs.Keys;
      ghost var before := outputs;
      while pending != {}
        invariant pending <= before.Keys && outputs.Keys == before.Keys
        invariant forall s :: s in pending ==> outputs[s] == before[s]
        invariant forall s :: s in before && s !in pending && s !in failing ==>
                    outputs[s] == before[s] + AudioWire(file)
        invariant forall s :: s in before && s !in pending && s in failing ==>
                    PartialWrite(before[s], outputs[s], AudioWire(file))
        invariant closed == old(closed) && received == old(received) && audioFile == old(audioFile)
        invariant groupRemovals == old(groupRemovals)
        decreases pending
      {
        var s :| s in pending;
        var length := if file.Stored? then |file.content| else 0;
        var frame := Utf(AUDIO_TAG) + Be64(length);
        if file.Stored? {
          var chunks := CopyFile(file.content);
          frame := frame + Flatten(chunks);
        }
        // a missing file: FileInputStream throws after the length is written
        assert frame == AudioWire(file);
        var written := frame;
        if s in failing {
          var k: nat :| k <= |frame|;
          written := frame[..k];
        }
        outputs := outputs[s := outputs[s] + written];
        pending := pending - {s};
      }
    }

    /**
     * `receiveAndSaveAudio`: read the 8-byte length L, throw if there is no
     * application context, truncate the fixed audio file, then copy until L
     * bytes have been read or `read` returns -1, asking each time for
     * min(4096, L - total) bytes, and post the audio callback. An IOException
     * from `read` propagates and posts nothing.
     */
    method ReceiveAndSaveAudio(dis: DataInput) returns (thrown: Option<Exit>)
      requires dis.Valid()
      modifies this`received, this`audioFile, dis
      ensures dis.Valid()
      ensures var st := ReceiveAudio(old(dis.Remaining()), dis.end, hasContext);
              && (st.Next? ==> thrown == None && dis.pos == old(dis.pos) + st.consumed)
              && (st.Stop? ==> thrown == Some(st.exit))
              && received == old(received) + (if st.Next? then Deliver(callbackSet, st.events) else [])
              && audioFile == Override(old(audioFile), st.file)
      ensures !hasContext && |old(dis.Remaining())| >= 8 ==> dis.pos == old(dis.pos) + 8
    {
      ghost var rest := dis.Remaining();
      ghost var origin := dis.pos;
      var fileLength := dis.ReadLong();
      if fileLength.None? {
        return Some(ReadFailed);
      }
      if !hasContext {
        return Some(ContextMissing);
      }
      var len := fileLength.value;
      ghost var start := dis.pos;
      assert start == origin + 8 && rest == dis.bytes[origin..];
      assert dis.bytes[start..dis.pos] == [];
      audioFile := Some([]);
      var total := 0;
      while total < len
        invariant dis.Valid() && start <= dis.pos
        invariant 0 <= total <= Max0(len)
        invariant dis.pos == start + total
        invariant audioFile == Some(dis.bytes[start..dis.pos])
        invariant received == old(received)
        decreases len - total
      {
        var n := Min(BUFFER_SIZE, len - total);
        ghost var here := dis.pos;
        var r := dis.Read(n);
        match r {
          case Eof =>
            break;
          case Failed =>
            assert dis.pos == |dis.bytes| && |rest| < 8 + len;
            assert dis.bytes[start..dis.pos] == dis.bytes[start..] == rest[8..];
            assert ReceiveAudio(rest, dis.end, hasContext) == Stop(ReadFailed, Some(rest[8..]));
            assert audioFile == Some(rest[8..]) && received + [] == received;
            return Some(ReadFailed);
          case Got(chunk) =>
            assert dis.bytes[start..dis.pos] == dis.bytes[start..here] + chunk;
            audioFile := Some(audioFile.value + chunk);
            total := total + |chunk|;
        }
      }
      assert dis.bytes[start..dis.pos] == rest[8..dis.pos - origin];
      if callbackSet {
        received := received + [AudioReceived(audioFile.value)];
      }
      thrown := None;
    }

    /**
     * One pass of the `handleClientSocket` loop: read a tag and dispatch on
     * it: "AUDIO_FILE" to the audio receive, "TEXT" to one more `readUTF` and
     * the text callback, anything else is logged and skipped. `stop` is the
     * reason the loop is left, when it is.
     */
    method ReadFrame(dis: DataInput) returns (stop: Option<Exit>)
      requires dis.Valid()
      modifies this`received, this`audioFile, dis
      ensures dis.Valid()
      ensures var st := Step(old(dis.Remaining()), dis.end, hasContext);
              && (st.Next? ==> stop == None && dis.pos == old(dis.pos) + st.consumed)
              && (st.Stop? ==> stop == Some(st.exit))
              && received == old(received) + (if st.Next? then Deliver(callbackSet, st.events) else [])
              && audioFile == Override(old(audioFile), st.file)
    {
      ghost var rest := dis.Remaining();
      var tag := dis.ReadUtf();
      if tag.None? {
        assert received + [] == received;
        return Some(ReadFailed);
      }
      assert dis.Remaining() == rest[2 + |tag.value|..];
      if tag.value == AUDIO_TAG {
        stop := ReceiveAndSaveAudio(dis);
      } else if tag.value == TEXT_TAG {
        var message := dis.ReadUtf();
        if message.None? {
          assert received + [] == received;
          return Some(ReadFailed);
        }
        if callbackSet {
          received := received + [TextReceived(message.value)];
        } else {
          assert received + [] == received;
        }
        stop := None;
      } else {
        // unknown tag: logged, and the loop reads the next tag
        assert received + [] == received;
        stop := None;
      }
    }

    /**
     * `handleClientSocket`: while the socket is open, read and dispatch one
     * frame. The loop is left on the first exception, and the socket is then
     * closed and removed whatever the reason.
     */
    method HandleClientSocket(sock: SocketId, dis: DataInput) returns (exit: Exit)
      requires Valid() && dis.Valid()
      modifies this, dis
      ensures Valid() && dis.Valid()
      ensures outputs == old(outputs) - {sock} && closed == old(closed) + {sock}
      ensures groupRemovals == old(groupRemovals) + (if p2pSet then 1 else 0)
      ensures old(sock in closed) ==>
                exit == SocketClosed && received == old(received) && audioFile == old(audioFile)
      ensures old(sock !in closed) ==>
                var d := Decode(old(dis.Remaining()), dis.end, hasContext);
                && exit == d.exit
                && received == old(received) + Deliver(callbackSet, d.events)
                && audioFile == Override(old(audioFile), d.file)
    {
      ghost var d := Decode(dis.Remaining(), dis.end, hasContext);
      ghost var receivedEnd := received + Deliver(callbackSet, d.events);
      ghost var fileEnd := Override(audioFile, d.file);
      exit := SocketClosed;
      while sock !in closed
        invariant dis.Valid()
        invariant closed == old(closed) && outputs == old(outputs) && groupRemovals == old(groupRemovals)
        invariant sock in old(closed) ==>
                    exit == SocketClosed && received == old(received) && audioFile == old(audioFile)
        invariant OnTrack(dis.Remaining(), dis.end, hasContext, callbackSet,
                          received, audioFile, receivedEnd, fileEnd, d.exit)
        decreases |dis.bytes| - dis.pos
      {
        ghost var rest := dis.Remaining();
        ghost var received0, file0 := received, audioFile;
        var stop := ReadFrame(dis);
        if stop.Some? {
          ReaderStops(rest, dis.end, hasContext, callbackSet, received0, file0, audioFile,
                      receivedEnd, fileEnd, d.exit);
          exit := stop.value;
          break;
        }
        assert dis.Remaining() == rest[Step(rest, dis.end, hasContext).consumed..];
        ReaderGoesOn(rest, dis.end, hasContext, callbackSet, received0, file0, received, audioFile,
                     receivedEnd, fileEnd, d.exit);
      }
      CloseSocketAndRemove(sock);
    }
  }
}
