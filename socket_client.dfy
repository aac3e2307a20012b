/**
  Gruppo.SDK.Communications.SocketClient over in-memory streams: what `Send` writes to the
  network stream, the process-wide id counter, and one pass of the read loop `DoReadState`
  over the bytes that arrive, recorded as a trace of callback events.

  Streams deliver everything asked for that is still there (no short reads). The message
  callback is external code; the model assumes it reads exactly BodySize bytes of the body
  (or what is left of the stream) and never throws.
*/
module SocketClient {
  import opened Wrappers
  import opened Exceptions
  import opened Binary
  import opened Envelope

  const ChunkSize: nat := 4096
  /** The size of `receiveBuffer`; it is zero-filled, so a short header read decodes zeros. */
  const ReceiveBufferSize: nat := 1024 * 128

  // ---- the bytes on the wire ----

  /** The bytes of a body stream from its current position on, i.e. what `body.Read` yields. */
  function Remaining(body: seq<byte>, position: nat): (r: seq<byte>)
    ensures |r| == if position < |body| then |body| - position else 0
  {
    if position < |body| then body[position..] else []
  }

  /** The header Send builds: the default version, the UTF-8 length truncated to a ushort,
      and the body stream's length. */
  function SendHeader(meta: seq<byte>, body: seq<byte>): (h: Header)
    requires |body| < TwoTo63
    ensures |h.version| == 4 && IsAsciiVersion(h.version)
    ensures h.metaSize == |meta| % 0x1_0000 && h.bodySize == |body|
  {
    Header(DefaultVersion, |meta| % 0x1_0000, |body|)
  }

  /** Everything one Send puts on the network stream, in the order it is written. */
  function Frame(meta: seq<byte>, body: seq<byte>, position: nat): seq<byte>
    requires |body| < TwoTo63
  {
    Serialize(SendHeader(meta, body)) + meta + Remaining(body, position)
  }

  function Flatten(chunks: seq<seq<byte>>): seq<byte> {
    if chunks == [] then [] else Flatten(chunks[..|chunks| - 1]) + chunks[|chunks| - 1]
  }

  // ---- the read loop ----

  datatype Event = Started | Received(meta: seq<byte>, bodySize: nat, body: seq<byte>) | Stopped

  /** What DeserializeHeader sees of the zero-filled receive buffer after the header read:
      decoding looks at the first 14 bytes only, so the unread input itself serves when it holds
      that many, and a shorter input is followed by the buffer's zeros. */
  function HeaderView(s: seq<byte>): (b: seq<byte>)
    ensures |b| >= 14
    decreases 14 - |s|
  {
    if |s| >= 14 then s else HeaderView(s + [0])
  }

  lemma {:induction false} HeaderViewBytes(s: seq<byte>)
    ensures forall i :: 0 <= i < 14 ==> HeaderView(s)[i] == if i < |s| then s[i] else 0
    decreases 14 - |s|
  {
    if |s| < 14 {
      HeaderViewBytes(s + [0]);
    }
  }

  /** The header the loop decodes from the unread input `s`. */
  function HeaderOf(s: seq<byte>): Result<Header, HeaderError> {
    Deserialize(HeaderView(s))
  }

  /** The event a decoded `header` delivers from the unread input `s`, and the bytes consumed:
      the header read, up to MetaSize meta bytes and up to BodySize body bytes. */
  function Deliver(s: seq<byte>, header: Header): (step: (Event, nat))
    requires |s| > 0
    ensures step.0.Received? && 0 < step.1 <= |s|
  {
    var h := Min(BinarySize, |s|);
    var m := Min(header.metaSize, |s| - h);
    var b := Min(header.bodySize, |s| - h - m);
    (Received(s[h..h + m], header.bodySize, s[h + m..h + m + b]), h + m + b)
  }

  /** One pass of the loop body over the unread input `s`: None when the header read yields no
      byte or the header does not decode (the loop leaves), otherwise the delivered event and
      the number of bytes consumed. */
  function FrameStep(s: seq<byte>): (r: Option<(Event, nat)>)
    ensures r.Some? ==> r.value.0.Received? && 0 < r.value.1 <= |s|
    ensures |s| == 0 ==> r.None?
  {
    if |s| == 0 then None
    else
      match HeaderOf(s)
      case Failure(_) => None
      case Success(header) => Some(Deliver(s, header))
  }

  /** The message events the read loop raises for the input `s`. */
  function ReadFrames(s: seq<byte>): seq<Event>
    decreases |s|
  {
    match FrameStep(s)
    case None => []
    case Some(step) => [step.0] + ReadFrames(s[step.1..])
  }

  /** Every event the loop raises for a frame is a message; an empty input raises none. */
  lemma {:induction false} ReadFramesReceived(s: seq<byte>)
    ensures forall i :: 0 <= i < |ReadFrames(s)| ==> ReadFrames(s)[i].Received?
    ensures |s| == 0 ==> ReadFrames(s) == []
    decreases |s|
  {
    match FrameStep(s)
    case None =>
    case Some(step) =>
      ReadFramesReceived(s[step.1..]);
  }

  /** The whole callback trace of DoReadState. */
  function Trace(s: seq<byte>): seq<Event> {
    [Started] + ReadFrames(s) + [Stopped]
  }

  /** The start callback runs once, first; the stop callback runs once, last, on every way out
      of the loop; everything between is a message. */
  lemma TraceShape(s: seq<byte>)
    ensures var t := Trace(s);
      && |t| >= 2 && t[0] == Started && t[|t| - 1] == Stopped
      && (forall i :: 0 < i < |t| - 1 ==> t[i].Received?)
      && (forall i :: 0 <= i < |t| && t[i] == Started ==> i == 0)
      && (forall i :: 0 <= i < |t| && t[i] == Stopped ==> i == |t| - 1)
  {
    ReadFramesReceived(s);
    var t := Trace(s);
    assert forall i :: 0 < i < |t| - 1 ==> t[i] == ReadFrames(s)[i - 1];
  }

  /** A pass that delivers nothing ends the loop. */
  lemma ReadFramesStop(s: seq<byte>)
    requires FrameStep(s).None?
    ensures ReadFrames(s) == []
  {
  }

  /** After a delivering pass the loop goes on with the rest of the input. */
  lemma ReadFramesStep(s: seq<byte>, e: Event, n: nat)
    requires FrameStep(s) == Some((e, n))
    ensures ReadFrames(s) == [e] + ReadFrames(s[n..])
  {
  }

  /** The loop invariant of ReadLoop: the events raised for the first `position` bytes of
      `input` are `received`, and what the rest raises completes them. */
  ghost predicate ReadSoFar(input: seq<byte>, position: nat, received: seq<Event>) {
    position <= |input| && ReadFrames(input) == received + ReadFrames(input[position..])
  }

  /** The loop invariant of ReadLoop survives one delivering pass. */
  lemma ReadFramesAdvance(input: seq<byte>, position: nat, received: seq<Event>, e: Event, n: nat)
    requires ReadSoFar(input, position, received)
    requires FrameStep(input[position..]) == Some((e, n))
    ensures 0 < n && ReadSoFar(input, position + n, received + [e])
  {
    ReadFramesStep(input[position..], e, n);
    assert input[position..][n..] == input[position + n..];
  }

  /** When the loop leaves, the events raised so far are all of them. */
  lemma ReadFramesDone(input: seq<byte>, position: nat, received: seq<Event>)
    requires ReadSoFar(input, position, received)
    requires FrameStep(input[position..]).None?
    ensures ReadFrames(input) == received
  {
    ReadFramesStop(input[position..]);
  }

  /** What a client sends: UTF-8 meta bytes and a body stream read from its start. */
  datatype Outbound = Outbound(meta: seq<byte>, body: seq<byte>)

  predicate Framable(o: Outbound) {
    |o.meta| < 0x1_0000 && |o.body| < TwoTo63
  }

  function Frames(os: seq<Outbound>): seq<byte>
    requires forall i :: 0 <= i < |os| ==> Framable(os[i])
  {
    if os == [] then []
    else
      assert Framable(os[0]);
      assert forall i :: 0 <= i < |os[1..]| ==> Framable(os[1..][i]) by {
        forall i | 0 <= i < |os[1..]| ensures Framable(os[1..][i]) {
          assert os[1..][i] == os[i + 1];
        }
      }
      Frame(os[0].meta, os[0].body, 0) + Frames(os[1..])
  }

  function Delivered(os: seq<Outbound>): seq<Event> {
    if os == [] then [] else [Received(os[0].meta, |os[0].body|, os[0].body)] + Delivered(os[1..])
  }

  /** A sent frame's header decodes, whatever follows the frame. */
  lemma FrameHeaderOf(o: Outbound, rest: seq<byte>)
    requires Framable(o)
    ensures HeaderOf(Frame(o.meta, o.body, 0) + rest) == Success(SendHeader(o.meta, o.body))
  {
    var header := SendHeader(o.meta, o.body);
    var hb := Serialize(header);
    var s := Frame(o.meta, o.body, 0) + rest;
    assert s[..BinarySize] == hb;
    assert HeaderView(s) == s;
    DeserializeSerialize(header);
    DeserializeFirstFourteen(s, hb);
  }

  /** A header whose sizes are those of the meta and body bytes that follow it delivers them. */
  lemma DeliverWhole(s: seq<byte>, header: Header, meta: seq<byte>, body: seq<byte>)
    requires header.metaSize == |meta| && header.bodySize == |body|
    requires |s| >= BinarySize + |meta| + |body|
    requires s[BinarySize..BinarySize + |meta|] == meta
    requires s[BinarySize + |meta|..BinarySize + |meta| + |body|] == body
    ensures Deliver(s, header) == (Received(meta, |body|, body), BinarySize + |meta| + |body|)
  {
  }

  /** The read loop consumes one sent frame per step, whatever follows it. */
  lemma FrameStepOfFrame(o: Outbound, rest: seq<byte>)
    requires Framable(o)
    ensures FrameStep(Frame(o.meta, o.body, 0) + rest)
            == Some((Received(o.meta, |o.body|, o.body), |Frame(o.meta, o.body, 0)|))
  {
    var header := SendHeader(o.meta, o.body);
    var hb := Serialize(header);
    assert Remaining(o.body, 0) == o.body;
    var s := Frame(o.meta, o.body, 0) + rest;
    assert s == hb + (o.meta + (o.body + rest));
    FrameHeaderOf(o, rest);
    assert s[BinarySize..BinarySize + |o.meta|] == o.meta;
    assert s[BinarySize + |o.meta|..BinarySize + |o.meta| + |o.body|] == o.body;
    DeliverWhole(s, header, o.meta, o.body);
  }

  /** Framing round trip: frames written by Send (meta under 64 KiB, bodies read from their
      start) arrive as exactly those messages, in order. */
  lemma {:induction false} ReadFramesOfSent(os: seq<Outbound>)
    requires forall i :: 0 <= i < |os| ==> Framable(os[i])
    ensures ReadFrames(Frames(os)) == Delivered(os)
  {
    if os != [] {
      var f := Frame(os[0].meta, os[0].body, 0);
      FrameStepOfFrame(os[0], Frames(os[1..]));
      assert (f + Frames(os[1..]))[|f|..] == Frames(os[1..]);
      ReadFramesOfSent(os[1..]);
    }
  }

  /** The static NextId counter that every constructed client increments. */
  class IdSource {
    var nextId: int

    constructor ()
      ensures nextId == 0
    {
      nextId := 0;
    }

    /** Interlocked.Increment: returns the incremented value. */
    method Increment() returns (id: int)
      modifies this
      ensures nextId == old(nextId) + 1 && id == nextId
    {
      nextId := nextId + 1;
      id := nextId;
    }
  }

  class Client {
    const id: int
    /** Everything written to the network stream so far. */
    var sent: seq<byte>
    /** The callback events raised so far. */
    var events: seq<Event>
    var running: bool
    var closed: bool

    /** CommonConstructor: the id is the counter after its increment, so consecutive clients
        get consecutive, strictly increasing ids, the first one 1. */
    constructor (ids: IdSource)
      modifies ids
      ensures ids.nextId == old(ids.nextId) + 1 && id == ids.nextId
      ensures sent == [] && events == [] && !running && !closed
    {
      var next := ids.Increment();
      id := next;
      sent := [];
      events := [];
      running := false;
      closed := false;
    }

    method Dispose()
      modifies this
      ensures !running && closed && sent == old(sent) && events == old(events)
    {
      running := false;
      closed := true;
    }

    /** Send: Encoding.UTF8.GetBytes(null) throws ArgumentNullException("s") and the Length of
        a null body stream NullReferenceException, both before anything is written; after
        Dispose the first Stream.Write fails with IOException and nothing reaches the stream.
        Otherwise the header, the meta bytes, then the body copied through a buffer of
        min(BodySize, 4096) bytes until a read yields nothing. */
    method Send(meta: Option<seq<byte>>, body: Option<seq<byte>>, bodyPosition: nat)
      returns (r: Outcome<Exception>, ghost chunks: seq<seq<byte>>)
      requires body.Some? ==> |body.value| < TwoTo63
      modifies this
      ensures meta.None? ==> r == Fail(ArgumentNull("s"))
      ensures meta.Some? && body.None? ==> r == Fail(NullReference)
      ensures meta.Some? && body.Some? && closed ==> r == Fail(IOError)
      ensures r.Pass? <==> meta.Some? && body.Some? && !closed
      ensures r.Fail? ==> sent == old(sent) && chunks == []
      ensures r.Pass? ==> sent == old(sent) + Frame(meta.value, body.value, bodyPosition)
                          && Flatten(chunks) == Remaining(body.value, bodyPosition)
                          && forall i :: 0 <= i < |chunks| ==> 0 < |chunks[i]| <= Min(|body.value|, ChunkSize)
      ensures events == old(events) && running == old(running) && closed == old(closed)
    {
      chunks := [];
      if meta.None? {
        return Fail(ArgumentNull("s")), chunks;
      }
      if body.None? {
        return Fail(NullReference), chunks;
      }
      var headerBytes := BuildHeader(meta.value, body.value);
      if closed {
        return Fail(IOError), chunks;
      }
      sent := sent + headerBytes;
      sent := sent + meta.value;
      var buffer := new byte[Min(|body.value|, ChunkSize)];
      chunks := CopyBody(body.value, Min(bodyPosition, |body.value|), buffer);
      assert body.value[Min(bodyPosition, |body.value|)..] == Remaining(body.value, bodyPosition);
      r := Pass;
    }

    /** The copy loop of Send: read the body from `start` into `buffer` and write what was read,
        until a read yields nothing. */
    method CopyBody(body: seq<byte>, start: nat, buffer: array<byte>) returns (ghost chunks: seq<seq<byte>>)
      requires start <= |body| && (buffer.Length > 0 || start == |body|)
      modifies this, buffer
      ensures sent == old(sent) + body[start..]
      ensures Flatten(chunks) == body[start..]
      ensures forall i :: 0 <= i < |chunks| ==> 0 < |chunks[i]| <= buffer.Length
      ensures buffer.Length == 0 ==> chunks == []
      ensures events == old(events) && running == old(running) && closed == old(closed)
    {
      var position := start;
      chunks := [];
      while true
        invariant start <= position <= |body|
        invariant sent == old(sent) + body[start..position]
        invariant Flatten(chunks) == body[start..position]
        invariant forall i :: 0 <= i < |chunks| ==> 0 < |chunks[i]| <= buffer.Length
        invariant buffer.Length == 0 ==> chunks == []
        invariant events == old(events) && running == old(running) && closed == old(closed)
        decreases |body| - position
      {
        var bytesRead := Min(buffer.Length, |body| - position);
        if bytesRead == 0 {
          break;
        }
        CopyChunk(buffer, body, position, bytesRead);
        ghost var chunk := body[position..position + bytesRead];
        sent := sent + buffer[..bytesRead];
        chunks := chunks + [buffer[..bytesRead]];
        assert body[start..position + bytesRead] == body[start..position] + chunk;
        position := position + bytesRead;
      }
    }

    /** The header Send writes first: a fresh MessageHeader with MetaSize and BodySize set. */
    static method BuildHeader(meta: seq<byte>, body: seq<byte>) returns (headerBytes: seq<byte>)
      requires |body| < TwoTo63
      ensures headerBytes == Serialize(SendHeader(meta, body))
    {
      var header := new MessageHeader();
      header.metaSize := |meta| % 0x1_0000;
      header.bodySize := |body|;
      var bytes := header.SerializeHeader();
      assert header.Value() == SendHeader(meta, body);
      headerBytes := bytes[..];
    }

    /** body.Read into the front of the buffer. */
    static method CopyChunk(buffer: array<byte>, body: seq<byte>, position: nat, count: nat)
      requires count <= buffer.Length && position + count <= |body|
      modifies buffer
      ensures buffer[..count] == body[position..position + count]
    {
      for i := 0 to count
        invariant forall j :: 0 <= j < i ==> buffer[j] == body[position + j]
      {
        buffer[i] := body[position + i];
      }
    }

    /** One pass of the DoReadState loop body over the unread input: read up to 18 header
        bytes into the zero-filled buffer (none means the peer closed), decode the header (a
        failure leaves the loop), read up to MetaSize meta bytes, and hand the rest of the stream
        to the handler, which reads the body. */
    static method ReadFrame(rest: seq<byte>) returns (stop: bool, event: Event, consumed: nat)
      ensures stop <==> FrameStep(rest).None?
      ensures !stop ==> FrameStep(rest) == Some((event, consumed))
    {
      // read header
      var bytesReceived := Min(BinarySize, |rest|);
      if bytesReceived == 0 {
        return true, Stopped, 0;
      }
      var receiveBuffer := new byte[ReceiveBufferSize](_ => 0);
      for i := 0 to bytesReceived
        invariant forall j :: 0 <= j < i ==> receiveBuffer[j] == rest[j]
        invariant forall j :: i <= j < ReceiveBufferSize ==> receiveBuffer[j] == 0
      {
        receiveBuffer[i] := rest[i];
      }
      HeaderViewBytes(rest);
      assert receiveBuffer[..][..14] == HeaderView(rest)[..14];
      DeserializeFirstFourteen(receiveBuffer[..], HeaderView(rest));
      var decoded := Deserialize(receiveBuffer[..]);
      assert decoded == HeaderOf(rest);
      if decoded.Failure? {
        return true, Stopped, 0;
      }
      var header := decoded.value;
      // read the meta data
      var metaReceived := Min(header.metaSize, |rest| - bytesReceived);
      var meta := rest[bytesReceived..bytesReceived + metaReceived];
      // the handler reads the body from the stream
      var bodyStart := bytesReceived + metaReceived;
      var bodyRead := Min(header.bodySize, |rest| - bodyStart);
      event := Received(meta, header.bodySize, rest[bodyStart..bodyStart + bodyRead]);
      consumed := bodyStart + bodyRead;
      stop := false;
      assert (event, consumed) == Deliver(rest, header);
    }

    /** Start followed by DoReadState on `input`, the bytes the peer sends before closing.
        Running is set and nothing in DoReadState clears it. After Dispose the first read on the
        closed socket throws, the loop leaves at once, and only the start and stop callbacks run. */
    method Start(input: seq<byte>)
      modifies this
      ensures running
      ensures events == old(events) + Trace(if closed then [] else input)
      ensures sent == old(sent) && closed == old(closed)
    {
      running := true;
      events := events + [Started];
      var received := [];
      if !closed {
        received := ReadLoop(input);
      }
      ReadFramesReceived([]);
      events := events + received;
      events := events + [Stopped];
    }

    /** The `while (Running)` loop of DoReadState over the whole input: the events it raises,
        in order, until a header read yields nothing or a header does not decode. */
    static method ReadLoop(input: seq<byte>) returns (received: seq<Event>)
      ensures received == ReadFrames(input)
    {
      var position := 0;
      received := [];
      while true
        invariant ReadSoFar(input, position, received)
        decreases |input| - position
      {
        var stop, position', received' := ReadPass(input, position, received);
        if stop {
          break;
        }
        received, position := received', position';
      }
    }

    /** One pass of the loop body at `position`: either the loop leaves with every event raised,
        or it moves past one delivered frame. */
    static method ReadPass(input: seq<byte>, position: nat, received: seq<Event>)
      returns (stop: bool, position': nat, received': seq<Event>)
      requires ReadSoFar(input, position, received)
      ensures stop ==> ReadFrames(input) == received
      ensures !stop ==> position < position' && ReadSoFar(input, position', received')
    {
      var event, consumed;
      stop, event, consumed := ReadFrame(input[position..]);
      if stop {
        ReadFramesDone(input, position, received);
        return true, position, received;
      }
      stop, position', received' := false, position + consumed, received + [event];
      ReadFramesAdvance(input, position, received, event, consumed);
    }
  }
}
