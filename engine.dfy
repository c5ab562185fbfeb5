/** One socket of the server in src/lib/net.ts: the `data` listener that
    answers the opening handshake and then decodes frames, and `send`.
    The connection is a class whose fields are what the listener and the
    socket keep between chunks; `ConnState` is the value of those fields and
    `Receive` / `SendStep` say what one call does to it. */
module Engine {
  import opened Wire
  import opened Http

  /** What the socket emits to the application. */
  datatype Event = Upgrade(headers: Headers, body: seq<byte>) | Message(data: seq<byte>)

  /** The frozen object defined as `socket.closeStat`. */
  datatype CloseStat = CloseStat(status: nat, reason: string)

  /** The fields of one connection: the frame buffer, the write-once
      `upgraded` property, `closeStat`, what was emitted, what was written, and
      whether `socket.end()` was called. */
  datatype ConnState = ConnState(
    buffer: seq<byte>,
    upgraded: bool,
    closeStat: Option<CloseStat>,
    events: seq<Event>,
    writes: seq<Written>,
    ended: bool)

  /** A fresh connection. */
  const Initial: ConnState := ConnState([], false, None, [], [], false)

  /** What the listener keeps true between chunks: nothing is emitted or
      buffered before the upgrade; after it the first event is the upgrade
      and every other event is a message. */
  predicate Valid(s: ConnState)
  {
    (!s.upgraded ==> s.events == [] && s.buffer == [] && s.closeStat == None)
    && (s.upgraded ==> |s.events| > 0 && s.events[0].Upgrade?
                       && forall i :: 1 <= i < |s.events| ==> s.events[i].Message?)
  }

  function Messages(ds: seq<seq<byte>>): (r: seq<Event>)
    ensures |r| == |ds| && forall i :: 0 <= i < |ds| ==> r[i] == Message(ds[i])
  {
    seq(|ds|, i requires 0 <= i < |ds| => Message(ds[i]))
  }

  // The opening handshake.

  /** `headers["Sec-WebSocket-Key"] || headers["Sec-Websocket-Key"]`, and
      `None` where that is falsy (missing or empty). */
  function WebSocketKey(h: Headers): (r: Option<string>)
    ensures r.Some? <==> (Lookup(h, "Sec-WebSocket-Key").Some? && Lookup(h, "Sec-WebSocket-Key").value != "")
                         || (Lookup(h, "Sec-Websocket-Key").Some? && Lookup(h, "Sec-Websocket-Key").value != "")
    ensures r.Some? ==> r.value != ""
    ensures r.Some? ==> r == if Lookup(h, "Sec-WebSocket-Key").Some? && Lookup(h, "Sec-WebSocket-Key").value != ""
                             then Lookup(h, "Sec-WebSocket-Key") else Lookup(h, "Sec-Websocket-Key")
  {
    var canonical := Lookup(h, "Sec-WebSocket-Key");
    var lower := Lookup(h, "Sec-Websocket-Key");
    if canonical.Some? && canonical.value != "" then canonical
    else if lower.Some? && lower.value != "" then lower
    else None
  }

  /** The answer to a request that does not ask for `Upgrade: websocket`:
      the redirect, then `socket.end()` from the write callback, whatever the
      write's outcome. */
  function Redirect(s: ConnState, headers: Headers): (r: ConnState)
    ensures r == s.(writes := r.writes, ended := true)
    ensures |r.writes| == |s.writes| + 1 && r.writes[..|s.writes|] == s.writes
    ensures r.writes[|s.writes|] == ResponseWrite(Found(Lookup(headers, ":path:")))
  {
    s.(writes := s.writes + [ResponseWrite(Found(Lookup(headers, ":path:")))], ended := true)
  }

  /** The answer to an upgrade request with a key: the 101 response; when
      its write succeeds, `upgraded` is defined and the request is emitted. */
  function Accept(s: ConnState, req: Request, key: string, writeSucceeds: bool, digest: string -> string): (r: ConnState)
    ensures r.buffer == s.buffer && r.closeStat == s.closeStat && r.ended == s.ended
    ensures r.writes == s.writes + [ResponseWrite(SwitchingProtocols(digest(key + MagicString)))]
    ensures r.upgraded <==> s.upgraded || writeSucceeds
    ensures r.events == if writeSucceeds then s.events + [Upgrade(req.headers, req.body)] else s.events
  {
    var written := s.(writes := s.writes + [ResponseWrite(SwitchingProtocols(digest(key + MagicString)))]);
    if writeSucceeds then written.(upgraded := true, events := s.events + [Upgrade(req.headers, req.body)])
    else written
  }

  /** A chunk on a connection that is not yet upgraded, given its parsed
      request. `digest` is base64 of SHA-1. An upgrade request without a
      usable key gets no answer at all. */
  function Handshake(s: ConnState, req: Request, writeSucceeds: bool, digest: string -> string): (r: ConnState)
    ensures r.buffer == s.buffer && r.closeStat == s.closeStat
    ensures r.writes == s.writes
            || (|r.writes| == |s.writes| + 1 && r.writes[..|s.writes|] == s.writes && r.writes[|s.writes|].ResponseWrite?)
    ensures r.upgraded != s.upgraded ==>
              writeSucceeds && Lookup(req.headers, "Upgrade") == Some("websocket") && WebSocketKey(req.headers).Some?
    ensures r.ended != s.ended ==> Lookup(req.headers, "Upgrade") != Some("websocket")
    ensures Lookup(req.headers, "Upgrade") != Some("websocket") ==>
              r == s.(writes := s.writes + [ResponseWrite(Found(Lookup(req.headers, ":path:")))], ended := true)
    ensures Lookup(req.headers, "Upgrade") == Some("websocket") && WebSocketKey(req.headers).Some? ==>
              r.writes == s.writes + [ResponseWrite(SwitchingProtocols(digest(WebSocketKey(req.headers).value + MagicString)))]
              && r.ended == s.ended && (r.upgraded <==> s.upgraded || writeSucceeds)
              && r.events == if writeSucceeds then s.events + [Upgrade(req.headers, req.body)] else s.events
  {
    if Lookup(req.headers, "Upgrade") != Some("websocket") then Redirect(s, req.headers)
    else match WebSocketKey(req.headers)
      case None => s
      case Some(key) => Accept(s, req, key, writeSucceeds, digest)
  }

  // Frames.

  /** Opcode, payload length and payload offset of the frame at the front of a buffer. */
  datatype FrameHead = FrameHead(opcode: nat, length: nat, start: nat)

  /** The header as the loop reads it: opcode `buf[0] & 0x0f`, base length
      `buf[1] & 0x7f`, 126 followed by a 16-bit length, 127 by a 32-bit one.
      `None` where readUInt16BE / readUInt32BE would read past the end and
      throw a RangeError. */
  function ReadHead(buf: seq<byte>): (r: Option<FrameHead>)
    requires |buf| >= 2
    ensures r.Some? ==> r.value.opcode == buf[0] % 16 && r.value.start <= |buf|
    ensures r.Some? ==> r.value.start == (if buf[1] % 128 == 126 then 4 else if buf[1] % 128 == 127 then 6 else 2)
    ensures r.None? <==> (buf[1] % 128 == 126 && |buf| < 4) || (buf[1] % 128 == 127 && |buf| < 6)
  {
    var base := buf[1] % 128;
    if base == 126 then
      if |buf| < 4 then None else Some(FrameHead(buf[0] % 16, BigEndian(buf[2..4]), 4))
    else if base == 127 then
      if |buf| < 6 then None else Some(FrameHead(buf[0] % 16, BigEndian(buf[2..6]), 6))
    else Some(FrameHead(buf[0] % 16, base, 2))
  }

  /** Where the frame ends: `subarray` clamps to the buffer's length. */
  function FrameEnd(buf: seq<byte>, h: FrameHead): nat
  {
    Min(h.start + 4 + h.length, |buf|)
  }

  /** The decoded payload: the bytes after the four mask bytes, each XOR-ed
      with `mask[i % 4]`, both subarrays clamped to the buffer. */
  function FramePayload(buf: seq<byte>, h: FrameHead): (r: seq<byte>)
    requires h.start <= |buf|
    ensures |r| == FrameEnd(buf, h) - Min(h.start + 4, |buf|)
  {
    Masked(buf[Min(h.start + 4, |buf|)..FrameEnd(buf, h)], buf[h.start..Min(h.start + 4, |buf|)])
  }

  /** What the frame loop did: the messages it emitted, the buffer it left,
      `closeStat`, and whether it threw. */
  datatype Drained = Drained(emitted: seq<seq<byte>>, rest: seq<byte>, closeStat: Option<CloseStat>, outcome: Outcome)

  function Prepend(ds: seq<seq<byte>>, d: Drained): Drained
  {
    d.(emitted := ds + d.emitted)
  }

  /** The frame loop on a buffer. It stops when fewer than 2 bytes are left or
      when fewer than `start + length` bytes are there (the four mask bytes are
      not counted). A close frame defines `closeStat` from its first two
      payload bytes and returns without consuming the frame; a close frame
      with fewer than two payload bytes throws a RangeError, and a second
      definition of `closeStat` a TypeError. Every other opcode is emitted as
      a message and consumed. */
  function Drain(buf: seq<byte>, cs: Option<CloseStat>, decode: seq<byte> -> string): (r: Drained)
    ensures |r.rest| <= |buf|
    ensures cs.Some? ==> r.closeStat == cs
    ensures r.closeStat != cs ==> r.outcome == Returned
    decreases |buf|
  {
    if |buf| < 2 then Drained([], buf, cs, Returned)
    else match ReadHead(buf)
      case None => Drained([], buf, cs, Threw(RangeError))
      case Some(h) =>
        if |buf| < h.start + h.length then Drained([], buf, cs, Returned)
        else
          var d := FramePayload(buf, h);
          if h.opcode == 8 then
            if |d| < 2 then Drained([], buf, cs, Threw(RangeError))
            else if cs.Some? then Drained([], buf, cs, Threw(TypeError))
            else Drained([], buf, Some(CloseStat(BigEndian(d[..2]), decode(d[2..]))), Returned)
          else Prepend([d], Drain(buf[FrameEnd(buf, h)..], cs, decode))
  }

  /** The result of one call: the new fields and how the call ended. */
  datatype Step = Step(state: ConnState, outcome: Outcome)

  /** One `data` event. With `allowHTTP` off the listener does nothing; before
      the upgrade the chunk is parsed as a request; after it the chunk is
      appended to the buffer and the frame loop runs. */
  function Receive(s: ConnState, chunk: seq<byte>, writeSucceeds: bool, allowHttp: bool,
                   decode: seq<byte> -> string, digest: string -> string): (r: Step)
    ensures !allowHttp ==> r == Step(s, Returned)
    ensures r.outcome.Threw? ==> s.upgraded
    ensures s.upgraded ==> r.state.upgraded && r.state.writes == s.writes && r.state.ended == s.ended
    ensures !s.upgraded ==> r.state.buffer == s.buffer && r.state.closeStat == s.closeStat
  {
    if !allowHttp then Step(s, Returned)
    else if !s.upgraded then Step(Handshake(s, Parse(chunk, decode, true), writeSucceeds, digest), Returned)
    else
      var d := Drain(s.buffer + chunk, s.closeStat, decode);
      Step(s.(buffer := d.rest, closeStat := d.closeStat, events := s.events + Messages(d.emitted)), d.outcome)
  }

  /** `send`: rejected before the upgrade without writing; otherwise one
      write of the server frame, resolved or rejected by its outcome. */
  function SendStep(s: ConnState, p: Payload, writeSucceeds: bool, utf8Encode: string -> seq<byte>): (r: (ConnState, SendResult))
    ensures r.0 == s.(writes := r.0.writes)
    ensures r.0.writes == s.writes || r.0.writes == s.writes + [BytesWrite(ServerFrame(SendOpcode(p), SendBytes(p, utf8Encode)))]
    ensures r.0.writes != s.writes <==> s.upgraded
    ensures r.1 == Resolved <==> s.upgraded && writeSucceeds
  {
    if !s.upgraded then (s, Rejected(NotReady))
    else
      (s.(writes := s.writes + [BytesWrite(ServerFrame(SendOpcode(p), SendBytes(p, utf8Encode)))]),
       if writeSucceeds then Resolved else Rejected(WriteFailed))
  }

  /** `decodedPayload[i] = payload[i] ^ mask[i % 4]` into a fresh buffer. */
  method Unmask(payload: seq<byte>, mask: seq<byte>) returns (decoded: seq<byte>)
    ensures decoded == Masked(payload, mask)
  {
    var out := new byte[|payload|];
    for i := 0 to |payload|
      invariant out[..i] == Masked(payload, mask)[..i]
    {
      out[i] := Xor(payload[i], MaskByte(mask, i));
    }
    decoded := out[..];
  }

  /** The header reads of one turn: `buffer[0] & 0x0f`, `buffer[1] & 0x7f`,
      then readUInt16BE(2) or readUInt32BE(2) for the extended lengths. */
  method ReadFrameHead(buf: seq<byte>) returns (head: Option<FrameHead>)
    requires |buf| >= 2
    ensures head == ReadHead(buf)
  {
    var opcode := buf[0] % 16;
    var length := buf[1] % 128;
    var start := 2;
    if length == 126 {
      if |buf| < 4 {
        return None;
      }
      length := BigEndian(buf[2..4]);
      start := 4;
    } else if length == 127 {
      if |buf| < 6 {
        return None;
      }
      length := BigEndian(buf[2..6]);
      start := 6;
    }
    return Some(FrameHead(opcode, length, start));
  }

  /** What one turn of the frame loop found at the front of the buffer. */
  datatype FrameStep = Wait | Fail(error: JsError) | Close(stat: CloseStat) | Frame(decoded: seq<byte>, next: seq<byte>)

  /** One turn of the frame loop on a buffer of at least two bytes: read the
      header, stop if the frame has not arrived, unmask the payload, then
      either define `closeStat` or hand back the message and the buffer after
      the frame. */
  method NextFrame(buf: seq<byte>, cs: Option<CloseStat>, decode: seq<byte> -> string) returns (step: FrameStep)
    requires |buf| >= 2
    ensures step.Wait? ==> Drain(buf, cs, decode) == Drained([], buf, cs, Returned)
    ensures step.Fail? ==> Drain(buf, cs, decode) == Drained([], buf, cs, Threw(step.error))
    ensures step.Close? ==> cs == None && Drain(buf, cs, decode) == Drained([], buf, Some(step.stat), Returned)
    ensures step.Frame? ==> (|step.next| < |buf|
                             && Drain(buf, cs, decode) == Prepend([step.decoded], Drain(step.next, cs, decode)))
  {
    var head := ReadFrameHead(buf);
    if head.None? {
      return Fail(RangeError);
    }
    var h := head.value;
    var opcode, length, start := h.opcode, h.length, h.start;
    if |buf| < start + length {
      return Wait;
    }
    var mask := buf[start..Min(start + 4, |buf|)];
    var payload := buf[Min(start + 4, |buf|)..Min(start + 4 + length, |buf|)];
    var decoded := Unmask(payload, mask);
    assert decoded == FramePayload(buf, h);
    if opcode == 8 {
      if |decoded| < 2 {
        return Fail(RangeError);
      }
      if cs.Some? {
        return Fail(TypeError);
      }
      return Close(CloseStat(BigEndian(decoded[..2]), decode(decoded[2..])));
    }
    return Frame(decoded, buf[Min(start + 4 + length, |buf|)..]);
  }

  lemma PrependAppend(a: seq<seq<byte>>, b: seq<seq<byte>>, d: Drained)
    ensures Prepend(a + b, d) == Prepend(a, Prepend(b, d))
  {
    assert a + b + d.emitted == a + (b + d.emitted);
  }

  /** What the loop leaves in the buffer is always the end of what it was
      given: frames are only ever consumed from the front. */
  lemma {:induction false} DrainRestIsSuffix(buf: seq<byte>, cs: Option<CloseStat>, decode: seq<byte> -> string)
    ensures var r := Drain(buf, cs, decode); r.rest == buf[|buf| - |r.rest|..]
    decreases |buf|
  {
    if |buf| >= 2 && ReadHead(buf).Some? {
      var h := ReadHead(buf).value;
      if |buf| >= h.start + h.length && h.opcode != 8 {
        var k := FrameEnd(buf, h);
        DrainRestIsSuffix(buf[k..], cs, decode);
        DrainConsumesFrame(buf, cs, decode);
        SuffixOfDrop(buf, k, |Drain(buf[k..], cs, decode).rest|);
      }
    }
  }

  /** A data frame the loop has all of is consumed, and the loop goes on
      with what follows it. */
  lemma DrainConsumesFrame(buf: seq<byte>, cs: Option<CloseStat>, decode: seq<byte> -> string)
    requires |buf| >= 2 && ReadHead(buf).Some?
    requires |buf| >= ReadHead(buf).value.start + ReadHead(buf).value.length && ReadHead(buf).value.opcode != 8
    ensures Drain(buf, cs, decode).rest == Drain(buf[FrameEnd(buf, ReadHead(buf).value)..], cs, decode).rest
  {
  }

  lemma SuffixOfDrop(buf: seq<byte>, k: nat, n: nat)
    requires k <= |buf| && n <= |buf| - k
    ensures buf[k..][|buf| - k - n..] == buf[|buf| - n..]
  {
  }

  /** The frame loop: `while (buffer.length >= 2)`, one frame per turn, the
      messages in the order they are emitted. */
  method RunFrames(buffer: seq<byte>, closeStat: Option<CloseStat>, decode: seq<byte> -> string) returns (d: Drained)
    ensures d == Drain(buffer, closeStat, decode)
  {
    var buf := buffer;
    var emitted: seq<seq<byte>> := [];
    while |buf| >= 2
      invariant Prepend(emitted, Drain(buf, closeStat, decode)) == Drain(buffer, closeStat, decode)
      decreases |buf|
    {
      var step := NextFrame(buf, closeStat, decode);
      match step
      case Wait =>
        break;
      case Fail(error) =>
        return Drained(emitted, buf, closeStat, Threw(error));
      case Close(stat) =>
        return Drained(emitted, buf, Some(stat), Returned);
      case Frame(decoded, next) =>
        PrependAppend(emitted, [decoded], Drain(next, closeStat, decode));
        emitted := emitted + [decoded];
        buf := next;
    }
    return Drained(emitted, buf, closeStat, Returned);
  }

  class Connection {
    const allowHttp: bool
    const decode: seq<byte> -> string
    const utf8Encode: string -> seq<byte>
    const digest: string -> string

    var buffer: seq<byte>
    var upgraded: bool
    var closeStat: Option<CloseStat>
    var events: seq<Event>
    var writes: seq<Written>
    var ended: bool

    function State(): ConnState
      reads this
    {
      ConnState(buffer, upgraded, closeStat, events, writes, ended)
    }

    constructor(allowHttp: bool, decode: seq<byte> -> string, utf8Encode: string -> seq<byte>, digest: string -> string)
      ensures State() == Initial
      ensures this.allowHttp == allowHttp && this.decode == decode
      ensures this.utf8Encode == utf8Encode && this.digest == digest
    {
      this.allowHttp := allowHttp;
      this.decode := decode;
      this.utf8Encode := utf8Encode;
      this.digest := digest;
      buffer := [];
      upgraded := false;
      closeStat := None;
      events := [];
      writes := [];
      ended := false;
    }

    /** The `data` listener. */
    method OnData(chunk: seq<byte>, writeSucceeds: bool) returns (outcome: Outcome)
      modifies this
      ensures Step(State(), outcome) == Receive(old(State()), chunk, writeSucceeds, allowHttp, decode, digest)
    {
      if !allowHttp {
        return Returned;
      }
      if !upgraded {
        AnswerHandshake(chunk, writeSucceeds);
        return Returned;
      }
      outcome := DecodeFrames(chunk);
    }

    /** The branch for a socket that is not yet upgraded. */
    method AnswerHandshake(chunk: seq<byte>, writeSucceeds: bool)
      requires !upgraded
      modifies this
      ensures State() == Handshake(old(State()), Parse(chunk, decode, true), writeSucceeds, digest)
    {
      var req := ParseChunk(chunk, decode, true);
      ghost var s0 := State();
      if Lookup(req.headers, "Upgrade") != Some("websocket") {
        writes := writes + [ResponseWrite(Found(Lookup(req.headers, ":path:")))];
        ended := true;
        return;
      }
      var key := WebSocketKey(req.headers);
      if key.None? {
        return;
      }
      ghost var written := s0.(writes := s0.writes + [ResponseWrite(SwitchingProtocols(digest(key.value + MagicString)))]);
      assert Handshake(s0, req, writeSucceeds, digest)
          == if writeSucceeds then written.(upgraded := true, events := s0.events + [Upgrade(req.headers, req.body)])
             else written;
      writes := writes + [ResponseWrite(SwitchingProtocols(digest(key.value + MagicString)))];
      if writeSucceeds {
        upgraded := true;
        events := events + [Upgrade(req.headers, req.body)];
      }
    }

    /** The branch for an upgraded socket: append the chunk, run the frame
        loop, keep what is left of the buffer. */
    method DecodeFrames(chunk: seq<byte>) returns (outcome: Outcome)
      requires upgraded
      modifies this
      ensures var d := Drain(old(buffer) + chunk, old(closeStat), decode);
        State() == old(State()).(buffer := d.rest, closeStat := d.closeStat, events := old(events) + Messages(d.emitted))
        && outcome == d.outcome
    {
      buffer := buffer + chunk;
      var d := RunFrames(buffer, closeStat, decode);
      buffer, closeStat, events := d.rest, d.closeStat, events + Messages(d.emitted);
      outcome := d.outcome;
    }

    /** `send`. The frame is built in a fresh buffer of length + 2 bytes. */
    method Send(p: Payload, writeSucceeds: bool) returns (r: SendResult)
      modifies this
      ensures (State(), r) == SendStep(old(State()), p, writeSucceeds, utf8Encode)
    {
      if !upgraded {
        return Rejected(NotReady);
      }
      var opcode := SendOpcode(p);
      var bytes := SendBytes(p, utf8Encode);
      var frame := BuildFrame(opcode, bytes);
      writes := writes + [BytesWrite(frame)];
      r := if writeSucceeds then Resolved else Rejected(WriteFailed);
    }
  }

  // Properties of one data event.

  lemma RedirectPreservesValid(s: ConnState, headers: Headers)
    requires Valid(s) && !s.upgraded
    ensures var r := Redirect(s, headers);
      Valid(r) && |s.writes| <= |r.writes| && r.writes[..|s.writes|] == s.writes
  {
    var r := Redirect(s, headers);
    var w := ResponseWrite(Found(Lookup(headers, ":path:")));
    assert r.writes == s.writes + [w];
    assert (s.writes + [w])[..|s.writes|] == s.writes;
  }

  lemma AcceptPreservesValid(s: ConnState, req: Request, key: string, writeSucceeds: bool, digest: string -> string)
    requires Valid(s) && !s.upgraded
    ensures var r := Accept(s, req, key, writeSucceeds, digest);
      Valid(r) && |s.writes| <= |r.writes| && r.writes[..|s.writes|] == s.writes
  {
    var r := Accept(s, req, key, writeSucceeds, digest);
    var w := ResponseWrite(SwitchingProtocols(digest(key + MagicString)));
    assert r.writes == s.writes + [w];
    assert (s.writes + [w])[..|s.writes|] == s.writes;
    if writeSucceeds {
      assert r.events == s.events + [Upgrade(req.headers, req.body)];
      assert r.events == [Upgrade(req.headers, req.body)];
      assert |r.events| == 1 && r.events[0].Upgrade?;
    }
  }

  lemma HandshakePreservesValid(s: ConnState, req: Request, writeSucceeds: bool, digest: string -> string)
    requires Valid(s) && !s.upgraded
    ensures var r := Handshake(s, req, writeSucceeds, digest);
      Valid(r) && |s.writes| <= |r.writes| && r.writes[..|s.writes|] == s.writes
  {
    if Lookup(req.headers, "Upgrade") != Some("websocket") {
      assert Handshake(s, req, writeSucceeds, digest) == Redirect(s, req.headers);
      RedirectPreservesValid(s, req.headers);
    } else if WebSocketKey(req.headers).Some? {
      var key := WebSocketKey(req.headers).value;
      assert Handshake(s, req, writeSucceeds, digest) == Accept(s, req, key, writeSucceeds, digest);
      AcceptPreservesValid(s, req, key, writeSucceeds, digest);
    } else {
      assert Handshake(s, req, writeSucceeds, digest) == s;
    }
  }

  lemma DrainPreservesValid(s: ConnState, chunk: seq<byte>, decode: seq<byte> -> string)
    requires Valid(s) && s.upgraded
    ensures var d := Drain(s.buffer + chunk, s.closeStat, decode);
      Valid(s.(buffer := d.rest, closeStat := d.closeStat, events := s.events + Messages(d.emitted)))
  {
    var d := Drain(s.buffer + chunk, s.closeStat, decode);
    var events := s.events + Messages(d.emitted);
    forall i | 1 <= i < |events|
      ensures events[i].Message?
    {
      if i >= |s.events| {
        assert events[i] == Messages(d.emitted)[i - |s.events|];
      }
    }
  }

  /** The listener keeps `Valid`; `upgraded` is written once; the write log
      only grows, and after the upgrade incoming data never writes. */
  lemma ReceivePreservesValid(s: ConnState, chunk: seq<byte>, writeSucceeds: bool, allowHttp: bool,
                              decode: seq<byte> -> string, digest: string -> string)
    requires Valid(s)
    ensures var r := Receive(s, chunk, writeSucceeds, allowHttp, decode, digest).state;
      Valid(r)
      && (s.upgraded ==> r.upgraded && r.writes == s.writes)
      && |s.writes| <= |r.writes| && r.writes[..|s.writes|] == s.writes
  {
    if allowHttp {
      if s.upgraded {
        DrainPreservesValid(s, chunk, decode);
      } else {
        HandshakePreservesValid(s, Parse(chunk, decode, true), writeSucceeds, digest);
      }
    }
  }

  /** The chunk that carries the handshake is never decoded as frames, and
      before the upgrade nothing is emitted but the upgrade itself. */
  lemma HandshakeChunkNotFramed(s: ConnState, chunk: seq<byte>, writeSucceeds: bool,
                                decode: seq<byte> -> string, digest: string -> string)
    requires Valid(s) && !s.upgraded
    ensures var r := Receive(s, chunk, writeSucceeds, true, decode, digest);
      r.outcome == Returned && r.state.buffer == [] && r.state.closeStat == None
      && (r.state.upgraded ==> r.state.events == [Upgrade(Parse(chunk, decode, true).headers, Parse(chunk, decode, true).body)])
      && (!r.state.upgraded ==> r.state.events == [])
  {
  }

  /** A chunk shorter than 4 bytes parses to no headers: the server answers
      with the redirect to ".../undefined" and ends the socket. */
  lemma ShortChunkRedirects(s: ConnState, chunk: seq<byte>, writeSucceeds: bool,
                            decode: seq<byte> -> string, digest: string -> string)
    requires !s.upgraded && |chunk| < 4
    ensures Receive(s, chunk, writeSucceeds, true, decode, digest)
         == Step(s.(writes := s.writes + [ResponseWrite(Found(None))], ended := true), Returned)
  {
  }

  /** Any chunk before the upgrade that does not ask for `Upgrade: websocket`
      is answered with the redirect to the request's path and ends the
      socket, whatever the write's outcome; nothing is upgraded or emitted. */
  lemma NonUpgradeRedirected(s: ConnState, chunk: seq<byte>, writeSucceeds: bool,
                             decode: seq<byte> -> string, digest: string -> string)
    requires !s.upgraded
    requires Lookup(Parse(chunk, decode, true).headers, "Upgrade") != Some("websocket")
    ensures var r := Receive(s, chunk, writeSucceeds, true, decode, digest);
      r.outcome == Returned && r.state.ended && !r.state.upgraded && r.state.events == s.events
      && r.state.writes == s.writes + [ResponseWrite(Found(Lookup(Parse(chunk, decode, true).headers, ":path:")))]
      && r.state.buffer == s.buffer && r.state.closeStat == s.closeStat
  {
  }

  /** Any upgrade request before the upgrade without a usable key (neither
      spelling holds a non-empty string) gets no answer: nothing is written,
      the socket is not ended, not upgraded, and emits nothing. */
  lemma KeylessUpgradeIgnored(s: ConnState, chunk: seq<byte>, writeSucceeds: bool,
                              decode: seq<byte> -> string, digest: string -> string)
    requires !s.upgraded
    requires var h := Parse(chunk, decode, true).headers;
      Lookup(h, "Upgrade") == Some("websocket")
      && (Lookup(h, "Sec-WebSocket-Key").None? || Lookup(h, "Sec-WebSocket-Key") == Some(""))
      && (Lookup(h, "Sec-Websocket-Key").None? || Lookup(h, "Sec-Websocket-Key") == Some(""))
    ensures Receive(s, chunk, writeSucceeds, true, decode, digest) == Step(s, Returned)
  {
  }

  /** Any upgrade request before the upgrade with a usable key `k` is
      answered with the 101 response carrying the digest of `k` and the GUID;
      the socket is upgraded and emits the request's headers and body exactly
      when that write succeeds, and is never ended. */
  lemma KeyedUpgradeAnswered(s: ConnState, chunk: seq<byte>, writeSucceeds: bool, k: string,
                             decode: seq<byte> -> string, digest: string -> string)
    requires Valid(s) && !s.upgraded
    requires var h := Parse(chunk, decode, true).headers;
      Lookup(h, "Upgrade") == Some("websocket") && WebSocketKey(h) == Some(k)
    ensures var req := Parse(chunk, decode, true);
      Receive(s, chunk, writeSucceeds, true, decode, digest)
        == Step(s.(writes := s.writes + [ResponseWrite(SwitchingProtocols(digest(k + MagicString)))],
                   upgraded := writeSucceeds,
                   events := if writeSucceeds then [Upgrade(req.headers, req.body)] else []), Returned)
  {
  }

  /** The headers of a request line followed by `Upgrade: websocket` only. */
  lemma UpgradeHeadersWithoutKey(requestLine: seq<byte>, upgrade: seq<byte>, decode: seq<byte> -> string)
    requires decode(upgrade) == "Upgrade: websocket"
    ensures var h := StoreLines(map[], [requestLine, upgrade], true, decode, true);
      Lookup(h, "Upgrade") == Some("websocket") && WebSocketKey(h) == None
  {
    var h1 := StoreRequestLine(map[], decode(requestLine), true);
    assert h1.Keys == {":method:", ":path:", ":protocol:"};
    UpgradeLine(h1, decode(upgrade));
    var h2 := h1["Upgrade" := Some("websocket")];
    assert h2.Keys == {":method:", ":path:", ":protocol:", "Upgrade"};
    assert StoreLines(map[], [requestLine, upgrade], true, decode, true) == StoreLines(h1, [upgrade], false, decode, true) by {
      assert [requestLine, upgrade][1..] == [upgrade];
    }
    assert StoreLines(h1, [upgrade], false, decode, true) == h2 by {
      assert [upgrade][1..] == [];
    }
    assert "Sec-WebSocket-Key" !in h2 && "Sec-Websocket-Key" !in h2;
  }

  /** A request of four lines, `Upgrade: websocket` second and the key third,
      is answered with the 101 response carrying the digest of the key and
      the GUID; if that write succeeds the socket is upgraded and emits the
      request's headers and the bytes after the blank line. */
  lemma UpgradeRequestAccepted(s: ConnState, requestLine: seq<byte>, upgrade: seq<byte>, keyLine: seq<byte>,
                               last: seq<byte>, key: string, body: seq<byte>,
                               decode: seq<byte> -> string, digest: string -> string)
    requires Valid(s) && !s.upgraded
    requires WellFormedLines([requestLine, upgrade, keyLine, last])
    requires decode(upgrade) == "Upgrade: websocket"
    requires decode(keyLine) == "Sec-WebSocket-Key: " + key && key != "" && NoSep(key, ": ")
    ensures var chunk := JoinLines([requestLine, upgrade, keyLine, last]) + [13, 10] + body;
      var headers := StoreLines(map[], [requestLine, upgrade, keyLine], true, decode, true);
      Receive(s, chunk, true, true, decode, digest)
        == Step(s.(writes := s.writes + [ResponseWrite(SwitchingProtocols(digest(key + MagicString)))],
                   upgraded := true, events := [Upgrade(headers, body)]), Returned)
  {
    var ls := [requestLine, upgrade, keyLine, last];
    var chunk := JoinLines(ls) + [13, 10] + body;
    var headers := StoreLines(map[], [requestLine, upgrade, keyLine], true, decode, true);
    ParseOfJoinedLines(ls, body, decode, true);
    assert ls[..3] == [requestLine, upgrade, keyLine];
    var req := Parse(chunk, decode, true);
    assert req == Request(headers, body);
    UpgradeHeaders(requestLine, upgrade, keyLine, key, decode, true);
    assert WebSocketKey(headers) == Some(key);
    assert Handshake(s, req, true, digest) == Accept(s, req, key, true, digest);
  }

  /** The same request with the key as the last line before the blank line:
      that line is never stored, so there is no key, nothing is written and
      the socket waits. */
  lemma KeyOnLastLineIgnored(s: ConnState, requestLine: seq<byte>, upgrade: seq<byte>, keyLine: seq<byte>,
                             key: string, body: seq<byte>, writeSucceeds: bool,
                             decode: seq<byte> -> string, digest: string -> string)
    requires Valid(s) && !s.upgraded
    requires WellFormedLines([requestLine, upgrade, keyLine])
    requires decode(upgrade) == "Upgrade: websocket"
    requires decode(keyLine) == "Sec-WebSocket-Key: " + key
    ensures var chunk := JoinLines([requestLine, upgrade, keyLine]) + [13, 10] + body;
      Receive(s, chunk, writeSucceeds, true, decode, digest) == Step(s, Returned)
  {
    var ls := [requestLine, upgrade, keyLine];
    ParseOfJoinedLines(ls, body, decode, true);
    assert ls[..2] == [requestLine, upgrade];
    UpgradeHeadersWithoutKey(requestLine, upgrade, decode);
  }

  // Frames written by a client.

  /** The loop reads the header of a client frame of fewer than 65536 bytes
      correctly, and decodes its payload exactly. */
  lemma ClientFrameHead(fin: bool, opcode: byte, mask: seq<byte>, payload: seq<byte>, rest: seq<byte>)
    requires opcode < 16 && |mask| == 4 && |payload| < 65536
    ensures var buf := ClientFrame(fin, opcode, mask, payload) + rest;
      var h := FrameHead(opcode, |payload|, HeaderSize(|payload|));
      ReadHead(buf) == Some(h) && FrameEnd(buf, h) == h.start + 4 + h.length
      && FramePayload(buf, h) == payload && buf[FrameEnd(buf, h)..] == rest
  {
    Pow256Small();
    var n := |payload|;
    var buf := ClientFrame(fin, opcode, mask, payload) + rest;
    var h := FrameHead(opcode, n, HeaderSize(n));
    ClientFrameLayout(fin, opcode, mask, payload, rest);
    if 126 <= n {
      assert buf[2..4] == LengthField(n)[1..];
      BigEndianRoundTrip(n, 2);
    } else {
      assert buf[1] == LengthField(n)[0];
    }
    assert ReadHead(buf) == Some(h);
    MaskedTwice(payload, mask);
  }

  /** A data frame of fewer than 65536 bytes followed by anything: the loop
      emits exactly its payload, then goes on with what follows. */
  lemma DrainClientFrame(fin: bool, opcode: byte, mask: seq<byte>, payload: seq<byte>, rest: seq<byte>,
                         cs: Option<CloseStat>, decode: seq<byte> -> string)
    requires opcode < 16 && opcode != 8 && |mask| == 4 && |payload| < 65536
    ensures Drain(ClientFrame(fin, opcode, mask, payload) + rest, cs, decode) == Prepend([payload], Drain(rest, cs, decode))
  {
    ClientFrameHead(fin, opcode, mask, payload, rest);
  }

  /** A close frame: without a status (fewer than two payload bytes)
      readUInt16BE throws a RangeError; otherwise the first definition of
      `closeStat` holds the status and the decoded reason and the frame stays
      in the buffer, and with `closeStat` already defined the listener throws
      a TypeError. */
  lemma DrainClientClose(fin: bool, mask: seq<byte>, payload: seq<byte>, rest: seq<byte>,
                         cs: Option<CloseStat>, decode: seq<byte> -> string)
    requires |mask| == 4 && |payload| < 65536
    ensures var buf := ClientFrame(fin, 8, mask, payload) + rest;
      Drain(buf, cs, decode)
        == if |payload| < 2 then Drained([], buf, cs, Threw(RangeError))
           else if cs.None? then Drained([], buf, Some(CloseStat(BigEndian(payload[..2]), decode(payload[2..]))), Returned)
           else Drained([], buf, cs, Threw(TypeError))
  {
    ClientFrameHead(fin, 8, mask, payload, rest);
  }

  /** Data frames a client may send in one go: not a close frame, a 4-byte
      mask, fewer than 65536 bytes. */
  datatype ClientMessage = ClientMessage(fin: bool, opcode: byte, mask: seq<byte>, payload: seq<byte>)

  predicate DataMessage(m: ClientMessage)
  {
    m.opcode < 16 && m.opcode != 8 && |m.mask| == 4 && |m.payload| < 65536
  }

  function ClientStream(ms: seq<ClientMessage>): seq<byte>
    requires forall i :: 0 <= i < |ms| ==> DataMessage(ms[i])
  {
    if ms == [] then []
    else
      assert DataMessage(ms[0]);
      ClientFrame(ms[0].fin, ms[0].opcode, ms[0].mask, ms[0].payload) + ClientStream(ms[1..])
  }

  function Payloads(ms: seq<ClientMessage>): (r: seq<seq<byte>>)
    ensures |r| == |ms| && forall i :: 0 <= i < |ms| ==> r[i] == ms[i].payload
  {
    seq(|ms|, i requires 0 <= i < |ms| => ms[i].payload)
  }

  /** Any sequence of such frames in one buffer is decoded into exactly their
      payloads, in order, leaving nothing behind. */
  lemma {:induction false} DrainClientStream(ms: seq<ClientMessage>, cs: Option<CloseStat>, decode: seq<byte> -> string)
    requires forall i :: 0 <= i < |ms| ==> DataMessage(ms[i])
    ensures Drain(ClientStream(ms), cs, decode) == Drained(Payloads(ms), [], cs, Returned)
    decreases |ms|
  {
    if ms != [] {
      var m := ms[0];
      assert DataMessage(m);
      var tail := ClientStream(ms[1..]);
      assert ClientStream(ms) == ClientFrame(m.fin, m.opcode, m.mask, m.payload) + tail;
      DrainClientFrame(m.fin, m.opcode, m.mask, m.payload, tail, cs, decode);
      DrainClientStream(ms[1..], cs, decode);
      assert [m.payload] + Payloads(ms[1..]) == Payloads(ms);
    }
  }

  /** On an upgraded socket with an empty buffer, a chunk carrying such
      frames emits one message per frame, byte for byte, and writes nothing. */
  lemma ReceiveClientStream(s: ConnState, ms: seq<ClientMessage>, writeSucceeds: bool,
                            decode: seq<byte> -> string, digest: string -> string)
    requires s.upgraded && s.buffer == []
    requires forall i :: 0 <= i < |ms| ==> DataMessage(ms[i])
    ensures Receive(s, ClientStream(ms), writeSucceeds, true, decode, digest)
         == Step(s.(events := s.events + Messages(Payloads(ms))), Returned)
  {
    DrainClientStream(ms, s.closeStat, decode);
    ReceiveDrained(s, ClientStream(ms), Payloads(ms), writeSucceeds, decode, digest);
  }

  /** After the upgrade, a chunk that the frame loop consumes whole, emitting
      `ds`, leaves only the messages of `ds` behind. */
  lemma ReceiveDrained(s: ConnState, chunk: seq<byte>, ds: seq<seq<byte>>, writeSucceeds: bool,
                       decode: seq<byte> -> string, digest: string -> string)
    requires s.upgraded && s.buffer == []
    requires Drain(chunk, s.closeStat, decode) == Drained(ds, [], s.closeStat, Returned)
    ensures Receive(s, chunk, writeSucceeds, true, decode, digest) == Step(s.(events := s.events + Messages(ds)), Returned)
  {
    assert s.buffer + chunk == chunk;
  }

  /** A frame that arrives in two chunks, cut either inside its first two
      bytes or after its header but before the last payload byte (the mask
      bytes not counted): the first chunk is kept, the second completes the
      frame and its payload is emitted. */
  lemma ClientFrameInTwoChunks(s: ConnState, fin: bool, opcode: byte, mask: seq<byte>, payload: seq<byte>, k: nat,
                               w1: bool, w2: bool, decode: seq<byte> -> string, digest: string -> string)
    requires s.upgraded && s.buffer == []
    requires opcode < 16 && opcode != 8 && |mask| == 4 && |payload| < 65536
    requires k < 2 || HeaderSize(|payload|) <= k < HeaderSize(|payload|) + |payload|
    ensures var f := ClientFrame(fin, opcode, mask, payload);
      var first := Receive(s, f[..k], w1, true, decode, digest);
      first == Step(s.(buffer := f[..k]), Returned)
      && Receive(first.state, f[k..], w2, true, decode, digest)
         == Step(s.(events := s.events + [Message(payload)]), Returned)
  {
    var f := ClientFrame(fin, opcode, mask, payload);
    assert s.buffer + f[..k] == f[..k];
    if k >= 2 {
      CutHead(fin, opcode, mask, payload, k);
    }
    assert Drain(f[..k], s.closeStat, decode) == Drained([], f[..k], s.closeStat, Returned);
    assert f[..k] + f[k..] == f;
    WholeClientFrame(fin, opcode, mask, payload, s.closeStat, decode);
  }

  /** A buffer holding exactly one data frame gives its payload and is emptied. */
  lemma WholeClientFrame(fin: bool, opcode: byte, mask: seq<byte>, payload: seq<byte>,
                         cs: Option<CloseStat>, decode: seq<byte> -> string)
    requires opcode < 16 && opcode != 8 && |mask| == 4 && |payload| < 65536
    ensures Drain(ClientFrame(fin, opcode, mask, payload), cs, decode) == Drained([payload], [], cs, Returned)
  {
    var f := ClientFrame(fin, opcode, mask, payload);
    assert f + [] == f;
    DrainClientFrame(fin, opcode, mask, payload, [], cs, decode);
  }

  /** The header of a buffer that already holds it is the same once more
      bytes arrive. */
  lemma ReadHeadPrefix(buf: seq<byte>, more: seq<byte>)
    requires |buf| >= 2 && ReadHead(buf).Some?
    ensures ReadHead(buf + more) == ReadHead(buf)
  {
    var b := buf + more;
    assert b[0] == buf[0] && b[1] == buf[1];
    if buf[1] % 128 == 126 {
      assert b[2..4] == buf[2..4];
    } else if buf[1] % 128 == 127 {
      assert b[2..6] == buf[2..6];
    }
  }

  /** The header of a client frame of fewer than 65536 bytes is read from
      its first bytes alone. */
  lemma HeadOfClientFrame(fin: bool, opcode: byte, n: nat, buf: seq<byte>)
    requires opcode < 16 && n < 65536
    requires |buf| >= HeaderSize(n) && buf[..HeaderSize(n)] == [FirstByte(fin, opcode)] + LengthField(n)
    ensures ReadHead(buf) == Some(FrameHead(opcode, n, HeaderSize(n)))
  {
    Pow256Small();
    assert buf[0] == FirstByte(fin, opcode) && buf[1] == LengthField(n)[0];
    if 126 <= n {
      assert buf[2..4] == LengthField(n)[1..];
      BigEndianRoundTrip(n, 2);
    }
  }

  /** The first `k` bytes of a client frame, when they hold its header. */
  lemma CutHead(fin: bool, opcode: byte, mask: seq<byte>, payload: seq<byte>, k: nat)
    requires opcode < 16 && |mask| == 4 && |payload| < 65536
    requires HeaderSize(|payload|) <= k <= HeaderSize(|payload|) + 4 + |payload|
    ensures ReadHead(ClientFrame(fin, opcode, mask, payload)[..k])
         == Some(FrameHead(opcode, |payload|, HeaderSize(|payload|)))
  {
    var n := |payload|;
    var head := [FirstByte(fin, opcode)] + LengthField(n);
    var f := ClientFrame(fin, opcode, mask, payload);
    assert f == head + (mask + Masked(payload, mask));
    assert f[..k][..HeaderSize(n)] == head;
    HeadOfClientFrame(fin, opcode, n, f[..k]);
  }

  /** What the loop reads from a client frame cut after `k` bytes, when the
      header is complete. */
  lemma CutFrame(fin: bool, opcode: byte, mask: seq<byte>, payload: seq<byte>, k: nat)
    requires opcode < 16 && |mask| == 4 && |payload| < 65536
    requires HeaderSize(|payload|) <= k <= HeaderSize(|payload|) + 4 + |payload|
    ensures var hs := HeaderSize(|payload|);
      var cut := ClientFrame(fin, opcode, mask, payload)[..k];
      var h := FrameHead(opcode, |payload|, hs);
      var got := if k >= hs + 4 then k - hs - 4 else 0;
      ReadHead(cut) == Some(h) && FrameEnd(cut, h) == Min(hs + 4 + |payload|, k)
      && (k >= hs + |payload| ==> FramePayload(cut, h) == payload[..got])
  {
    CutHead(fin, opcode, mask, payload, k);
    if k >= HeaderSize(|payload|) + |payload| {
      CutFramePayload(fin, opcode, mask, payload, k);
    }
  }

  lemma CutFramePayload(fin: bool, opcode: byte, mask: seq<byte>, payload: seq<byte>, k: nat)
    requires opcode < 16 && |mask| == 4 && |payload| < 65536
    requires HeaderSize(|payload|) + |payload| <= k <= HeaderSize(|payload|) + 4 + |payload|
    ensures var hs := HeaderSize(|payload|);
      var cut := ClientFrame(fin, opcode, mask, payload)[..k];
      var h := FrameHead(opcode, |payload|, hs);
      var got := if k >= hs + 4 then k - hs - 4 else 0;
      FramePayload(cut, h) == payload[..got]
  {
    var n := |payload|;
    var hs := HeaderSize(n);
    var got := if k >= hs + 4 then k - hs - 4 else 0;
    var cut := ClientFrame(fin, opcode, mask, payload)[..k];
    if k >= hs + 4 {
      CutFrameTail(fin, opcode, mask, payload, k);
      UnmaskedTail(cut, FrameHead(opcode, n, hs), mask, payload, got);
    }
  }

  /** A client frame cut after its mask: the mask, then the masked payload
      bytes that arrived. */
  lemma CutFrameTail(fin: bool, opcode: byte, mask: seq<byte>, payload: seq<byte>, k: nat)
    requires opcode < 16 && |mask| == 4
    requires HeaderSize(|payload|) + 4 <= k <= HeaderSize(|payload|) + 4 + |payload|
    ensures var hs := HeaderSize(|payload|);
      var cut := ClientFrame(fin, opcode, mask, payload)[..k];
      cut[hs..hs + 4] == mask && cut[hs + 4..] == Masked(payload, mask)[..k - hs - 4]
  {
    var hs := HeaderSize(|payload|);
    var head := [FirstByte(fin, opcode)] + LengthField(|payload|);
    var m := Masked(payload, mask);
    var cut := ClientFrame(fin, opcode, mask, payload)[..k];
    assert cut == head + mask + m[..k - hs - 4];
  }

  /** A buffer that ends `got` bytes after a header and its mask, those bytes
      being the first `got` masked payload bytes, decodes to them. */
  lemma UnmaskedTail(buf: seq<byte>, h: FrameHead, mask: seq<byte>, payload: seq<byte>, got: nat)
    requires |buf| == h.start + 4 + got && got <= |payload| && got <= h.length
    requires buf[h.start..h.start + 4] == mask && buf[h.start + 4..] == Masked(payload, mask)[..got]
    ensures FramePayload(buf, h) == payload[..got]
  {
    MaskedPrefix(payload, mask, got);
    MaskedTwice(payload[..got], mask);
  }

  /** A frame whose last one to four bytes have not arrived is not waited
      for, because the wait test leaves out the four mask bytes: the loop
      emits the part of the payload that is there and empties the buffer, so
      the missing bytes later begin a new frame. */
  lemma ClientFrameCutShort(fin: bool, opcode: byte, mask: seq<byte>, payload: seq<byte>, k: nat,
                            cs: Option<CloseStat>, decode: seq<byte> -> string)
    requires opcode < 16 && opcode != 8 && |mask| == 4 && |payload| < 65536
    requires HeaderSize(|payload|) + |payload| <= k < HeaderSize(|payload|) + 4 + |payload|
    ensures var hs := HeaderSize(|payload|);
      var got := if k >= hs + 4 then k - hs - 4 else 0;
      (|payload| > 0 ==> got < |payload|)
      && Drain(ClientFrame(fin, opcode, mask, payload)[..k], cs, decode) == Drained([payload[..got]], [], cs, Returned)
  {
    CutFrame(fin, opcode, mask, payload, k);
    var cut := ClientFrame(fin, opcode, mask, payload)[..k];
    assert cut[k..] == [];
  }

  /** A frame with a 16-bit length cut after its second or third byte makes
      the listener throw a RangeError: readUInt16BE(2) reads past the end. */
  lemma ExtendedHeaderCutThrows(fin: bool, opcode: byte, mask: seq<byte>, payload: seq<byte>, k: nat,
                                cs: Option<CloseStat>, decode: seq<byte> -> string)
    requires opcode < 16 && |mask| == 4 && 126 <= |payload| < 65536 && 2 <= k < 4
    ensures var cut := ClientFrame(fin, opcode, mask, payload)[..k];
      Drain(cut, cs, decode) == Drained([], cut, cs, Threw(RangeError))
  {
    ClientFrameLayout(fin, opcode, mask, payload, []);
    var f := ClientFrame(fin, opcode, mask, payload);
    assert f + [] == f;
    assert f[1] == LengthField(|payload|)[0];
  }

  /** A frame of 65536 bytes or more uses the 64-bit length; the loop reads
      only four of its eight bytes, which are zero below 4 GiB. It emits an
      empty message, skips ten bytes and takes the real mask and payload as
      the next frame. */
  lemma LongClientFrameMisread(fin: bool, opcode: byte, mask: seq<byte>, payload: seq<byte>, rest: seq<byte>,
                               cs: Option<CloseStat>, decode: seq<byte> -> string)
    requires opcode < 16 && opcode != 8 && |mask| == 4 && 65536 <= |payload| < 4294967296
    ensures var buf := ClientFrame(fin, opcode, mask, payload) + rest;
      ReadHead(buf) == Some(FrameHead(opcode, 0, 6))
      && buf[10..] == mask + Masked(payload, mask) + rest
      && Drain(buf, cs, decode) == Prepend([[]], Drain(buf[10..], cs, decode))
  {
    var n := |payload|;
    var buf := ClientFrame(fin, opcode, mask, payload) + rest;
    ClientFrameLayout(fin, opcode, mask, payload, rest);
    Pow256Small();
    assert buf[1] == LengthField(n)[0];
    assert buf[2..6] == ToBigEndian(n, 8)[..4] by {
      assert buf[2..10] == LengthField(n)[1..] == ToBigEndian(n, 8);
    }
    HighBytesZero(n, 4, 4);
    BigEndianRoundTrip(0, 4);
    var h := FrameHead(opcode, 0, 6);
    assert ReadHead(buf) == Some(h);
    assert FrameEnd(buf, h) == 10;
    assert FramePayload(buf, h) == [];
    assert buf[10..] == mask + Masked(payload, mask) + rest by {
      assert buf[10..14] == mask;
      assert buf[14..] == Masked(payload, mask) + rest;
    }
  }

  /** A closing decode followed by more bytes: the frame that set
      `closeStat` is still at the front and is read again. */
  lemma {:induction false} DrainAfterClose(buf: seq<byte>, more: seq<byte>, v: CloseStat, decode: seq<byte> -> string)
    requires Drain(buf, None, decode).closeStat.Some?
    ensures var after := Drain(buf, None, decode).rest + more;
      Drain(after, Some(v), decode) == Drained([], after, Some(v), Threw(TypeError))
    decreases |buf|
  {
    var h := ReadHead(buf).value;
    if h.opcode == 8 {
      assert Drain(buf, None, decode).rest == buf;
      ReadHeadPrefix(buf, more);
      assert |FramePayload(buf + more, h)| >= |FramePayload(buf, h)|;
    } else {
      DrainAfterClose(buf[FrameEnd(buf, h)..], more, v, decode);
    }
  }

  /** Once a close frame has defined `closeStat`, every later data event
      throws a TypeError: nothing more is emitted and the chunk stays in the
      buffer behind the close frame. */
  lemma CloseIsFinal(s: ConnState, c1: seq<byte>, c2: seq<byte>, w1: bool, w2: bool,
                     decode: seq<byte> -> string, digest: string -> string)
    requires s.upgraded && s.closeStat == None
    requires Receive(s, c1, w1, true, decode, digest).state.closeStat.Some?
    ensures var s1 := Receive(s, c1, w1, true, decode, digest).state;
      Receive(s1, c2, w2, true, decode, digest) == Step(s1.(buffer := s1.buffer + c2), Threw(TypeError))
  {
    var d := Drain(s.buffer + c1, None, decode);
    var s1 := Receive(s, c1, w1, true, decode, digest).state;
    assert s1.buffer == d.rest && s1.closeStat == d.closeStat && s1.upgraded;
    DrainAfterClose(s.buffer + c1, c2, d.closeStat.value, decode);
    assert Messages([]) == [];
    assert s1.events + [] == s1.events;
  }

  /** `send` after the upgrade writes one frame; for a payload of at most
      125 bytes a reader of the short frame form gets FIN, the opcode (2 for
      a Buffer, 1 otherwise) and exactly the payload's bytes. Before the
      upgrade it is rejected and writes nothing. Sending never emits or
      changes anything but the write log. */
  lemma SendWritesOneFrame(s: ConnState, p: Payload, writeSucceeds: bool, utf8Encode: string -> seq<byte>)
    requires |SendBytes(p, utf8Encode)| <= 125
    ensures var (r, result) := SendStep(s, p, writeSucceeds, utf8Encode);
      (!s.upgraded ==> r == s && result == Rejected(NotReady))
      && (s.upgraded ==>
            r == s.(writes := r.writes) && |r.writes| == |s.writes| + 1
            && r.writes[..|s.writes|] == s.writes && r.writes[|s.writes|].BytesWrite?
            && ReadShortFrame(r.writes[|s.writes|].bytes) == Some((true, SendOpcode(p), SendBytes(p, utf8Encode)))
            && (result == Resolved <==> writeSucceeds))
  {
    ServerFrameShortForm(SendOpcode(p), SendBytes(p, utf8Encode));
  }
}
