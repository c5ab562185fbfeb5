/** The older engine of src/net.ts: one `data` listener per socket that
    parses every chunk as a request, answers an upgrade request, and reads
    each later chunk as exactly one frame, unmasked in place in the chunk;
    fragments are collected in a list kept between chunks. `send` is the same
    frame writer as the newer engine's. `LegacyState` is the value of what a
    connection keeps; `Handle` and `SendStep` say what one call does to it. */
module Legacy {
  import opened Wire
  import opened Http

  /** What the socket emits: `upgrade` with the bytes after the request,
      `message` with a string (opcode 1) or with a Buffer (opcode 2). */
  datatype Event = Upgrade(body: seq<byte>) | TextMessage(text: string) | BinaryMessage(data: seq<byte>)

  // getLength: the length read through the binary string of a byte.

  predicate BinaryDigits(s: string)
  {
    forall k :: 0 <= k < |s| ==> s[k] == '0' || s[k] == '1'
  }

  /** `n.toString(2)`: the binary digits without leading zeros, "0" for zero. */
  function Binary(n: nat): (r: string)
    ensures |r| >= 1 && BinaryDigits(r)
    ensures |r| == 1 <==> n < 2
    ensures n >= 1 ==> r[0] == '1'
  {
    if n < 2 then (if n == 0 then "0" else "1")
    else Binary(n / 2) + (if n % 2 == 0 then "0" else "1")
  }

  /** The value of a string of binary digits, most significant first. */
  function BinaryValue(s: string): nat
  {
    if s == [] then 0 else 2 * BinaryValue(s[..|s| - 1]) + (if s[|s| - 1] == '1' then 1 else 0)
  }

  /** `parseInt(s, 2)` on binary digits: NaN, here `None`, for the empty string. */
  function ParseBinary(s: string): Option<nat>
  {
    if s == [] then None else Some(BinaryValue(s))
  }

  /** The largest power of two not above n. */
  function TopBit(n: nat): (r: nat)
    requires n >= 1
    ensures 1 <= r <= n < 2 * r
  {
    if n < 2 then 1 else 2 * TopBit(n / 2)
  }

  /** `parseInt(byte.toString(2).substring(1), 2)`: the byte's binary digits
      after the first one. */
  function BaseLength(b: byte): (r: Option<nat>)
    ensures r.None? <==> b < 2
  {
    ParseBinary(Binary(b)[1..])
  }

  /** `getLength(buffer)`, `None` where a read goes past the end of the buffer
      and throws a RangeError. A base below 125 is the length; 126 is followed
      by a 16-bit length; everything else, NaN and 125 included, by a 64-bit
      one. `Number()` of a 64-bit value above 2^53 is rounded, but only to
      another value beyond the end of any chunk, where `subarray` clamps. */
  function GetLength(buf: seq<byte>): (r: Option<nat>)
    ensures r.Some? ==> |buf| >= 1
  {
    if |buf| < 1 then None
    else
      var base := BaseLength(buf[0]);
      if base.Some? && base.value < 125 then base
      else if base == Some(126) then (if |buf| < 3 then None else Some(BigEndian(buf[1..3])))
      else if |buf| < 9 then None
      else Some(BigEndian(buf[1..9]))
  }

  lemma {:induction false} BinaryRoundTrip(n: nat)
    ensures BinaryValue(Binary(n)) == n
  {
    if n >= 2 {
      var s := Binary(n);
      assert s[..|s| - 1] == Binary(n / 2);
      BinaryRoundTrip(n / 2);
    }
  }

  /** Dropping the first binary digit of n clears its top bit. */
  lemma {:induction false} BinaryWithoutTopBit(n: nat)
    requires n >= 2
    ensures |Binary(n)| >= 2 && BinaryValue(Binary(n)[1..]) == n - TopBit(n)
  {
    var s := Binary(n);
    var d := if n % 2 == 0 then "0" else "1";
    assert s == Binary(n / 2) + d;
    if n / 2 < 2 {
      assert s[1..] == d;
      assert s[1..][..0] == [];
    } else {
      BinaryWithoutTopBit(n / 2);
      assert s[1..] == Binary(n / 2)[1..] + d;
      assert s[1..][..|s[1..]| - 1] == Binary(n / 2)[1..];
    }
  }

  /** The base length `getLength` reads from a byte: the byte without its
      top bit, and NaN for 0 and 1, whose binary strings have one digit. */
  lemma BaseLengthValue(b: byte)
    ensures BaseLength(b) == if b < 2 then None else Some(b - TopBit(b))
  {
    if b >= 2 {
      BinaryWithoutTopBit(b);
    } else {
      assert Binary(b)[1..] == [];
    }
  }

  lemma {:induction false} TopBitOfRange(n: nat, k: nat)
    requires Pow2(k) <= n < 2 * Pow2(k)
    ensures TopBit(n) == Pow2(k)
  {
    if k > 0 {
      TopBitOfRange(n / 2, k - 1);
    }
  }

  /** With the MASK bit set, the top bit of the second byte is the MASK bit,
      so the base length is the low seven bits, as section 5.2 of RFC 6455
      defines it. */
  lemma MaskedBaseLength(b: byte)
    requires b >= 128
    ensures BaseLength(b) == Some(b - 128)
  {
    assert Pow2(7) == 128;
    TopBitOfRange(b, 7);
    BaseLengthValue(b);
  }

  /** The length of a frame with the MASK bit set: the seven-bit length up to
      124, the 16-bit length after 126, and the 64-bit length after 125 or 127. */
  lemma MaskedLength(buf: seq<byte>)
    requires |buf| >= 1 && buf[0] >= 128
    ensures buf[0] - 128 < 125 ==> GetLength(buf) == Some(buf[0] - 128)
    ensures buf[0] - 128 == 126 ==> GetLength(buf) == if |buf| < 3 then None else Some(BigEndian(buf[1..3]))
    ensures buf[0] - 128 in {125, 127} ==> GetLength(buf) == if |buf| < 9 then None else Some(BigEndian(buf[1..9]))
  {
    MaskedBaseLength(buf[0]);
  }

  /** Without the MASK bit the seven-bit length loses its own top bit: a
      length byte from 2 to 127 is read as a smaller length (125, 126 and 127
      as 61, 62 and 63, so the extended forms are never taken), and 0 and 1
      as NaN, which goes to the 64-bit read. */
  lemma UnmaskedLengthMisread(buf: seq<byte>)
    requires |buf| >= 1 && buf[0] < 128
    ensures buf[0] >= 2 ==> GetLength(buf) == Some(buf[0] - TopBit(buf[0])) && buf[0] - TopBit(buf[0]) < buf[0]
    ensures buf[0] < 2 ==> GetLength(buf) == if |buf| < 9 then None else Some(BigEndian(buf[1..9]))
  {
    BaseLengthValue(buf[0]);
  }

  /** A five-byte unmasked payload is read as one byte long. */
  lemma UnmaskedFiveReadAsOne()
    ensures GetLength([5]) == Some(1)
  {
    UnmaskedLengthMisread([5]);
    assert TopBit(5) == 4;
  }

  // The state of a connection.

  /** `socket.upgraded`, the `prevPayloads` list of the connection, what the
      socket emitted and what it wrote. */
  datatype LegacyState = LegacyState(upgraded: bool, prevPayloads: seq<seq<byte>>,
                                     events: seq<Event>, writes: seq<Written>)

  const Initial: LegacyState := LegacyState(false, [], [], [])

  /** Nothing is emitted or collected before the upgrade, the upgrade is the
      first event, and `upgraded` is set exactly when something was emitted. */
  predicate Valid(s: LegacyState)
  {
    (s.upgraded <==> |s.events| > 0)
    && (!s.upgraded ==> s.prevPayloads == [])
    && (s.upgraded ==> s.events[0].Upgrade?)
  }

  /** `Buffer.concat` of a list of buffers. */
  function Concat(ps: seq<seq<byte>>): (r: seq<byte>)
  {
    if ps == [] then [] else Concat(ps[..|ps| - 1]) + ps[|ps| - 1]
  }

  // The opening handshake.

  /** `headers["Sec-WebSocket-Key"]` and `None` where it is falsy (missing or
      empty); no other spelling of the name is read. */
  function LegacyKey(h: Headers): (r: Option<string>)
    ensures r.Some? <==> Lookup(h, "Sec-WebSocket-Key").Some? && Lookup(h, "Sec-WebSocket-Key").value != ""
    ensures r.Some? ==> r == Lookup(h, "Sec-WebSocket-Key")
  {
    var k := Lookup(h, "Sec-WebSocket-Key");
    if k.Some? && k.value != "" then k else None
  }

  /** The 101 response; when its write succeeds `upgraded` is set (again, if
      it already was) and the bytes after the request are emitted. */
  function Accept(s: LegacyState, body: seq<byte>, key: string, writeSucceeds: bool,
                  digest: string -> string): (r: LegacyState)
    ensures r.prevPayloads == s.prevPayloads
    ensures r.writes == s.writes + [ResponseWrite(SwitchingProtocols(digest(key + MagicString)))]
    ensures r.upgraded <==> s.upgraded || writeSucceeds
    ensures r.events == if writeSucceeds then s.events + [Upgrade(body)] else s.events
  {
    var written := s.(writes := s.writes + [ResponseWrite(SwitchingProtocols(digest(key + MagicString)))]);
    if writeSucceeds then written.(upgraded := true, events := s.events + [Upgrade(body)])
    else written
  }

  // One frame per chunk.

  /** What the listener reads from a chunk: FIN, the opcode, the decoded
      payload, and the chunk as it is afterwards, with the payload bytes
      unmasked in place. */
  datatype Frame = Frame(fin: bool, opcode: nat, payload: seq<byte>, chunk: seq<byte>)

  /** The frame in a chunk, `None` where `getLength` throws a RangeError. The
      payload is always taken from offset 6, whatever the length form, up to
      6 + length, both clamped to the chunk; a set MASK bit XORs it in place
      with bytes 2 to 6. Bytes after the payload are ignored. */
  function ReadFrame(chunk: seq<byte>): (r: Option<Frame>)
    ensures r.None? <==> |chunk| < 1 || GetLength(chunk[1..]).None?
    ensures r.Some? ==> |r.value.chunk| == |chunk| >= 2
  {
    if |chunk| < 1 then None
    else match GetLength(chunk[1..])
      case None => None
      case Some(length) =>
        var n := |chunk|;
        var lo := Min(6, n);
        var hi := Min(6 + length, n);
        var raw := chunk[lo..hi];
        var payload := if chunk[1] >= 128 then Masked(raw, chunk[2..lo]) else raw;
        Some(Frame(chunk[0] >= 128, chunk[0] % 16, payload, chunk[..lo] + payload + chunk[hi..]))
  }

  /** A frame without FIN is appended to `prevPayloads`. A final frame is
      joined to them, the list is emptied, and the whole is emitted as text
      for opcode 1, as a Buffer for opcode 2, and dropped for any other. */
  function Deliver(s: LegacyState, f: Frame, decode: seq<byte> -> string): (r: LegacyState)
    ensures r.upgraded == s.upgraded && r.writes == s.writes
    ensures !f.fin ==> r.prevPayloads == s.prevPayloads + [f.payload] && r.events == s.events
    ensures f.fin ==> r.prevPayloads == [] && |s.events| <= |r.events| <= |s.events| + 1
                      && r.events[..|s.events|] == s.events
  {
    if !f.fin then s.(prevPayloads := s.prevPayloads + [f.payload])
    else
      var whole := Concat(s.prevPayloads) + f.payload;
      var cleared := s.(prevPayloads := []);
      if f.opcode == 1 then cleared.(events := s.events + [TextMessage(decode(whole))])
      else if f.opcode == 2 then cleared.(events := s.events + [BinaryMessage(whole)])
      else cleared
  }

  /** What one call of the listener leaves: the new state, the chunk's bytes,
      and how the call ended. */
  datatype Handled = Handled(state: LegacyState, chunk: seq<byte>, outcome: Outcome)

  /** One `data` event. With `allowHTTP` off nothing happens. Otherwise the
      chunk is parsed as a request (without the "" defaults of the newer
      engine) and answered by `Respond`. */
  function Handle(s: LegacyState, chunk: seq<byte>, writeSucceeds: bool, allowHttp: bool,
                  decode: seq<byte> -> string, digest: string -> string): (r: Handled)
    ensures !allowHttp ==> r == Handled(s, chunk, Returned)
    ensures |r.chunk| == |chunk|
    ensures r.outcome.Threw? ==> r.outcome == Threw(RangeError) && r.state == s && r.chunk == chunk && s.upgraded
  {
    if !allowHttp then Handled(s, chunk, Returned)
    else Respond(s, chunk, Parse(chunk, decode, false), writeSucceeds, decode, digest)
  }

  /** A chunk and its parse: an upgrade request is answered whether or not
      the socket is already upgraded, and ignored when it has no key; any
      other chunk is ignored before the upgrade and read as one frame after
      it. */
  function Respond(s: LegacyState, chunk: seq<byte>, req: Request, writeSucceeds: bool,
                   decode: seq<byte> -> string, digest: string -> string): (r: Handled)
    ensures |r.chunk| == |chunk|
    ensures r.outcome.Threw? ==> r.outcome == Threw(RangeError) && r.state == s && r.chunk == chunk && s.upgraded
    ensures r.chunk != chunk || r.state != s ==>
              Lookup(req.headers, "Upgrade") == Some("websocket") || s.upgraded
  {
    if Lookup(req.headers, "Upgrade") == Some("websocket") then
      match LegacyKey(req.headers)
      case None => Handled(s, chunk, Returned)
      case Some(key) => Handled(Accept(s, req.body, key, writeSucceeds, digest), chunk, Returned)
    else if !s.upgraded then Handled(s, chunk, Returned)
    else HandleFrame(s, chunk, decode)
  }

  /** The frame part of one `data` event on an upgraded socket. */
  function HandleFrame(s: LegacyState, chunk: seq<byte>, decode: seq<byte> -> string): (r: Handled)
    ensures r.outcome.Threw? <==> ReadFrame(chunk).None?
    ensures r.outcome.Threw? ==> r.outcome == Threw(RangeError) && r.state == s && r.chunk == chunk
    ensures r.outcome == Returned ==> r.chunk == ReadFrame(chunk).value.chunk && r.state.writes == s.writes
  {
    match ReadFrame(chunk)
    case None => Handled(s, chunk, Threw(RangeError))
    case Some(f) => Handled(Deliver(s, f, decode), f.chunk, Returned)
  }

  /** `send`: rejected before the upgrade without writing; otherwise one
      write of the server frame, resolved or rejected by its outcome. */
  function SendStep(s: LegacyState, p: Payload, writeSucceeds: bool, utf8Encode: string -> seq<byte>): (r: (LegacyState, SendResult))
    ensures r.0 == s.(writes := r.0.writes)
    ensures r.0.writes == s.writes || r.0.writes == s.writes + [BytesWrite(ServerFrame(SendOpcode(p), SendBytes(p, utf8Encode)))]
    ensures r.0.writes != s.writes <==> s.upgraded
    ensures r.1 == Resolved <==> s.upgraded && writeSucceeds
  {
    if !s.upgraded then (s, Rejected(NotReady))
    else
      (s.(writes := s.writes + [BytesWrite(ServerFrame(SendOpcode(p), SendBytes(p, utf8Encode)))]),
       if writeSucceeds then Resolved else Rejected(WriteFailed))
  }

  /** The bytes of a buffer after `unmask(buffer.subarray(from, to), mask)`:
      the bytes from `from` to `to` XOR-ed with `mask[(i - from) % 4]`, the
      rest untouched. */
  function UnmaskRegion(c: seq<byte>, from: nat, to: nat, mask: seq<byte>): (r: seq<byte>)
    requires from <= to <= |c|
    ensures |r| == |c|
  {
    c[..from] + Masked(c[from..to], mask) + c[to..]
  }

  /** A buffer that differs from `c` by the XOR of each byte from `from` to
      `to` with the mask is the unmasked region. */
  lemma UnmaskRegionPointwise(c: seq<byte>, r: seq<byte>, from: nat, to: nat, mask: seq<byte>)
    requires from <= to <= |c| == |r|
    requires forall k :: 0 <= k < |c| ==>
      r[k] == if from <= k < to then Xor(c[k], MaskByte(mask, k - from)) else c[k]
    ensures r == UnmaskRegion(c, from, to, mask)
  {
    assert r[..from] == c[..from];
    assert r[from..to] == Masked(c[from..to], mask);
    assert r[to..] == c[to..];
    assert r == r[..from] + r[from..to] + r[to..];
  }

  lemma UnmaskRegionSlices(c: seq<byte>, from: nat, to: nat, mask: seq<byte>)
    requires from <= to <= |c|
    ensures var r := UnmaskRegion(c, from, to, mask);
      r[..from] == c[..from] && r[from..to] == Masked(c[from..to], mask) && r[to..] == c[to..]
  {
  }

  /** Unmasking the same region twice with the same mask restores the buffer. */
  lemma UnmaskRegionTwice(c: seq<byte>, from: nat, to: nat, mask: seq<byte>)
    requires from <= to <= |c|
    ensures UnmaskRegion(UnmaskRegion(c, from, to, mask), from, to, mask) == c
  {
    UnmaskRegionSlices(c, from, to, mask);
    MaskedTwice(c[from..to], mask);
    assert c == c[..from] + c[from..to] + c[to..];
  }

  /** `unmask`, in place on the chunk. */
  method Unmask(a: array<byte>, from: nat, to: nat, mask: seq<byte>)
    requires from <= to <= a.Length
    modifies a
    ensures a[..] == UnmaskRegion(old(a[..]), from, to, mask)
  {
    for i := from to to
      invariant forall k :: 0 <= k < a.Length ==>
        a[k] == if from <= k < i then Xor(old(a[k]), MaskByte(mask, k - from)) else old(a[k])
    {
      a[i] := Xor(a[i], MaskByte(mask, i - from));
    }
    UnmaskRegionPointwise(old(a[..]), a[..], from, to, mask);
  }

  /** The read half of the frame handling: `getLength`, then the payload
      unmasked in place when the MASK bit is set. */
  method ReadInPlace(chunk: array<byte>) returns (f: Option<Frame>)
    modifies chunk
    ensures f == ReadFrame(old(chunk[..]))
    ensures f.None? ==> chunk[..] == old(chunk[..])
    ensures f.Some? ==> chunk[..] == f.value.chunk
  {
    var n := chunk.Length;
    var length := GetLength(chunk[Min(1, n)..]);
    if length.None? {
      assert ReadFrame(chunk[..]).None? by {
        if n >= 1 { assert chunk[Min(1, n)..] == chunk[..][1..]; }
      }
      return None;
    }
    ghost var c := chunk[..];
    assert chunk[Min(1, n)..] == c[1..];
    var fin := chunk[0] >= 128;
    var opcode := chunk[0] % 16;
    var masked := chunk[1] >= 128;
    var lo := Min(6, n);
    var hi := Min(6 + length.value, n);
    ghost var raw := c[lo..hi];
    ghost var unmasked := if masked then Masked(raw, c[2..lo]) else raw;
    if masked {
      Unmask(chunk, lo, hi, chunk[2..lo]);
      UnmaskRegionSlices(c, lo, hi, c[2..lo]);
    }
    assert chunk[..lo] == c[..lo] && chunk[lo..hi] == unmasked && chunk[hi..] == c[hi..];
    var payload := chunk[lo..hi];
    assert chunk[..] == chunk[..lo] + chunk[lo..hi] + chunk[hi..];
    assert ReadFrame(c) == Some(Frame(fin, opcode, unmasked, c[..lo] + unmasked + c[hi..]));
    f := Some(Frame(fin, opcode, payload, chunk[..]));
  }

  /** One socket of the older engine. The options and the foreign functions
      (UTF-8 decoding and encoding, base64 of SHA-1) are fixed per socket. */
  class LegacyConnection {
    const allowHttp: bool
    const decode: seq<byte> -> string
    const utf8Encode: string -> seq<byte>
    const digest: string -> string

    var upgraded: bool
    var prevPayloads: seq<seq<byte>>
    var events: seq<Event>
    var writes: seq<Written>

    function State(): LegacyState
      reads this
    {
      LegacyState(upgraded, prevPayloads, events, writes)
    }

    constructor(allowHttp: bool, decode: seq<byte> -> string, utf8Encode: string -> seq<byte>,
                digest: string -> string)
      ensures State() == Initial && Valid(State())
      ensures this.allowHttp == allowHttp && this.decode == decode
      ensures this.utf8Encode == utf8Encode && this.digest == digest
    {
      this.allowHttp := allowHttp;
      this.decode := decode;
      this.utf8Encode := utf8Encode;
      this.digest := digest;
      upgraded := false;
      prevPayloads := [];
      events := [];
      writes := [];
    }

    /** `handleChunk`: the chunk is the Buffer the socket delivered, and the
        unmasking changes it. */
    method HandleChunk(chunk: array<byte>, writeSucceeds: bool) returns (outcome: Outcome)
      modifies this, chunk
      ensures Handled(State(), chunk[..], outcome)
              == Handle(old(State()), old(chunk[..]), writeSucceeds, allowHttp, decode, digest)
    {
      if !allowHttp {
        return Returned;
      }
      var req := ParseChunk(chunk[..], decode, false);
      if Lookup(req.headers, "Upgrade") == Some("websocket") {
        var key := LegacyKey(req.headers);
        if key.None? {
          return Returned;
        }
        writes := writes + [ResponseWrite(SwitchingProtocols(digest(key.value + MagicString)))];
        if writeSucceeds {
          upgraded := true;
          events := events + [Upgrade(req.body)];
        }
        return Returned;
      }
      if !upgraded {
        return Returned;
      }
      outcome := ReadAndDeliver(chunk);
    }

    /** The frame part of `handleChunk` on an upgraded socket. */
    method ReadAndDeliver(chunk: array<byte>) returns (outcome: Outcome)
      modifies this, chunk
      ensures var f := ReadFrame(old(chunk[..]));
        (f.None? ==> outcome == Threw(RangeError) && State() == old(State()) && chunk[..] == old(chunk[..]))
        && (f.Some? ==> outcome == Returned && State() == Deliver(old(State()), f.value, decode)
                        && chunk[..] == f.value.chunk)
    {
      var f := ReadInPlace(chunk);
      if f.None? {
        return Threw(RangeError);
      }
      DeliverFrame(f.value);
      return Returned;
    }

    /** The rest of the loop body once a frame is read: collect it, or join
        it to the collected payloads and emit the whole. */
    method DeliverFrame(f: Frame)
      modifies this
      ensures State() == Deliver(old(State()), f, decode)
    {
      if !f.fin {
        prevPayloads := prevPayloads + [f.payload];
        return;
      }
      var whole := if |prevPayloads| == 0 then f.payload else Concat(prevPayloads) + f.payload;
      assert whole == Concat(prevPayloads) + f.payload;
      prevPayloads := [];
      if f.opcode == 1 {
        events := events + [TextMessage(decode(whole))];
      } else if f.opcode == 2 {
        events := events + [BinaryMessage(whole)];
      }
    }

    /** `send`. The frame is built in a fresh buffer of length + 2 bytes. */
    method Send(p: Payload, writeSucceeds: bool) returns (r: SendResult)
      modifies this
      ensures (State(), r) == SendStep(old(State()), p, writeSucceeds, utf8Encode)
    {
      if !upgraded {
        return Rejected(NotReady);
      }
      var frame := BuildFrame(SendOpcode(p), SendBytes(p, utf8Encode));
      writes := writes + [BytesWrite(frame)];
      r := if writeSucceeds then Resolved else Rejected(WriteFailed);
    }
  }

  // Properties of one data event.

  lemma AcceptPreservesValid(s: LegacyState, body: seq<byte>, key: string, writeSucceeds: bool,
                             digest: string -> string)
    requires Valid(s)
    ensures var r := Accept(s, body, key, writeSucceeds, digest);
      Valid(r) && r.writes == s.writes + [ResponseWrite(SwitchingProtocols(digest(key + MagicString)))]
      && |s.events| <= |r.events| && r.events[..|s.events|] == s.events
      && (r.upgraded <==> s.upgraded || writeSucceeds)
  {
    var r := Accept(s, body, key, writeSucceeds, digest);
    if writeSucceeds {
      assert r.events[0] == if s.events == [] then Upgrade(body) else s.events[0];
    }
  }

  lemma DeliverPreservesValid(s: LegacyState, f: Frame, decode: seq<byte> -> string)
    requires Valid(s) && s.upgraded
    ensures var r := Deliver(s, f, decode);
      Valid(r) && r.upgraded && r.writes == s.writes
      && |s.events| <= |r.events| <= |s.events| + 1 && r.events[..|s.events|] == s.events
  {
    var r := Deliver(s, f, decode);
    assert r.events[0] == s.events[0];
  }

  /** What one call may do to a valid state: keep it valid, never clear
      `upgraded`, only append events, and append at most one write, which
      can only be the 101 response. */
  ghost predicate Successor(s: LegacyState, r: LegacyState, digest: string -> string)
  {
    Valid(r) && (s.upgraded ==> r.upgraded)
    && |s.events| <= |r.events| && r.events[..|s.events|] == s.events
    && |s.writes| <= |r.writes| <= |s.writes| + 1 && r.writes[..|s.writes|] == s.writes
    && (|r.writes| > |s.writes| ==> exists key :: r.writes[|s.writes|] == ResponseWrite(SwitchingProtocols(digest(key + MagicString))))
  }

  /** The listener keeps `Valid`; `upgraded` is never cleared; events and the
      write log only grow, and a call writes at most one thing: the 101
      response to an upgrade request. Incoming data is never answered with a
      frame or, unlike the newer engine, with a redirect. */
  lemma HandlePreservesValid(s: LegacyState, chunk: seq<byte>, writeSucceeds: bool, allowHttp: bool,
                             decode: seq<byte> -> string, digest: string -> string)
    requires Valid(s)
    ensures Successor(s, Handle(s, chunk, writeSucceeds, allowHttp, decode, digest).state, digest)
  {
    if allowHttp {
      RespondSuccessor(s, chunk, Parse(chunk, decode, false), writeSucceeds, decode, digest);
    } else {
      SuccessorOfSame(s, digest);
    }
  }

  lemma RespondSuccessor(s: LegacyState, chunk: seq<byte>, req: Request, writeSucceeds: bool,
                         decode: seq<byte> -> string, digest: string -> string)
    requires Valid(s)
    ensures Successor(s, Respond(s, chunk, req, writeSucceeds, decode, digest).state, digest)
  {
    var r := Respond(s, chunk, req, writeSucceeds, decode, digest).state;
    var key := LegacyKey(req.headers);
    if Lookup(req.headers, "Upgrade") == Some("websocket") && key.Some? {
      assert r == Accept(s, req.body, key.value, writeSucceeds, digest);
      AcceptSuccessor(s, req.body, key.value, writeSucceeds, digest);
    } else if Lookup(req.headers, "Upgrade") != Some("websocket") && s.upgraded {
      var f := ReadFrame(chunk);
      if f.Some? {
        assert r == Deliver(s, f.value, decode);
        DeliverSuccessor(s, f.value, decode, digest);
      } else {
        assert r == s;
        SuccessorOfSame(s, digest);
      }
    } else {
      assert r == s;
      SuccessorOfSame(s, digest);
    }
  }

  lemma AcceptSuccessor(s: LegacyState, body: seq<byte>, key: string, writeSucceeds: bool, digest: string -> string)
    requires Valid(s)
    ensures Successor(s, Accept(s, body, key, writeSucceeds, digest), digest)
  {
    var r := Accept(s, body, key, writeSucceeds, digest);
    AcceptPreservesValid(s, body, key, writeSucceeds, digest);
    assert r.writes[|s.writes|] == ResponseWrite(SwitchingProtocols(digest(key + MagicString)));
  }

  lemma DeliverSuccessor(s: LegacyState, f: Frame, decode: seq<byte> -> string, digest: string -> string)
    requires Valid(s) && s.upgraded
    ensures Successor(s, Deliver(s, f, decode), digest)
  {
    DeliverPreservesValid(s, f, decode);
  }

  lemma SuccessorOfSame(s: LegacyState, digest: string -> string)
    requires Valid(s)
    ensures Successor(s, s, digest)
  {
  }

  /** A chunk on a socket that is not upgraded and that is not an upgrade
      request changes nothing, and a throw is impossible before the upgrade. */
  lemma NotUpgradedIgnored(s: LegacyState, chunk: seq<byte>, writeSucceeds: bool, allowHttp: bool,
                           decode: seq<byte> -> string, digest: string -> string)
    requires !s.upgraded
    ensures var r := Handle(s, chunk, writeSucceeds, allowHttp, decode, digest);
      r.outcome == Returned && r.chunk == chunk
      && (Lookup(Parse(chunk, decode, false).headers, "Upgrade") != Some("websocket") ==> r.state == s)
  {
  }

  /** Any upgrade request without a usable `Sec-WebSocket-Key` (missing or
      empty) gets no answer, whether or not the socket is upgraded: nothing
      is written or emitted and the chunk is left as it is. */
  lemma KeylessUpgradeIgnored(s: LegacyState, chunk: seq<byte>, writeSucceeds: bool,
                              decode: seq<byte> -> string, digest: string -> string)
    requires var h := Parse(chunk, decode, false).headers;
      Lookup(h, "Upgrade") == Some("websocket")
      && (Lookup(h, "Sec-WebSocket-Key").None? || Lookup(h, "Sec-WebSocket-Key") == Some(""))
    ensures Handle(s, chunk, writeSucceeds, true, decode, digest) == Handled(s, chunk, Returned)
  {
  }

  /** Any upgrade request with a usable key `k`, on a socket upgraded or not,
      is answered with the 101 response carrying the digest of `k` and the
      GUID; the chunk is not read as a frame, and when the write succeeds
      `upgraded` is set and the bytes after the request are emitted. */
  lemma KeyedUpgradeAnswered(s: LegacyState, chunk: seq<byte>, writeSucceeds: bool, k: string,
                             decode: seq<byte> -> string, digest: string -> string)
    requires var h := Parse(chunk, decode, false).headers;
      Lookup(h, "Upgrade") == Some("websocket") && Lookup(h, "Sec-WebSocket-Key") == Some(k) && k != ""
    ensures var body := Parse(chunk, decode, false).body;
      Handle(s, chunk, writeSucceeds, true, decode, digest)
        == Handled(s.(writes := s.writes + [ResponseWrite(SwitchingProtocols(digest(k + MagicString)))],
                      upgraded := s.upgraded || writeSucceeds,
                      events := if writeSucceeds then s.events + [Upgrade(body)] else s.events),
                   chunk, Returned)
  {
  }

  /** A request of four lines, `Upgrade: websocket` second and the key third,
      is answered with the 101 response; when the write succeeds the socket
      is upgraded and emits the bytes after the blank line. This happens on
      an upgraded socket too, which then emits a second upgrade. */
  lemma UpgradeRequestAccepted(s: LegacyState, requestLine: seq<byte>, upgrade: seq<byte>, keyLine: seq<byte>,
                               last: seq<byte>, key: string, body: seq<byte>,
                               decode: seq<byte> -> string, digest: string -> string)
    requires WellFormedLines([requestLine, upgrade, keyLine, last])
    requires decode(upgrade) == "Upgrade: websocket"
    requires decode(keyLine) == "Sec-WebSocket-Key: " + key && key != "" && NoSep(key, ": ")
    ensures var chunk := JoinLines([requestLine, upgrade, keyLine, last]) + [13, 10] + body;
      Handle(s, chunk, true, true, decode, digest)
        == Handled(s.(writes := s.writes + [ResponseWrite(SwitchingProtocols(digest(key + MagicString)))],
                      upgraded := true, events := s.events + [Upgrade(body)]), chunk, Returned)
  {
    var ls := [requestLine, upgrade, keyLine, last];
    ParseOfJoinedLines(ls, body, decode, false);
    assert ls[..3] == [requestLine, upgrade, keyLine];
    UpgradeHeaders(requestLine, upgrade, keyLine, key, decode, false);
  }

  // Frames written by a client.

  /** The chunk is not an upgrade request as `paresHeaders` reads it. */
  predicate NotUpgradeRequest(chunk: seq<byte>, decode: seq<byte> -> string)
  {
    Lookup(Parse(chunk, decode, false).headers, "Upgrade") != Some("websocket")
  }

  /** A chunk without CR LF has no header lines, so it is never taken for an
      upgrade request. */
  lemma NoCrlfNotUpgradeRequest(chunk: seq<byte>, decode: seq<byte> -> string)
    requires forall k :: 0 <= k < |chunk| ==> !IsCrlf(chunk, k)
    ensures NotUpgradeRequest(chunk, decode)
  {
    if |chunk| >= 4 {
      ParseWithoutCrlf(chunk, decode, false);
    }
  }

  /** A masked client frame with at most 124 payload bytes, followed by
      anything, is read correctly: FIN, the opcode and the payload; in the
      chunk the payload is left decoded, and what follows the frame is
      ignored. */
  lemma ReadShortClientFrame(fin: bool, opcode: byte, mask: seq<byte>, payload: seq<byte>, rest: seq<byte>)
    requires opcode < 16 && |mask| == 4 && |payload| <= 124
    ensures var f := ClientFrame(fin, opcode, mask, payload);
      ReadFrame(f + rest) == Some(Frame(fin, opcode, payload, f[..6] + payload + rest))
  {
    var n := |payload|;
    var f := ClientFrame(fin, opcode, mask, payload);
    var c := f + rest;
    ClientFrameLayout(fin, opcode, mask, payload, rest);
    assert c[1..][0] == 128 + n;
    MaskedLength(c[1..]);
    assert c[6..Min(6 + n, |c|)] == Masked(payload, mask);
    MaskedTwice(payload, mask);
    assert f[..6] == c[..6];
  }

  /** On an upgraded socket, a final text or binary frame of at most 124
      bytes with nothing collected before it is emitted as it was sent. */
  lemma ShortClientMessage(s: LegacyState, opcode: byte, mask: seq<byte>, payload: seq<byte>, rest: seq<byte>,
                           decode: seq<byte> -> string, digest: string -> string, writeSucceeds: bool)
    requires s.upgraded && s.prevPayloads == []
    requires opcode in {1, 2} && |mask| == 4 && |payload| <= 124
    requires NotUpgradeRequest(ClientFrame(true, opcode, mask, payload) + rest, decode)
    ensures var r := Handle(s, ClientFrame(true, opcode, mask, payload) + rest, writeSucceeds, true, decode, digest);
      r.outcome == Returned && r.state.writes == s.writes && r.state.prevPayloads == []
      && r.state.events == s.events + [if opcode == 1 then TextMessage(decode(payload)) else BinaryMessage(payload)]
  {
    ReadShortClientFrame(true, opcode, mask, payload, rest);
    assert Concat([]) + payload == payload;
  }

  /** A client frame with a 16-bit length is read from offset 6 although its
      mask ends at offset 8: the first two bytes handed on are the last two
      mask bytes XOR-ed with the length field, and the payload's last two
      bytes are cut off. */
  lemma MediumClientFrameMisread(fin: bool, opcode: byte, mask: seq<byte>, payload: seq<byte>, rest: seq<byte>)
    requires opcode < 16 && |mask| == 4 && 126 <= |payload| < 65536
    ensures var f := ClientFrame(fin, opcode, mask, payload);
      var r := ReadFrame(f + rest);
      r.Some? && r.value.fin == fin && r.value.opcode == opcode
      && |r.value.payload| == |payload|
      && r.value.payload[..2] == Masked(mask[2..], LengthField(|payload|)[1..])
  {
    var c := ClientFrame(fin, opcode, mask, payload) + rest;
    MediumFrameLayout(fin, opcode, mask, payload, rest);
    ReadFromOffsetSix(c, |payload|);
  }

  /** A masked frame read from offset 6: its first two bytes are bytes 6 and 7
      of the chunk XOR-ed with bytes 2 and 3. */
  lemma ReadFromOffsetSix(c: seq<byte>, length: nat)
    requires |c| >= 6 + length && length >= 2 && c[1] >= 128 && GetLength(c[1..]) == Some(length)
    ensures var r := ReadFrame(c);
      r.Some? && r.value.fin == (c[0] >= 128) && r.value.opcode == c[0] % 16
      && |r.value.payload| == length && r.value.payload[..2] == Masked(c[6..8], c[2..4])
  {
    var key := c[2..6];
    var got := Masked(c[6..6 + length], key);
    ReadMaskedFrame(c, length);
    forall i | 0 <= i < 2
      ensures got[..2][i] == Masked(c[6..8], c[2..4])[i]
    {
      assert MaskByte(key, i) == MaskByte(c[2..4], i);
    }
  }

  /** A frame whose MASK bit is clear is read without unmasking: the payload
      is the chunk's bytes from offset 6 up to 6 + length, both clamped, and
      the chunk is left as it was. */
  lemma ReadUnmaskedFrame(c: seq<byte>, length: nat)
    requires |c| >= 2 && c[1] < 128 && GetLength(c[1..]) == Some(length)
    ensures ReadFrame(c) == Some(Frame(c[0] >= 128, c[0] % 16, c[Min(6, |c|)..Min(6 + length, |c|)], c))
  {
    var lo, hi := Min(6, |c|), Min(6 + length, |c|);
    assert c[..lo] + c[lo..hi] + c[hi..] == c;
  }

  /** A chunk holding a masked frame whose length reads as `length`, with
      all its bytes from offset 6 present. */
  lemma ReadMaskedFrame(c: seq<byte>, length: nat)
    requires |c| >= 6 + length && c[1] >= 128 && GetLength(c[1..]) == Some(length)
    ensures var got := Masked(c[6..6 + length], c[2..6]);
      ReadFrame(c) == Some(Frame(c[0] >= 128, c[0] % 16, got, c[..6] + got + c[6 + length..]))
  {
    assert Min(6, |c|) == 6 && Min(6 + length, |c|) == 6 + length;
  }

  /** The bytes of a frame with a 16-bit length as the older engine sees them. */
  lemma MediumFrameLayout(fin: bool, opcode: byte, mask: seq<byte>, payload: seq<byte>, rest: seq<byte>)
    requires opcode < 16 && |mask| == 4 && 126 <= |payload| < 65536
    ensures var c := ClientFrame(fin, opcode, mask, payload) + rest;
      |c| >= 8 + |payload| && c[0] == FirstByte(fin, opcode) && c[1] == 128 + 126
      && GetLength(c[1..]) == Some(|payload|)
      && c[2..4] == LengthField(|payload|)[1..] && c[6..8] == mask[2..]
  {
    var n := |payload|;
    var c := ClientFrame(fin, opcode, mask, payload) + rest;
    Pow256Small();
    ClientFrameLayout(fin, opcode, mask, payload, rest);
    assert c[1..][0] == 128 + 126;
    assert c[1..][1..3] == LengthField(n)[1..];
    BigEndianRoundTrip(n, 2);
    MaskedLength(c[1..]);
  }

  // Fragments.

  /** The frames of several chunks, delivered in order. */
  function DeliverAll(s: LegacyState, fs: seq<Frame>, decode: seq<byte> -> string): LegacyState
    decreases |fs|
  {
    if fs == [] then s else DeliverAll(Deliver(s, fs[0], decode), fs[1..], decode)
  }

  function PayloadsOf(fs: seq<Frame>): (r: seq<seq<byte>>)
    ensures |r| == |fs| && forall i :: 0 <= i < |fs| ==> r[i] == fs[i].payload
  {
    seq(|fs|, i requires 0 <= i < |fs| => fs[i].payload)
  }

  /** Frames without FIN are only collected. */
  lemma {:induction false} CollectFragments(s: LegacyState, fs: seq<Frame>, decode: seq<byte> -> string)
    requires forall i :: 0 <= i < |fs| ==> !fs[i].fin
    ensures DeliverAll(s, fs, decode) == s.(prevPayloads := s.prevPayloads + PayloadsOf(fs))
    decreases |fs|
  {
    if fs != [] {
      var s1 := Deliver(s, fs[0], decode);
      CollectFragments(s1, fs[1..], decode);
      assert s.prevPayloads + PayloadsOf(fs) == s1.prevPayloads + PayloadsOf(fs[1..]);
    }
  }

  /** A fragmented message: the fragments are joined when the final frame
      carries opcode 1 or 2 itself, and the whole message is lost when the
      final frame is a continuation frame (opcode 0), which is how section
      5.4 of RFC 6455 ends a fragmented message; either way the collected
      fragments are cleared. */
  lemma FragmentedMessage(s: LegacyState, fs: seq<Frame>, last: Frame, decode: seq<byte> -> string)
    requires forall i :: 0 <= i < |fs| ==> !fs[i].fin
    requires last.fin
    ensures var r := DeliverAll(s, fs + [last], decode);
      var whole := Concat(s.prevPayloads + PayloadsOf(fs)) + last.payload;
      r.prevPayloads == [] && r.upgraded == s.upgraded && r.writes == s.writes
      && r.events == s.events + (if last.opcode == 1 then [TextMessage(decode(whole))]
                                 else if last.opcode == 2 then [BinaryMessage(whole)] else [])
  {
    var mid := s.(prevPayloads := s.prevPayloads + PayloadsOf(fs));
    DeliverAllAppend(s, fs, [last], decode);
    CollectFragments(s, fs, decode);
    assert DeliverAll(mid, [last], decode) == DeliverAll(Deliver(mid, last, decode), [], decode);
  }

  lemma {:induction false} DeliverAllAppend(s: LegacyState, fs: seq<Frame>, gs: seq<Frame>, decode: seq<byte> -> string)
    ensures DeliverAll(s, fs + gs, decode) == DeliverAll(DeliverAll(s, fs, decode), gs, decode)
    decreases |fs|
  {
    if fs != [] {
      assert (fs + gs)[1..] == fs[1..] + gs;
      DeliverAllAppend(Deliver(s, fs[0], decode), fs[1..], gs, decode);
    } else {
      assert fs + gs == gs;
    }
  }

  /** `send` on the older engine: rejected before the upgrade without
      writing; after it one write of a frame that, for at most 125 bytes, a
      reader of the short frame form reads back with FIN, the opcode and the
      payload. */
  lemma SendWritesOneFrame(s: LegacyState, p: Payload, writeSucceeds: bool, utf8Encode: string -> seq<byte>)
    requires |SendBytes(p, utf8Encode)| <= 125
    ensures var (r, result) := SendStep(s, p, writeSucceeds, utf8Encode);
      (!s.upgraded ==> r == s && result == Rejected(NotReady))
      && (s.upgraded ==>
            r == s.(writes := r.writes) && |r.writes| == |s.writes| + 1
            && r.writes[..|s.writes|] == s.writes && r.writes[|s.writes|].BytesWrite?
            && ReadShortFrame(r.writes[|s.writes|].bytes) == Some((true, SendOpcode(p), SendBytes(p, utf8Encode)))
            && (result == Resolved <==> writeSucceeds))
  {
    ServerFrameShortForm(SendOpcode(p), SendBytes(p, utf8Encode));
  }
}
