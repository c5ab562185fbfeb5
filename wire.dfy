/** Octets, the JavaScript bit operations the engines apply to them, big-endian
    integers, and the server-to-client frame that both engines' `send` writes. */
module Wire {

  /** One element of a Node.js Buffer or Uint8Array. */
  type byte = b: int | 0 <= b < 256

  datatype Option<+T> = None | Some(value: T)

  /** The exceptions a `data` listener can raise: a Buffer read past its end
      (RangeError) and redefining a frozen, non-configurable property (TypeError). */
  datatype JsError = RangeError | TypeError

  /** How one run of a `data` listener ended. Changes made before a throw stay. */
  datatype Outcome = Returned | Threw(error: JsError)

  /** The two HTTP responses the engines write during the opening handshake:
      the redirect of a plain request and the 101 reply to an upgrade. Their
      text is `Http.Render`. */
  datatype Response = Found(path: Option<string>) | SwitchingProtocols(accepted: string)

  /** A call of `socket.write`: with the text of a response (written as UTF-8)
      or with bytes. */
  datatype Written = ResponseWrite(response: Response) | BytesWrite(bytes: seq<byte>)

  /** What `send` accepts at run time. Only a real Buffer counts as binary;
      a plain Uint8Array goes down the string branch and is copied by Buffer.from. */
  datatype Payload = BufferData(bytes: seq<byte>) | TypedArray(bytes: seq<byte>) | Text(text: string)

  datatype SendError = NotReady | WriteFailed

  /** How the promise returned by `send` settles. */
  datatype SendResult = Resolved | Rejected(reason: SendError)

  function Min(a: int, b: int): int { if a <= b then a else b }

  function Pow2(n: nat): (r: nat)
    ensures r >= 1
  {
    if n == 0 then 1 else 2 * Pow2(n - 1)
  }

  /** Bitwise exclusive or of the low `n` bits of `a` and `b`. */
  function XorBits(a: nat, b: nat, n: nat): (r: nat)
    ensures r < Pow2(n)
  {
    if n == 0 then 0 else 2 * XorBits(a / 2, b / 2, n - 1) + (a + b) % 2
  }

  /** The JavaScript `a ^ b` of two bytes. */
  function Xor(a: byte, b: byte): byte
  {
    assert Pow2(8) == 256;
    XorBits(a, b, 8)
  }

  lemma {:induction false} XorBitsTwice(a: nat, b: nat, n: nat)
    ensures XorBits(XorBits(a, b, n), b, n) == XorBits(a, 0, n)
  {
    if n > 0 {
      var x := XorBits(a, b, n);
      var bit := (a + b) % 2;
      HalfAndParity(XorBits(a / 2, b / 2, n - 1), bit);
      assert (x + b) % 2 == a % 2 by { SumParity(x, a, b); }
      XorBitsTwice(a / 2, b / 2, n - 1);
    }
  }

  lemma HalfAndParity(y: nat, bit: nat)
    requires bit < 2
    ensures (2 * y + bit) / 2 == y && (2 * y + bit) % 2 == bit
  {
  }

  lemma SumParity(x: nat, a: nat, b: nat)
    requires x % 2 == (a + b) % 2
    ensures (x + b) % 2 == a % 2
  {
  }

  /** XOR with zero keeps the low `n` bits, which are all the bits of a small value. */
  lemma {:induction false} XorBitsZero(a: nat, n: nat)
    requires a < Pow2(n)
    ensures XorBits(a, 0, n) == a
  {
    if n > 0 {
      XorBitsZero(a / 2, n - 1);
    }
  }

  lemma XorTwice(a: byte, b: byte)
    ensures Xor(Xor(a, b), b) == a
  {
    assert Pow2(8) == 256;
    XorBitsTwice(a, b, 8);
    XorBitsZero(a, 8);
  }

  /** `mask[i % 4]` as an operand of `^`: past the end of a short mask the
      element is `undefined`, which JavaScript converts to 0. */
  function MaskByte(mask: seq<byte>, i: nat): byte
  {
    if i % 4 < |mask| then mask[i % 4] else 0
  }

  /** The payload with byte i XOR-ed with the mask byte at i mod 4. */
  function Masked(payload: seq<byte>, mask: seq<byte>): (r: seq<byte>)
    ensures |r| == |payload|
  {
    seq(|payload|, i requires 0 <= i < |payload| => Xor(payload[i], MaskByte(mask, i)))
  }

  /** Masking is an involution: unmasking with the same key restores the bytes
      (section 5.3 of RFC 6455). */
  lemma MaskedTwice(payload: seq<byte>, mask: seq<byte>)
    ensures Masked(Masked(payload, mask), mask) == payload
  {
    var once := Masked(payload, mask);
    forall i | 0 <= i < |payload|
      ensures Masked(once, mask)[i] == payload[i]
    {
      XorTwice(payload[i], MaskByte(mask, i));
    }
  }

  function Pow256(n: nat): (r: nat)
    ensures r >= 1
  {
    if n == 0 then 1 else 256 * Pow256(n - 1)
  }

  /** The unsigned big-endian integer in the bytes (Buffer readUIntBE, readBigUInt64BE). */
  function BigEndian(s: seq<byte>): (r: nat)
    ensures r < Pow256(|s|)
  {
    if s == [] then 0 else BigEndian(s[..|s| - 1]) * 256 + s[|s| - 1]
  }

  /** The `width` low-order bytes of `n`, most significant first. */
  function ToBigEndian(n: nat, width: nat): (r: seq<byte>)
    ensures |r| == width
  {
    if width == 0 then [] else ToBigEndian(n / 256, width - 1) + [n % 256]
  }

  lemma {:induction false} BigEndianRoundTrip(n: nat, width: nat)
    requires n < Pow256(width)
    ensures BigEndian(ToBigEndian(n, width)) == n
  {
    if width > 0 {
      var s := ToBigEndian(n, width);
      assert s[..width - 1] == ToBigEndian(n / 256, width - 1);
      BigEndianRoundTrip(n / 256, width - 1);
    }
  }

  /** The opcode `send` chooses: 2 for a Buffer, 1 otherwise. */
  function SendOpcode(p: Payload): byte
  {
    if p.BufferData? then 2 else 1
  }

  /** The bytes `send` puts in the frame; a string goes through Buffer.from (UTF-8). */
  function SendBytes(p: Payload, utf8Encode: string -> seq<byte>): seq<byte>
  {
    match p
    case BufferData(b) => b
    case TypedArray(b) => b
    case Text(s) => utf8Encode(s)
  }

  /** The frame `send` writes: byte 0 is 0x80 | opcode (written as
      128 + opcode % 128, the same value for a byte), byte 1 is the payload
      length stored into a Uint8Array (so only its low 8 bits survive), then
      the payload, unmasked. There is no extended length form. */
  function ServerFrame(opcode: byte, payload: seq<byte>): (r: seq<byte>)
    ensures |r| == |payload| + 2 && r[2..] == payload
    ensures r[0] >= 128 && r[0] % 16 == opcode % 16 && r[1] == |payload| % 256
  {
    [128 + opcode % 128, |payload| % 256] + payload
  }

  /** A reader of the short frame form of section 5.2 of RFC 6455 for frames
      without a mask: FIN, the opcode, a base length of at most 125 and exactly
      that many payload bytes. */
  function ReadShortFrame(f: seq<byte>): Option<(bool, byte, seq<byte>)>
  {
    if |f| < 2 || f[1] > 125 || |f| != 2 + f[1] then None
    else Some((f[0] >= 128, f[0] % 16, f[2..]))
  }

  /** A payload of at most 125 bytes goes out as a well-formed short frame:
      FIN set, the chosen opcode, no mask, the payload intact. */
  lemma ServerFrameShortForm(opcode: byte, payload: seq<byte>)
    requires opcode < 16 && |payload| <= 125
    ensures ReadShortFrame(ServerFrame(opcode, payload)) == Some((true, opcode, payload))
  {
    var f := ServerFrame(opcode, payload);
    assert f[2..] == payload;
  }

  /** A longer payload does not get the extended length form: the length byte
      is the length modulo 256, so no short-frame reader accepts the frame. */
  lemma ServerFrameLongPayload(opcode: byte, payload: seq<byte>)
    requires |payload| > 125
    ensures ServerFrame(opcode, payload)[1] == |payload| % 256
    ensures ReadShortFrame(ServerFrame(opcode, payload)) == None
  {
  }

  // Frames as a client writes them, and the frame `send` builds.

  /** The size of the header before the mask bytes for a payload of n bytes,
      with the length in its shortest form. */
  function HeaderSize(n: nat): nat
  {
    if n <= 125 then 2 else if n < 65536 then 4 else 10
  }

  /** The length field: 7 bits, or 126 and 16 bits, or 127 and 64 bits,
      each with the MASK bit set. */
  function LengthField(n: nat): (r: seq<byte>)
    ensures |r| == HeaderSize(n) - 1
  {
    if n <= 125 then [128 + n]
    else if n < 65536 then [128 + 126] + ToBigEndian(n, 2)
    else [128 + 127] + ToBigEndian(n, 8)
  }

  /** The first byte of a frame: the FIN bit and the opcode. */
  function FirstByte(fin: bool, opcode: byte): (r: byte)
    requires opcode < 16
    ensures r % 16 == opcode && (r >= 128 <==> fin)
  {
    (if fin then 128 else 0) + opcode
  }

  /** A frame as a client writes it (section 5.2 of RFC 6455): FIN and the
      opcode, the length field, the four mask bytes and the masked payload. */
  function ClientFrame(fin: bool, opcode: byte, mask: seq<byte>, payload: seq<byte>): (r: seq<byte>)
    requires opcode < 16 && |mask| == 4
    ensures |r| == HeaderSize(|payload|) + 4 + |payload|
  {
    [FirstByte(fin, opcode)] + LengthField(|payload|) + mask + Masked(payload, mask)
  }

  lemma Pow256Small()
    ensures Pow256(2) == 65536 && Pow256(4) == 4294967296
  {
    assert Pow256(1) == 256;
    assert Pow256(3) == 16777216;
  }

  /** The layout of a client frame followed by other bytes. */
  lemma ClientFrameLayout(fin: bool, opcode: byte, mask: seq<byte>, payload: seq<byte>, rest: seq<byte>)
    requires opcode < 16 && |mask| == 4
    ensures var buf := ClientFrame(fin, opcode, mask, payload) + rest;
      var hs := HeaderSize(|payload|);
      buf[0] == FirstByte(fin, opcode) && buf[1..hs] == LengthField(|payload|)
      && buf[hs..hs + 4] == mask
      && buf[hs + 4..hs + 4 + |payload|] == Masked(payload, mask)
      && buf[hs + 4 + |payload|..] == rest
  {
    var n := |payload|;
    var hs := HeaderSize(n);
    var head := [FirstByte(fin, opcode)] + LengthField(n);
    var buf := ClientFrame(fin, opcode, mask, payload) + rest;
    assert buf == head + (mask + (Masked(payload, mask) + rest));
    assert buf[..hs] == head;
    assert buf[hs..] == mask + (Masked(payload, mask) + rest);
    assert buf[hs + 4..] == Masked(payload, mask) + rest;
    assert buf[hs + 4 + n..] == rest;
  }

  lemma MaskedPrefix(payload: seq<byte>, mask: seq<byte>, j: nat)
    requires j <= |payload|
    ensures Masked(payload, mask)[..j] == Masked(payload[..j], mask)
  {
  }

  lemma {:induction false} HighBytesZero(n: nat, w: nat, k: nat)
    requires n < Pow256(w)
    ensures ToBigEndian(n, w + k)[..k] == ToBigEndian(0, k)
    decreases w
  {
    if w == 0 {
      assert n == 0;
    } else {
      assert n / 256 < Pow256(w - 1);
      HighBytesZero(n / 256, w - 1, k);
      assert ToBigEndian(n, w + k)[..k] == ToBigEndian(n / 256, w - 1 + k)[..k];
    }
  }

  /** The frame `send` writes, built in a buffer of length + 2 bytes: the
      first byte `0b10000000 | opcode`, the length stored into the second
      byte, the payload copied from offset 2. Its properties are those of
      `ServerFrame`. */
  method BuildFrame(opcode: byte, bytes: seq<byte>) returns (frame: seq<byte>)
    ensures frame == ServerFrame(opcode, bytes)
  {
    var length := |bytes|;
    var out := new byte[length + 2];
    out[0] := 128 + opcode % 128;
    out[1] := length % 256;
    for i := 0 to length
      invariant out[0] == 128 + opcode % 128 && out[1] == length % 256
      invariant out[2..2 + i] == bytes[..i]
    {
      out[2 + i] := bytes[i];
    }
    assert out[2..] == bytes;
    frame := out[..];
  }

}
