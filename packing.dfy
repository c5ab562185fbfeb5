/** The envelope codec of src/utils/packing.ts: a value travels as the UTF-8
    bytes of its JSON text, every byte complemented, in reverse order. JSON
    and UTF-8 are parameters: `stringify`, `utf8Encode`, `utf8Decode`, and
    `parse`, which gives `None` where `JSON.parse` throws a SyntaxError. */
module Packing {
  import opened Wire

  /** `~v & 0xff`: `~v` is -v - 1, whose low eight bits are 255 - v. */
  function Complement(v: byte): byte
  {
    255 - v
  }

  lemma {:induction false} XorBitsAllOnes(a: nat, n: nat)
    requires a < Pow2(n)
    ensures XorBits(a, Pow2(n) - 1, n) == Pow2(n) - 1 - a
  {
    if n > 0 {
      var m := Pow2(n) - 1;
      assert m / 2 == Pow2(n - 1) - 1 && m % 2 == 1;
      assert (a + m) % 2 == 1 - a % 2;
      XorBitsAllOnes(a / 2, n - 1);
    }
  }

  /** The complement is the bitwise NOT of the byte: XOR with 0xff. */
  lemma ComplementIsNot(v: byte)
    ensures Complement(v) == Xor(v, 255)
  {
    assert Pow2(8) == 256;
    XorBitsAllOnes(v, 8);
  }

  /** `.map((v) => ~v & 0xff)` */
  function Flip(bytes: seq<byte>): (r: seq<byte>)
    ensures |r| == |bytes|
  {
    seq(|bytes|, i requires 0 <= i < |bytes| => Complement(bytes[i]))
  }

  /** `.reverse()` */
  function Reverse(s: seq<byte>): (r: seq<byte>)
    ensures |r| == |s| && forall i :: 0 <= i < |s| ==> r[i] == s[|s| - 1 - i]
  {
    if s == [] then [] else Reverse(s[1..]) + [s[0]]
  }

  lemma FlipTwice(s: seq<byte>)
    ensures Flip(Flip(s)) == s
  {
  }

  lemma ReverseTwice(s: seq<byte>)
    ensures Reverse(Reverse(s)) == s
  {
  }

  /** Complementing each byte and reversing the order commute. */
  lemma FlipReverseCommute(s: seq<byte>)
    ensures Flip(Reverse(s)) == Reverse(Flip(s))
  {
  }

  /** `packData(data)`: both branches, TextEncoder and Buffer.from, write the
      same UTF-8 bytes of the JSON text, so the result does not depend on
      which one runs. */
  function PackData<T>(data: T, stringify: T -> string, utf8Encode: string -> seq<byte>): (r: seq<byte>)
    ensures var text := utf8Encode(stringify(data));
      |r| == |text| && forall i :: 0 <= i < |r| ==> r[i] == 255 - text[|text| - 1 - i]
  {
    Reverse(Flip(utf8Encode(stringify(data))))
  }

  /** The bytes `unpackData` decodes: the argument reversed, then complemented. */
  function Unwrapped(bytes: seq<byte>): seq<byte>
  {
    Flip(Reverse(bytes))
  }

  /** The value `unpackData` returns, `None` where `JSON.parse` throws. */
  function Unpacked<T>(bytes: seq<byte>, utf8Decode: seq<byte> -> string, parse: string -> Option<T>): Option<T>
  {
    parse(utf8Decode(Unwrapped(bytes)))
  }

  /** At byte level unpacking undoes packing, and packing undoes unpacking. */
  lemma UnwrapWrap(text: seq<byte>, bytes: seq<byte>)
    ensures Unwrapped(Reverse(Flip(text))) == text
    ensures Reverse(Flip(Unwrapped(bytes))) == bytes
  {
    ReverseTwice(Flip(text));
    FlipTwice(text);
    FlipReverseCommute(bytes);
    FlipTwice(Reverse(bytes));
    ReverseTwice(bytes);
  }

  /** `unpackData(packData(data))` is `JSON.parse(JSON.stringify(data))`
      when UTF-8 decoding restores the encoded JSON text; it is `data` itself
      when JSON also round-trips. */
  lemma UnpackPack<T>(data: T, stringify: T -> string, utf8Encode: string -> seq<byte>,
                      utf8Decode: seq<byte> -> string, parse: string -> Option<T>)
    requires utf8Decode(utf8Encode(stringify(data))) == stringify(data)
    ensures Unpacked(PackData(data, stringify, utf8Encode), utf8Decode, parse) == parse(stringify(data))
    ensures parse(stringify(data)) == Some(data) ==> Unpacked(PackData(data, stringify, utf8Encode), utf8Decode, parse) == Some(data)
  {
    UnwrapWrap(utf8Encode(stringify(data)), []);
  }

  /** A sequence whose element k is element |s| - 1 - k of `s` is its reverse. */
  lemma ReversePointwise(s: seq<byte>, r: seq<byte>)
    requires |r| == |s| && forall k :: 0 <= k < |s| ==> r[k] == s[|s| - 1 - k]
    ensures r == Reverse(s)
  {
  }

  /** `array.reverse()`, which reverses the caller's array in place. */
  method ReverseInPlace(a: array<byte>)
    modifies a
    ensures a[..] == Reverse(old(a[..]))
  {
    var n := a.Length;
    var i := 0;
    while i < n / 2
      invariant 0 <= i <= n / 2
      invariant forall k :: 0 <= k < n ==>
        a[k] == if k < i || k >= n - i then old(a[n - 1 - k]) else old(a[k])
    {
      a[i], a[n - 1 - i] := a[n - 1 - i], a[i];
      i := i + 1;
    }
    ReversePointwise(old(a[..]), a[..]);
  }

  /** `unpackData(array)`: the argument is reversed in place, a complemented
      copy is decoded as UTF-8 and parsed as JSON. */
  method UnpackData<T>(a: array<byte>, utf8Decode: seq<byte> -> string, parse: string -> Option<T>)
    returns (r: Option<T>)
    modifies a
    ensures a[..] == Reverse(old(a[..]))
    ensures r == Unpacked(old(a[..]), utf8Decode, parse)
  {
    ReverseInPlace(a);
    var out := ComplementAll(a);
    r := parse(utf8Decode(out));
  }

  /** `.map((v) => ~v & 0xff)` on an array: a new array of the complements. */
  method ComplementAll(a: array<byte>) returns (out: seq<byte>)
    ensures out == Flip(a[..])
  {
    var b := new byte[a.Length];
    for i := 0 to a.Length
      invariant b[..i] == Flip(a[..])[..i]
    {
      b[i] := Complement(a[i]);
    }
    assert b[..] == b[..a.Length];
    out := b[..];
  }
}
