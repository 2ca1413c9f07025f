/** Bytes, little-endian integers and the UTF-8 encoding of section 3 of
    RFC 3629, which the ROS1 wire format uses for every multi-byte value and
    every string. */
module Bytes {
  import opened Wrappers

  newtype byte = x: int | 0 <= x < 256

  function Pow256(w: nat): (p: nat)
    ensures p >= 1
  {
    if w == 0 then 1 else 256 * Pow256(w - 1)
  }

  /** The `w` bytes of `n` modulo 256^w, least significant first: what
      `DataView.setUint8/16/32` and `setBigUint64` store with littleEndian set,
      and, for a negative `n`, its two's complement as the `setInt*` variants
      store it. */
  function LittleEndian(n: int, w: nat): (bs: seq<byte>)
    ensures |bs| == w
    decreases w
  {
    if w == 0 then [] else [(n % 256) as byte] + LittleEndian(n / 256, w - 1)
  }

  /** The unsigned value of a little-endian byte sequence. */
  function FromLittleEndian(bs: seq<byte>): (n: nat)
    ensures n < Pow256(|bs|)
  {
    if bs == [] then 0 else bs[0] as nat + 256 * FromLittleEndian(bs[1..])
  }

  lemma MulAtLeast(x: int, d: int)
    requires x >= 1 && d > 0
    ensures x * d >= d
  {
  }

  lemma ZeroFactor(x: int, d: int)
    requires d > 0 && -d < x * d < d
    ensures x == 0
  {
    if x >= 1 {
      MulAtLeast(x, d);
      assert false;
    } else if x <= -1 {
      MulAtLeast(-x, d);
      assert false;
    }
  }

  /** Quotient and remainder are determined by `n == d * q + r` with `0 <= r < d`. */
  lemma DivModUnique(n: int, d: int, q: int, r: int)
    requires d > 0 && n == d * q + r && 0 <= r < d
    ensures n / d == q && n % d == r
  {
    var q', r' := n / d, n % d;
    assert (q - q') * d == r' - r;
    ZeroFactor(q - q', d);
  }

  lemma ModSplit(n: int, p: nat)
    requires p >= 1
    ensures n % (256 * p) == n % 256 + 256 * ((n / 256) % p)
  {
    var a, b := n / 256, n % 256;
    var c, e := a / p, a % p;
    assert n == 256 * a + b;
    assert a == p * c + e;
    assert n == (256 * p) * c + (256 * e + b) by {
      calc {
        n;
        256 * a + b;
        256 * (p * c + e) + b;
        (256 * p) * c + (256 * e + b);
      }
    }
    assert 256 * e + b < 256 * p by { assert e <= p - 1; }
    DivModUnique(n, 256 * p, c, 256 * e + b);
  }

  /** Reading back what `LittleEndian` stores gives the value modulo 256^w. */
  lemma {:induction false} LittleEndianRoundTrip(n: int, w: nat)
    ensures FromLittleEndian(LittleEndian(n, w)) == n % Pow256(w)
    decreases w
  {
    if w > 0 {
      LittleEndianRoundTrip(n / 256, w - 1);
      ModSplit(n, Pow256(w - 1));
      assert LittleEndian(n, w)[1..] == LittleEndian(n / 256, w - 1);
    }
  }

  // ----- UTF-8 (RFC 3629, section 3) -----

  /** Number of octets the UTF-8 encoding of one code point takes. */
  function CodePointLength(c: char): (n: nat)
    ensures 1 <= n <= 4
  {
    var v := c as int;
    if v < 0x80 then 1 else if v < 0x800 then 2 else if v < 0x10000 then 3 else 4
  }

  /** UTF-8 byte length of a string: what the calculator adds after the
      four-byte length prefix. */
  function Utf8Length(s: string): nat {
    if s == [] then 0 else CodePointLength(s[0]) + Utf8Length(s[1..])
  }

  /** The octets of one code point, as the table of RFC 3629 section 3 lays them out. */
  function EncodeCodePoint(c: char): (bs: seq<byte>)
    ensures |bs| == CodePointLength(c)
  {
    var v := c as int;
    if v < 0x80 then [v as byte]
    else if v < 0x800 then [(0xC0 + v / 64) as byte, (0x80 + v % 64) as byte]
    else if v < 0x10000 then
      [(0xE0 + v / 4096) as byte, (0x80 + (v / 64) % 64) as byte, (0x80 + v % 64) as byte]
    else
      [(0xF0 + v / 262144) as byte, (0x80 + (v / 4096) % 64) as byte,
       (0x80 + (v / 64) % 64) as byte, (0x80 + v % 64) as byte]
  }

  /** What `TextEncoder` produces for a string of Unicode scalar values. */
  function Utf8Encode(s: string): (bs: seq<byte>)
    ensures |bs| == Utf8Length(s)
  {
    if s == [] then [] else EncodeCodePoint(s[0]) + Utf8Encode(s[1..])
  }

  predicate IsContinuation(b: byte) { 0x80 <= b < 0xC0 }

  /** A Unicode scalar value as a char, or nothing for surrogates and values beyond U+10FFFF. */
  function ToChar(v: int): Option<char> {
    if 0 <= v < 0xD800 || 0xE000 <= v < 0x110000 then Some(v as char) else None
  }

  /** Decodes the first code point of `bs`: the character and the number of
      octets it took, rejecting malformed and overlong sequences. */
  function DecodeCodePoint(bs: seq<byte>): (r: Option<(char, nat)>)
    ensures r.Some? ==> 1 <= r.value.1 <= |bs| && r.value.1 == CodePointLength(r.value.0)
  {
    if bs == [] then None
    else
      var b0 := bs[0] as int;
      if b0 < 0x80 then Some((b0 as char, 1))
      else if 0xC0 <= b0 < 0xE0 && |bs| >= 2 && IsContinuation(bs[1]) then
        var v := (b0 - 0xC0) * 64 + (bs[1] as int - 0x80);
        if v < 0x80 then None else Some((v as char, 2))
      else if 0xE0 <= b0 < 0xF0 && |bs| >= 3 && IsContinuation(bs[1]) && IsContinuation(bs[2]) then
        var v := (b0 - 0xE0) * 4096 + (bs[1] as int - 0x80) * 64 + (bs[2] as int - 0x80);
        if v < 0x800 then None
        else match ToChar(v) case Some(c) => Some((c, 3)) case None => None
      else if 0xF0 <= b0 < 0xF8 && |bs| >= 4 && IsContinuation(bs[1]) && IsContinuation(bs[2])
              && IsContinuation(bs[3]) then
        var v := (b0 - 0xF0) * 262144 + (bs[1] as int - 0x80) * 4096
                 + (bs[2] as int - 0x80) * 64 + (bs[3] as int - 0x80);
        if v < 0x10000 then None
        else match ToChar(v) case Some(c) => Some((c, 4)) case None => None
      else None
  }

  /** UTF-8 decoding of a whole byte sequence; nothing if any part is malformed. */
  function Utf8Decode(bs: seq<byte>): Option<string>
    decreases |bs|
  {
    if bs == [] then Some([])
    else match DecodeCodePoint(bs)
      case None => None
      case Some((c, n)) =>
        match Utf8Decode(bs[n..])
        case None => None
        case Some(rest) => Some([c] + rest)
  }

  lemma DecodeEncodedCodePoint(c: char, tail: seq<byte>)
    ensures DecodeCodePoint(EncodeCodePoint(c) + tail) == Some((c, CodePointLength(c)))
  {
    var v := c as int;
    if v < 0x80 {
    } else if v < 0x800 {
      DecodeTwo(c, tail);
    } else if v < 0x10000 {
      DecodeThree(c, tail);
    } else {
      DecodeFour(c, tail);
    }
  }

  lemma DecodeTwo(c: char, tail: seq<byte>)
    requires 0x80 <= c as int < 0x800
    ensures DecodeCodePoint(EncodeCodePoint(c) + tail) == Some((c, 2))
  {
    var v := c as int;
    var bs := EncodeCodePoint(c) + tail;
    assert bs[0] as int == 0xC0 + v / 64 && bs[1] as int == 0x80 + v % 64;
    assert (v / 64) * 64 + v % 64 == v;
  }

  lemma DecodeThree(c: char, tail: seq<byte>)
    requires 0x800 <= c as int < 0x10000
    ensures DecodeCodePoint(EncodeCodePoint(c) + tail) == Some((c, 3))
  {
    var v := c as int;
    var bs := EncodeCodePoint(c) + tail;
    var a, b, d := v / 4096, (v / 64) % 64, v % 64;
    assert bs[0] as int == 0xE0 + a && bs[1] as int == 0x80 + b && bs[2] as int == 0x80 + d;
    assert a < 16;
    assert a * 4096 + b * 64 + d == v by {
      assert v / 64 == a * 64 + b;
      assert v == (v / 64) * 64 + d;
    }
    assert ToChar(v) == Some(c);
  }

  lemma DecodeFour(c: char, tail: seq<byte>)
    requires 0x10000 <= c as int
    ensures DecodeCodePoint(EncodeCodePoint(c) + tail) == Some((c, 4))
  {
    var v := c as int;
    var bs := EncodeCodePoint(c) + tail;
    var a, b, d, e := v / 262144, (v / 4096) % 64, (v / 64) % 64, v % 64;
    assert bs[0] as int == 0xF0 + a && bs[1] as int == 0x80 + b;
    assert bs[2] as int == 0x80 + d && bs[3] as int == 0x80 + e;
    assert a < 8;
    assert a * 262144 + b * 4096 + d * 64 + e == v by {
      assert v / 4096 == a * 64 + b;
      assert v / 64 == (v / 4096) * 64 + d;
      assert v == (v / 64) * 64 + e;
    }
    assert ToChar(v) == Some(c);
  }

  /** Decoding undoes `Utf8Encode`. */
  lemma {:induction false} Utf8RoundTrip(s: string)
    ensures Utf8Decode(Utf8Encode(s)) == Some(s)
  {
    if s != [] {
      var head := EncodeCodePoint(s[0]);
      var tail := Utf8Encode(s[1..]);
      DecodeEncodedCodePoint(s[0], tail);
      assert (head + tail)[|head|..] == tail;
      Utf8RoundTrip(s[1..]);
      assert [s[0]] + s[1..] == s;
    }
  }
}
