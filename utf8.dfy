/**
 * UTF-8 as RFC 3629 defines it. Rust strings are UTF-8 byte buffers:
 * `str::as_bytes` is `Encode`, and `fs::read_to_string` fails with
 * `InvalidData` exactly when `Decode` finds the bytes ill-formed.
 */
module Utf8 {
  import opened Results

  newtype byte = x: int | 0 <= x < 256

  type Bytes = seq<byte>

  predicate IsContinuation(b: byte) { 0x80 <= b < 0xC0 }

  /** The one-to-four-byte encoding of a Unicode scalar value. */
  function EncodeChar(c: char): (r: Bytes)
    ensures 1 <= |r| <= 4
  {
    var n := c as int;
    if n < 0x80 then [n as byte]
    else if n < 0x800 then [(0xC0 + n / 64) as byte, (0x80 + n % 64) as byte]
    else if n < 0x10000 then
      [(0xE0 + n / 4096) as byte, (0x80 + (n / 64) % 64) as byte, (0x80 + n % 64) as byte]
    else
      [(0xF0 + n / 262144) as byte, (0x80 + (n / 4096) % 64) as byte,
       (0x80 + (n / 64) % 64) as byte, (0x80 + n % 64) as byte]
  }

  function Encode(s: string): Bytes {
    if s == [] then [] else EncodeChar(s[0]) + Encode(s[1..])
  }

  /** A code point `n` written with `len` bytes is well formed: not overlong, not a surrogate, in range. */
  predicate WellFormed(n: int, len: nat) {
    match len
    case 2 => 0x80 <= n < 0x800
    case 3 => 0x800 <= n < 0x10000 && !(0xD800 <= n < 0xE000)
    case 4 => 0x10000 <= n < 0x110000
    case _ => false
  }

  /** Decodes the first character of `b` and says how many bytes it took. */
  function DecodeChar(b: Bytes): (r: Option<(char, nat)>)
    ensures r.Some? ==> 1 <= r.value.1 <= |b| && r.value.1 <= 4
  {
    if |b| == 0 then None
    else if b[0] < 0x80 then Some(((b[0] as int) as char, 1))
    else if b[0] < 0xC0 then None
    else if b[0] < 0xE0 then
      if |b| < 2 || !IsContinuation(b[1]) then None
      else
        var n := (b[0] as int - 0xC0) * 64 + (b[1] as int - 0x80);
        if WellFormed(n, 2) then Some((n as char, 2)) else None
    else if b[0] < 0xF0 then
      if |b| < 3 || !IsContinuation(b[1]) || !IsContinuation(b[2]) then None
      else
        var n := (b[0] as int - 0xE0) * 4096 + (b[1] as int - 0x80) * 64 + (b[2] as int - 0x80);
        if WellFormed(n, 3) then Some((n as char, 3)) else None
    else if b[0] < 0xF8 then
      if |b| < 4 || !IsContinuation(b[1]) || !IsContinuation(b[2]) || !IsContinuation(b[3]) then None
      else
        var n := (b[0] as int - 0xF0) * 262144 + (b[1] as int - 0x80) * 4096
                 + (b[2] as int - 0x80) * 64 + (b[3] as int - 0x80);
        if WellFormed(n, 4) then Some((n as char, 4)) else None
    else None
  }

  /** The text `b` encodes, or `None` when `b` is not well-formed UTF-8. */
  function Decode(b: Bytes): Option<string>
    decreases |b|
  {
    if b == [] then Some([])
    else
      match DecodeChar(b)
      case None => None
      case Some((c, k)) =>
        match Decode(b[k..])
        case None => None
        case Some(t) => Some([c] + t)
  }

  /** Splitting `n` into six-bit groups and putting them back together gives `n`. */
  lemma SixBitGroups(n: nat)
    ensures n == (n / 64) * 64 + n % 64
    ensures n / 64 == (n / 4096) * 64 + (n / 64) % 64
    ensures n / 4096 == (n / 262144) * 64 + (n / 4096) % 64
  {
    assert n / 4096 == (n / 64) / 64;
    assert n / 262144 == (n / 4096) / 64;
  }

  lemma DecodeEncodeChar(c: char, rest: Bytes)
    ensures DecodeChar(EncodeChar(c) + rest) == Some((c, |EncodeChar(c)|))
  {
    var n := c as int;
    var e := EncodeChar(c);
    var b := e + rest;
    SixBitGroups(n);
    if n < 0x80 {
      assert b[0] == e[0];
    } else if n < 0x800 {
      DecodeTwo(n, b);
    } else if n < 0x10000 {
      DecodeThree(n, b);
    } else {
      DecodeFour(n, b);
    }
  }

  lemma DecodeTwo(n: int, b: Bytes)
    requires 0x80 <= n < 0x800 && |b| >= 2
    requires n == (n / 64) * 64 + n % 64
    requires b[0] as int == 0xC0 + n / 64 && b[1] as int == 0x80 + n % 64
    ensures DecodeChar(b) == Some((n as char, 2))
  {
  }

  lemma DecodeThree(n: int, b: Bytes)
    requires 0x800 <= n < 0x10000 && !(0xD800 <= n < 0xE000) && |b| >= 3
    requires n == (n / 64) * 64 + n % 64
    requires n / 64 == (n / 4096) * 64 + (n / 64) % 64
    requires b[0] as int == 0xE0 + n / 4096 && b[1] as int == 0x80 + (n / 64) % 64
    requires b[2] as int == 0x80 + n % 64
    ensures DecodeChar(b) == Some((n as char, 3))
  {
    var x, y, z := n / 4096, (n / 64) % 64, n % 64;
    assert n == x * 4096 + y * 64 + z;
  }

  lemma DecodeFour(n: int, b: Bytes)
    requires 0x10000 <= n < 0x110000 && |b| >= 4
    requires n == (n / 64) * 64 + n % 64
    requires n / 64 == (n / 4096) * 64 + (n / 64) % 64
    requires n / 4096 == (n / 262144) * 64 + (n / 4096) % 64
    requires b[0] as int == 0xF0 + n / 262144 && b[1] as int == 0x80 + (n / 4096) % 64
    requires b[2] as int == 0x80 + (n / 64) % 64 && b[3] as int == 0x80 + n % 64
    ensures DecodeChar(b) == Some((n as char, 4))
  {
    var w, x, y, z := n / 262144, (n / 4096) % 64, (n / 64) % 64, n % 64;
    assert n == w * 262144 + x * 4096 + y * 64 + z;
  }

  /** Every string's encoding is well-formed UTF-8 and decodes back to the string. */
  lemma {:induction false} DecodeEncode(s: string)
    ensures Decode(Encode(s)) == Some(s)
  {
    if s != [] {
      var e, rest := EncodeChar(s[0]), Encode(s[1..]);
      DecodeEncodeChar(s[0], rest);
      assert Encode(s) == e + rest;
      assert (e + rest)[|e|..] == rest;
      DecodeEncode(s[1..]);
      assert s == [s[0]] + s[1..];
    }
  }

  /** Only an empty text encodes to no bytes. */
  lemma EncodeEmpty(s: string)
    ensures |Encode(s)| == 0 <==> s == []
  {
  }
}
