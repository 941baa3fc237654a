/**
 * UTF-8 as Rust's `str::as_bytes` produces it and `String::from_utf8` accepts it
 * (RFC 3629 section 3 and 4): shortest form only, no surrogates, nothing above U+10FFFF.
 * Dafny's `char` is a Unicode scalar value, so `string` is exactly Rust's `String`.
 */
module Utf8 {
  import opened Bytes
  import opened Wrappers

  predicate IsContinuation(b: byte) { 0x80 <= b < 0xC0 }

  /** The UTF-8 bytes of one scalar value, six payload bits per continuation byte. */
  function EncodeChar(c: char): (r: seq<byte>)
    ensures 1 <= |r| <= 4
    ensures (c as int < 0x80) <==> |r| == 1
  {
    var n := c as int;
    var m := n / 64;
    var p := m / 64;
    if n < 0x80 then [n]
    else if n < 0x800 then [0xC0 + m, 0x80 + n % 64]
    else if n < 0x1_0000 then [0xE0 + p, 0x80 + m % 64, 0x80 + n % 64]
    else [0xF0 + p / 64, 0x80 + p % 64, 0x80 + m % 64, 0x80 + n % 64]
  }

  /** `s.as_bytes()`. */
  function Encode(s: string): (r: seq<byte>)
    ensures |r| >= |s|
  {
    if s == [] then [] else EncodeChar(s[0]) + Encode(s[1..])
  }

  /** The second byte of a three-byte sequence led by `b0` (Unicode table 3-7). */
  predicate SecondOfThree(b0: byte, b1: byte) {
    if b0 == 0xE0 then 0xA0 <= b1 < 0xC0
    else if b0 == 0xED then 0x80 <= b1 < 0xA0
    else IsContinuation(b1)
  }

  /** The second byte of a four-byte sequence led by `b0` (Unicode table 3-7). */
  predicate SecondOfFour(b0: byte, b1: byte) {
    if b0 == 0xF0 then 0x90 <= b1 < 0xC0
    else if b0 == 0xF4 then 0x80 <= b1 < 0x90
    else IsContinuation(b1)
  }

  /** The payload bits of a continuation byte. */
  function Low(b: byte): int { b as int - 0x80 }

  /** The scalar value that starts `b` and how many bytes it takes, or None if `b` does not start with one. */
  function DecodeFirst(b: seq<byte>): (r: Option<(char, nat)>)
    requires b != []
    ensures r.Some? ==> 1 <= r.value.1 <= |b| && r.value.1 <= 4
  {
    var b0 := b[0] as int;
    if b0 < 0x80 then
      Some((b0 as char, 1))
    else if 0xC2 <= b0 < 0xE0 then
      if |b| >= 2 && IsContinuation(b[1])
      then Some((((b0 - 0xC0) * 64 + Low(b[1])) as char, 2))
      else None
    else if 0xE0 <= b0 < 0xF0 then
      if |b| >= 3 && SecondOfThree(b0, b[1]) && IsContinuation(b[2])
      then Some(((((b0 - 0xE0) * 64 + Low(b[1])) * 64 + Low(b[2])) as char, 3))
      else None
    else if 0xF0 <= b0 < 0xF5 then
      if |b| >= 4 && SecondOfFour(b0, b[1]) && IsContinuation(b[2]) && IsContinuation(b[3])
      then Some((((((b0 - 0xF0) * 64 + Low(b[1])) * 64 + Low(b[2])) * 64 + Low(b[3])) as char, 4))
      else None
    else
      None
  }

  /** `String::from_utf8(b)`: the string whose bytes `b` are, or None when `b` is not UTF-8. */
  function Decode(b: seq<byte>): (r: Option<string>)
    ensures r.Some? ==> |r.value| <= |b|
    decreases |b|
  {
    if b == [] then Some([])
    else match DecodeFirst(b)
      case None => None
      case Some((c, k)) =>
        match Decode(b[k..])
        case None => None
        case Some(s) => Some([c] + s)
  }

  /** Division by 64 undoes `hi * 64 + lo`. */
  lemma Peel(n: int, hi: int, lo: int)
    requires 0 <= lo < 64 && n == hi * 64 + lo
    ensures n / 64 == hi && n % 64 == lo
  {
  }

  lemma DecodeFirstOfEncodeChar(c: char, rest: seq<byte>)
    ensures DecodeFirst(EncodeChar(c) + rest) == Some((c, |EncodeChar(c)|))
  {
    var n := c as int;
    var m := n / 64;
    var p := m / 64;
    var b := EncodeChar(c) + rest;
    if n < 0x80 {
    } else if n < 0x800 {
      assert b[0] as int - 0xC0 == m && Low(b[1]) == n % 64;
    } else if n < 0x1_0000 {
      assert b[0] as int - 0xE0 == p && Low(b[1]) == m % 64 && Low(b[2]) == n % 64;
      assert p * 64 + m % 64 == m;
    } else {
      assert b[0] as int - 0xF0 == p / 64 && Low(b[1]) == p % 64;
      assert Low(b[2]) == m % 64 && Low(b[3]) == n % 64;
      assert (p / 64) * 64 + p % 64 == p;
      assert p * 64 + m % 64 == m;
    }
  }

  lemma EncodeCharOfDecodeFirst(b: seq<byte>)
    requires b != [] && DecodeFirst(b).Some?
    ensures EncodeChar(DecodeFirst(b).value.0) == b[..DecodeFirst(b).value.1]
  {
    var b0 := b[0] as int;
    var (c, k) := DecodeFirst(b).value;
    var n := c as int;
    if b0 < 0x80 {
    } else if b0 < 0xE0 {
      Peel(n, b0 - 0xC0, Low(b[1]));
    } else if b0 < 0xF0 {
      var m := (b0 - 0xE0) * 64 + Low(b[1]);
      Peel(n, m, Low(b[2]));
      Peel(m, b0 - 0xE0, Low(b[1]));
    } else {
      var p := (b0 - 0xF0) * 64 + Low(b[1]);
      var m := p * 64 + Low(b[2]);
      Peel(n, m, Low(b[3]));
      Peel(m, p, Low(b[2]));
      Peel(p, b0 - 0xF0, Low(b[1]));
    }
  }

  /** Every string survives `as_bytes` followed by `from_utf8`. */
  lemma {:induction false} DecodeEncode(s: string)
    ensures Decode(Encode(s)) == Some(s)
  {
    if s != [] {
      var e := EncodeChar(s[0]);
      DecodeFirstOfEncodeChar(s[0], Encode(s[1..]));
      assert Encode(s) == e + Encode(s[1..]);
      assert (e + Encode(s[1..]))[|e|..] == Encode(s[1..]);
      DecodeEncode(s[1..]);
      assert [s[0]] + s[1..] == s;
    }
  }

  /** `from_utf8` accepts only the bytes of the string it returns. */
  lemma {:induction false} EncodeDecode(b: seq<byte>)
    requires Decode(b).Some?
    ensures Encode(Decode(b).value) == b
    decreases |b|
  {
    if b != [] {
      DecodeCons(b);
      var first := DecodeFirst(b).value;
      var k := first.1;
      EncodeDecode(b[k..]);
      EncodeCharOfDecodeFirst(b);
      Glue(b, first.0, k, Decode(b[k..]).value);
    }
  }

  lemma Glue(b: seq<byte>, c: char, k: nat, s: string)
    requires k <= |b| && EncodeChar(c) == b[..k] && Encode(s) == b[k..]
    ensures Encode([c] + s) == b
  {
    EncodeCons(c, s);
    assert b[..k] + b[k..] == b;
  }

  /** A decoded non-empty byte string is its first scalar value followed by the decoding of the rest. */
  lemma DecodeCons(b: seq<byte>)
    requires b != [] && Decode(b).Some?
    ensures DecodeFirst(b).Some?
    ensures Decode(b[DecodeFirst(b).value.1..]).Some?
    ensures Decode(b).value == [DecodeFirst(b).value.0] + Decode(b[DecodeFirst(b).value.1..]).value
  {
  }

  lemma EncodeCons(c: char, s: string)
    ensures Encode([c] + s) == EncodeChar(c) + Encode(s)
  {
    assert ([c] + s)[0] == c && ([c] + s)[1..] == s;
  }

  lemma {:induction false} EncodeConcat(s: string, t: string)
    ensures Encode(s + t) == Encode(s) + Encode(t)
  {
    if s != [] {
      var c, r := s[0], s[1..];
      var e := EncodeChar(c);
      assert s + t == [c] + (r + t) && [c] + r == s;
      EncodeCons(c, r + t);
      EncodeCons(c, r);
      EncodeConcat(r, t);
      Associate(e, Encode(r), Encode(t));
    } else {
      assert s + t == t;
    }
  }

  lemma Associate(a: seq<byte>, b: seq<byte>, c: seq<byte>)
    ensures a + (b + c) == (a + b) + c
  {
  }
}
