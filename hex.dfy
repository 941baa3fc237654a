/**
 * `hex::encode`: base 16 as in section 8 of RFC 4648, but with the lower-case digits
 * `0-9a-f`, high nibble first. The decoder is the partner the round trips are stated with.
 */
module Hex {
  import opened Bytes
  import opened Wrappers

  predicate IsLowerHexDigit(c: char) { '0' <= c <= '9' || 'a' <= c <= 'f' }

  /** The digit for a nibble. */
  function Digit(d: int): (c: char)
    requires 0 <= d < 16
    ensures IsLowerHexDigit(c)
  {
    if d < 10 then ('0' as int + d) as char else ('a' as int + d - 10) as char
  }

  /** The nibble a lower-case digit stands for. */
  function Value(c: char): (r: Option<int>)
    ensures r.Some? <==> IsLowerHexDigit(c)
    ensures r.Some? ==> 0 <= r.value < 16 && Digit(r.value) == c
  {
    if '0' <= c <= '9' then Some(c as int - '0' as int)
    else if 'a' <= c <= 'f' then Some(c as int - 'a' as int + 10)
    else None
  }

  /** `hex::encode(b)`: two lower-case digits per byte. */
  function Encode(b: seq<byte>): (r: string)
    ensures |r| == 2 * |b|
    ensures forall i | 0 <= i < |r| :: IsLowerHexDigit(r[i])
  {
    if b == [] then [] else [Digit(b[0] / 16), Digit(b[0] % 16)] + Encode(b[1..])
  }

  /** Reads digit pairs back into bytes; None on an odd length or a character that is not a lower-case digit. */
  function Decode(s: string): (r: Option<seq<byte>>)
  {
    if s == [] then Some([])
    else if |s| == 1 then None
    else match (Value(s[0]), Value(s[1]), Decode(s[2..]))
      case (Some(hi), Some(lo), Some(rest)) => Some([hi * 16 + lo] + rest)
      case _ => None
  }

  /** Decoding the hex digits of `b` gives back `b`. */
  lemma {:induction false} DecodeEncode(b: seq<byte>)
    ensures Decode(Encode(b)) == Some(b)
  {
    if b != [] {
      var e := Encode(b);
      assert e[2..] == Encode(b[1..]);
      assert b[0] / 16 * 16 + b[0] % 16 == b[0];
      DecodeEncode(b[1..]);
      assert [b[0]] + b[1..] == b;
    }
  }

  /** The decoder accepts only what the encoder produces. */
  lemma {:induction false} EncodeDecode(s: string)
    requires Decode(s).Some?
    ensures Encode(Decode(s).value) == s
  {
    if s != [] {
      var hi, lo := Value(s[0]).value, Value(s[1]).value;
      var rest := Decode(s[2..]).value;
      var b := Decode(s).value;
      assert b[0] == hi * 16 + lo && b[1..] == rest;
      Pair(hi, lo);
      EncodeDecode(s[2..]);
      assert s == [s[0], s[1]] + s[2..];
    }
  }

  lemma Pair(hi: int, lo: int)
    requires 0 <= hi < 16 && 0 <= lo < 16
    ensures (hi * 16 + lo) / 16 == hi && (hi * 16 + lo) % 16 == lo
  {
  }

  /** Different bytes give different hex strings. */
  lemma EncodeInjective(a: seq<byte>, b: seq<byte>)
    requires Encode(a) == Encode(b)
    ensures a == b
  {
    DecodeEncode(a);
    DecodeEncode(b);
  }
}
