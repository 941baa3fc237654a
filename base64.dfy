/**
 * `base64::encode`: section 4 of RFC 4648, the standard alphabet `A-Z a-z 0-9 + /`,
 * with `=` padding for a final group of one or two bytes. The strict decoder below is
 * the partner the round trip is stated with.
 */
module Base64 {
  import opened Bytes
  import opened Wrappers

  const PAD := '='

  predicate IsAlphabetChar(c: char) {
    'A' <= c <= 'Z' || 'a' <= c <= 'z' || '0' <= c <= '9' || c == '+' || c == '/'
  }

  /** The character for a six-bit value (table 1 of RFC 4648). */
  function Char(v: int): (c: char)
    requires 0 <= v < 64
    ensures IsAlphabetChar(c)
  {
    if v < 26 then ('A' as int + v) as char
    else if v < 52 then ('a' as int + v - 26) as char
    else if v < 62 then ('0' as int + v - 52) as char
    else if v == 62 then '+'
    else '/'
  }

  /** The six-bit value of an alphabet character. */
  function Value(c: char): (r: Option<int>)
    ensures r.Some? <==> IsAlphabetChar(c)
    ensures r.Some? ==> 0 <= r.value < 64 && Char(r.value) == c
  {
    if 'A' <= c <= 'Z' then Some(c as int - 'A' as int)
    else if 'a' <= c <= 'z' then Some(c as int - 'a' as int + 26)
    else if '0' <= c <= '9' then Some(c as int - '0' as int + 52)
    else if c == '+' then Some(62)
    else if c == '/' then Some(63)
    else None
  }

  /** The four characters of a full three-byte group. */
  function Quad(b0: byte, b1: byte, b2: byte): (r: string)
    ensures |r| == 4 && forall i | 0 <= i < 4 :: IsAlphabetChar(r[i])
  {
    [Char(b0 / 4), Char(b0 % 4 * 16 + b1 / 16), Char(b1 % 16 * 4 + b2 / 64), Char(b2 % 64)]
  }

  /** `base64::encode(b)`: every group of three bytes becomes four characters, a short last group is padded. */
  function Encode(b: seq<byte>): (r: string)
    ensures |r| == 4 * ((|b| + 2) / 3)
    ensures forall i | 0 <= i < |r| :: IsAlphabetChar(r[i]) || r[i] == PAD
  {
    if b == [] then []
    else if |b| == 1 then [Char(b[0] / 4), Char(b[0] % 4 * 16), PAD, PAD]
    else if |b| == 2 then [Char(b[0] / 4), Char(b[0] % 4 * 16 + b[1] / 16), Char(b[1] % 16 * 4), PAD]
    else Quad(b[0], b[1], b[2]) + Encode(b[3..])
  }

  /** The bytes of one four-character group; None if a character is outside the alphabet or the padding is not canonical. */
  function DecodeGroup(g: string, last: bool): (r: Option<seq<byte>>)
    requires |g| == 4
    ensures r.Some? ==> 1 <= |r.value| <= 3
  {
    if Value(g[0]).None? || Value(g[1]).None? then None
    else
      var v0, v1 := Value(g[0]).value, Value(g[1]).value;
      if g[2] == PAD then
        if last && g[3] == PAD && v1 % 16 == 0 then Some([v0 * 4 + v1 / 16]) else None
      else if Value(g[2]).None? then None
      else
        var v2 := Value(g[2]).value;
        if g[3] == PAD then
          if last && v2 % 4 == 0 then Some([v0 * 4 + v1 / 16, v1 % 16 * 16 + v2 / 4]) else None
        else if Value(g[3]).None? then None
        else Some([v0 * 4 + v1 / 16, v1 % 16 * 16 + v2 / 4, v2 % 4 * 64 + Value(g[3]).value])
  }

  /** Padded base64 back to bytes; None on a length that is not a multiple of four or on any malformed group. */
  function Decode(s: string): (r: Option<seq<byte>>)
    decreases |s|
  {
    if s == [] then Some([])
    else if |s| < 4 then None
    else
      var g := DecodeGroup(s[..4], |s| == 4);
      if g.None? then None
      else
        var rest := Decode(s[4..]);
        if rest.None? then None else Some(g.value + rest.value)
  }

  lemma DecodeQuad(b0: byte, b1: byte, b2: byte, last: bool)
    ensures DecodeGroup(Quad(b0, b1, b2), last) == Some([b0, b1, b2])
  {
    var v0, v1, v2, v3 := b0 / 4, b0 % 4 * 16 + b1 / 16, b1 % 16 * 4 + b2 / 64, b2 % 64;
    ValueChar(v0);
    ValueChar(v1);
    ValueChar(v2);
    ValueChar(v3);
    DecodeFull(Quad(b0, b1, b2), last, v0, v1, v2, v3);
    Split(b0 % 4, b1 / 16, 16);
    Split(b1 % 16, b2 / 64, 4);
    Rejoin(b0, 4);
    Rejoin(b1, 16);
    Rejoin(b2, 64);
  }

  /** A group of four alphabet characters decodes to three bytes. */
  lemma DecodeFull(g: string, last: bool, v0: int, v1: int, v2: int, v3: int)
    requires |g| == 4
    requires Value(g[0]) == Some(v0) && Value(g[1]) == Some(v1) && Value(g[2]) == Some(v2) && Value(g[3]) == Some(v3)
    ensures DecodeGroup(g, last) == Some([v0 * 4 + v1 / 16, v1 % 16 * 16 + v2 / 4, v2 % 4 * 64 + v3])
  {
  }

  lemma DecodeOne(b0: byte)
    ensures Decode(Encode([b0])) == Some([b0])
  {
    var e := Encode([b0]);
    assert e[..4] == e && e[4..] == [];
    ValueChar(b0 / 4);
    ValueChar(b0 % 4 * 16);
    Split(b0 % 4, 0, 16);
    Rejoin(b0, 4);
    assert DecodeGroup(e[..4], |e| == 4) == Some([b0]);
    assert [b0] + [] == [b0];
  }

  lemma DecodeTwo(b0: byte, b1: byte)
    ensures Decode(Encode([b0, b1])) == Some([b0, b1])
  {
    var e := Encode([b0, b1]);
    assert e[..4] == e && e[4..] == [];
    ValueChar(b0 / 4);
    ValueChar(b0 % 4 * 16 + b1 / 16);
    ValueChar(b1 % 16 * 4);
    Split(b0 % 4, b1 / 16, 16);
    Split(b1 % 16, 0, 4);
    Rejoin(b0, 4);
    Rejoin(b1, 16);
    assert DecodeGroup(e[..4], |e| == 4) == Some([b0, b1]);
    assert [b0, b1] + [] == [b0, b1];
  }

  /** The value of the character for `v` is `v`. */
  lemma ValueChar(v: int)
    requires 0 <= v < 64
    ensures Value(Char(v)) == Some(v)
  {
  }

  lemma Split(hi: int, lo: int, d: int)
    requires d == 4 || d == 16
    requires 0 <= lo < d && 0 <= hi
    ensures (hi * d + lo) / d == hi && (hi * d + lo) % d == lo
  {
  }

  lemma Rejoin(b: byte, d: int)
    requires d == 4 || d == 16 || d == 64
    ensures b / d * d + b % d == b
  {
  }

  lemma DecodeConcat(q: string, rest: string, g: seq<byte>, r: seq<byte>)
    requires |q| == 4 && DecodeGroup(q, rest == []) == Some(g) && Decode(rest) == Some(r)
    ensures Decode(q + rest) == Some(g + r)
  {
    var s := q + rest;
    assert s[..4] == q && s[4..] == rest;
  }

  lemma DecodeStep(b: seq<byte>)
    requires |b| >= 3 && Decode(Encode(b[3..])) == Some(b[3..])
    ensures Decode(Encode(b)) == Some(b)
  {
    var q, rest := Quad(b[0], b[1], b[2]), Encode(b[3..]);
    assert Encode(b) == q + rest;
    DecodeQuad(b[0], b[1], b[2], rest == []);
    DecodeConcat(q, rest, [b[0], b[1], b[2]], b[3..]);
    SplitThree(b);
  }

  lemma SplitThree(b: seq<byte>)
    requires |b| >= 3
    ensures [b[0], b[1], b[2]] + b[3..] == b
  {
  }

  /** Decoding the padded base64 of `b` gives back `b`. */
  lemma {:induction false} DecodeEncode(b: seq<byte>)
    ensures Decode(Encode(b)) == Some(b)
    decreases |b|
  {
    if |b| == 1 {
      assert b == [b[0]];
      DecodeOne(b[0]);
    } else if |b| == 2 {
      assert b == [b[0], b[1]];
      DecodeTwo(b[0], b[1]);
    } else if |b| >= 3 {
      DecodeEncode(b[3..]);
      DecodeStep(b);
    }
  }

  /** Different byte strings have different encodings. */
  lemma EncodeInjective(a: seq<byte>, b: seq<byte>)
    requires Encode(a) == Encode(b)
    ensures a == b
  {
    DecodeEncode(a);
    DecodeEncode(b);
  }
}
