/** UTF-8, as defined in section 3 of RFC 3629: Rust strings are stored as
    UTF-8, so the bytes that serde_json writes for a JSON text are the
    UTF-8 encoding of that text. */
module Utf8 {
  import opened Base

  /** The number of bytes that encode `c` (the table in section 3 of RFC 3629). */
  function Width(c: char): (n: nat)
    ensures 1 <= n <= 4
  {
    var v := c as int;
    if v < 0x80 then 1 else if v < 0x800 then 2 else if v < 0x1_0000 then 3 else 4
  }

  /** Is `b` a continuation byte, 10xxxxxx? */
  predicate IsContinuation(b: uint8) {
    0x80 <= b < 0xC0
  }

  /** The encoding of one scalar value: the lead byte carries the high bits,
      each continuation byte six more. */
  function EncodeChar(c: char): (b: seq<uint8>)
    ensures |b| == Width(c)
  {
    var v := c as int;
    if v < 0x80 then
      [v as uint8]
    else if v < 0x800 then
      [(0xC0 + v / 0x40) as uint8, (0x80 + v % 0x40) as uint8]
    else if v < 0x1_0000 then
      [(0xE0 + v / 0x1000) as uint8, (0x80 + (v / 0x40) % 0x40) as uint8, (0x80 + v % 0x40) as uint8]
    else
      [(0xF0 + v / 0x4_0000) as uint8, (0x80 + (v / 0x1000) % 0x40) as uint8,
       (0x80 + (v / 0x40) % 0x40) as uint8, (0x80 + v % 0x40) as uint8]
  }

  /** The UTF-8 encoding of a whole string. */
  function Encode(s: string): (b: seq<uint8>)
    ensures |s| <= |b| <= 4 * |s|
  {
    if s == [] then [] else EncodeChar(s[0]) + Encode(s[1..])
  }

  /** Is `v` a Unicode scalar value, that is, a code point that is not a surrogate? */
  predicate IsScalar(v: int) {
    (0 <= v < 0xD800) || (0xE000 <= v < 0x11_0000)
  }

  /** The low six bits of a continuation byte. */
  function ContinuationBits(b: uint8): (v: int)
    requires IsContinuation(b)
    ensures 0 <= v < 0x40
  {
    b as int - 0x80
  }

  /** Decodes the first character of `b`, giving it and the number of bytes it
      took. Fails on a stray continuation byte, a missing continuation byte, an
      overlong form, a surrogate and a value above U+10FFFF. */
  function DecodeChar(b: seq<uint8>): (r: Option<(char, nat)>)
    ensures r.Some? ==> 1 <= r.value.1 <= |b|
  {
    if |b| == 0 then None
    else
      var lead := b[0] as int;
      if lead < 0x80 then
        Some((lead as char, 1))
      else if 0xC0 <= lead < 0xE0 then
        if |b| < 2 || !IsContinuation(b[1]) then None
        else
          var v := (lead - 0xC0) * 0x40 + ContinuationBits(b[1]);
          if 0x80 <= v then Some((v as char, 2)) else None
      else if 0xE0 <= lead < 0xF0 then
        if |b| < 3 || !IsContinuation(b[1]) || !IsContinuation(b[2]) then None
        else
          var v := (lead - 0xE0) * 0x1000 + ContinuationBits(b[1]) * 0x40 + ContinuationBits(b[2]);
          if 0x800 <= v && IsScalar(v) then Some((v as char, 3)) else None
      else if 0xF0 <= lead < 0xF8 then
        if |b| < 4 || !IsContinuation(b[1]) || !IsContinuation(b[2]) || !IsContinuation(b[3]) then None
        else
          var v := (lead - 0xF0) * 0x4_0000 + ContinuationBits(b[1]) * 0x1000 + ContinuationBits(b[2]) * 0x40 + ContinuationBits(b[3]);
          if 0x1_0000 <= v < 0x11_0000 then Some((v as char, 4)) else None
      else
        None
  }

  /** Decodes a whole byte sequence, failing if any part of it is not UTF-8. */
  function Decode(b: seq<uint8>): Option<string>
    decreases |b|
  {
    if b == [] then Some([])
    else
      match DecodeChar(b)
      case None => None
      case Some((c, k)) =>
        match Decode(b[k..])
        case None => None
        case Some(s) => Some([c] + s)
  }

  lemma DivModTwo(v: int)
    requires 0 <= v
    ensures (v / 0x40) * 0x40 + v % 0x40 == v
  {
  }

  lemma DivModThree(v: int)
    requires 0 <= v
    ensures (v / 0x1000) * 0x1000 + ((v / 0x40) % 0x40) * 0x40 + v % 0x40 == v
  {
    var q := v / 0x40;
    assert q * 0x40 + v % 0x40 == v;
    assert (q / 0x40) * 0x40 + q % 0x40 == q;
    assert q / 0x40 == v / 0x1000;
  }

  lemma DivModFour(v: int)
    requires 0 <= v
    ensures (v / 0x4_0000) * 0x4_0000 + ((v / 0x1000) % 0x40) * 0x1000 + ((v / 0x40) % 0x40) * 0x40 + v % 0x40 == v
  {
    var q := v / 0x40;
    var p := q / 0x40;
    assert q * 0x40 + v % 0x40 == v;
    assert p * 0x40 + q % 0x40 == q;
    assert (p / 0x40) * 0x40 + p % 0x40 == p;
    assert p == v / 0x1000;
    assert p / 0x40 == v / 0x4_0000;
  }

  /** Decoding reads back exactly the character that was encoded, and no more. */
  lemma DecodeEncodeChar(c: char, rest: seq<uint8>)
    ensures DecodeChar(EncodeChar(c) + rest) == Some((c, Width(c)))
  {
    var v := c as int;
    var b := EncodeChar(c) + rest;
    if v < 0x80 {
    } else if v < 0x800 {
      DivModTwo(v);
      assert (b[0] as int - 0xC0) * 0x40 + ContinuationBits(b[1]) == v;
    } else if v < 0x1_0000 {
      DivModThree(v);
      assert (b[0] as int - 0xE0) * 0x1000 + ContinuationBits(b[1]) * 0x40 + ContinuationBits(b[2]) == v;
    } else {
      DivModFour(v);
      assert (b[0] as int - 0xF0) * 0x4_0000 + ContinuationBits(b[1]) * 0x1000 + ContinuationBits(b[2]) * 0x40 + ContinuationBits(b[3]) == v;
    }
  }

  /** Decoding inverts encoding, for every string. */
  lemma {:induction false} DecodeEncode(s: string)
    ensures Decode(Encode(s)) == Some(s)
  {
    if s != [] {
      var b := Encode(s);
      DecodeEncodeChar(s[0], Encode(s[1..]));
      assert b[Width(s[0])..] == Encode(s[1..]);
      DecodeEncode(s[1..]);
      assert [s[0]] + s[1..] == s;
    }
  }

  /** Distinct strings have distinct encodings. */
  lemma EncodeInjective(s: string, t: string)
    requires Encode(s) == Encode(t)
    ensures s == t
  {
    DecodeEncode(s);
    DecodeEncode(t);
  }

  /** A character below U+0080 is encoded as the single byte of the same value. */
  lemma {:induction false} EncodeAscii(s: string)
    requires forall i :: 0 <= i < |s| ==> (s[i] as int) < 0x80
    ensures |Encode(s)| == |s|
    ensures forall i :: 0 <= i < |s| ==> Encode(s)[i] as int == s[i] as int
  {
    if s != [] {
      EncodeAscii(s[1..]);
      assert Encode(s) == [s[0] as int as uint8] + Encode(s[1..]);
    }
  }
}
