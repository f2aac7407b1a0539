/**
  The UTF-8 encoding form of RFC 3629, which `Buffer.from(query)` applies to
  a query string before the cache key is derived from it.
  A Dafny `char` is a Unicode scalar value, so every string is encodable.
 */
module Utf8 {
  import opened Wrappers
  import opened Bytes

  /** Code points that are Unicode scalar values (no surrogates). */
  predicate IsScalar(cp: int) {
    (0 <= cp < 0xD800) || (0xE000 <= cp < 0x11_0000)
  }

  /** Bytes of the form 10xxxxxx that continue a multi-byte sequence. */
  predicate IsContinuation(b: byte) {
    0x80 <= b < 0xC0
  }

  /** The one-to-four byte sequence of section 3 of RFC 3629 for `c`. */
  function EncodeChar(c: char): (bs: seq<byte>)
    ensures 1 <= |bs| <= 4
    ensures (bs[0] < 0x80) == (|bs| == 1)
  {
    var cp := c as int;
    if cp < 0x80 then
      [cp]
    else if cp < 0x800 then
      [0xC0 + cp / 64, 0x80 + cp % 64]
    else if cp < 0x1_0000 then
      [0xE0 + cp / 4096, 0x80 + (cp / 64) % 64, 0x80 + cp % 64]
    else
      [0xF0 + cp / 262144, 0x80 + (cp / 4096) % 64, 0x80 + (cp / 64) % 64, 0x80 + cp % 64]
  }

  /** The UTF-8 encoding of a whole string: the characters' sequences, in order. */
  function Encode(s: string): (bs: seq<byte>)
    ensures |s| <= |bs| <= 4 * |s|
  {
    if |s| == 0 then [] else EncodeChar(s[0]) + Encode(s[1..])
  }

  /** The scalar value `cp` as a character, provided it is at least `least`
      (shortest-form rule) and not a surrogate. */
  function AsChar(cp: int, least: int, n: nat): (r: Option<(char, nat)>)
    ensures r.Some? ==> r.value.1 == n && r.value.0 as int == cp
  {
    if least <= cp && IsScalar(cp) then Some((cp as char, n)) else None
  }

  /** Decodes the character that `bs` starts with and reports how many bytes it used;
      `None` when `bs` does not start with a well-formed sequence. */
  function DecodeFirst(bs: seq<byte>): (r: Option<(char, nat)>)
    requires |bs| > 0
    ensures r.Some? ==> 1 <= r.value.1 <= |bs|
  {
    var b0: int := bs[0];
    if b0 < 0x80 then
      Some((b0 as char, 1))
    else if 0xC0 <= b0 < 0xE0 && |bs| >= 2 && IsContinuation(bs[1]) then
      AsChar((b0 - 0xC0) * 64 + (bs[1] as int - 0x80), 0x80, 2)
    else if 0xE0 <= b0 < 0xF0 && |bs| >= 3 && IsContinuation(bs[1]) && IsContinuation(bs[2]) then
      AsChar((b0 - 0xE0) * 4096 + (bs[1] as int - 0x80) * 64 + (bs[2] as int - 0x80), 0x800, 3)
    else if 0xF0 <= b0 < 0xF8 && |bs| >= 4 && IsContinuation(bs[1]) && IsContinuation(bs[2])
         && IsContinuation(bs[3]) then
      AsChar((b0 - 0xF0) * 262144 + (bs[1] as int - 0x80) * 4096 + (bs[2] as int - 0x80) * 64 + (bs[3] as int - 0x80),
             0x1_0000, 4)
    else
      None
  }

  /** Strict decoding: `None` on any ill-formed, overlong or surrogate sequence. */
  function Decode(bs: seq<byte>): (r: Option<string>)
    decreases |bs|
  {
    if |bs| == 0 then Some([])
    else match DecodeFirst(bs)
      case None => None
      case Some((c, n)) =>
        match Decode(bs[n..])
        case None => None
        case Some(rest) => Some([c] + rest)
  }

  /** Base-64 positional decomposition of a code point into 6-bit groups. */
  lemma SixBitGroups(cp: nat)
    ensures cp / 4096 == (cp / 64) / 64
    ensures cp / 262144 == (cp / 4096) / 64
    ensures cp == (cp / 64) * 64 + cp % 64
    ensures cp / 64 == (cp / 4096) * 64 + (cp / 64) % 64
    ensures cp / 4096 == (cp / 262144) * 64 + (cp / 4096) % 64
  {
  }

  /** Decoding the encoding of one character gives that character back and
      consumes exactly its bytes, whatever follows. */
  lemma DecodeFirstEncodeChar(c: char, rest: seq<byte>)
    ensures DecodeFirst(EncodeChar(c) + rest) == Some((c, |EncodeChar(c)|))
  {
    var cp := c as int;
    SixBitGroups(cp);
    if cp < 0x80 {
    } else if cp < 0x800 {
      DecodeFirstTwo(c, rest);
    } else if cp < 0x1_0000 {
      DecodeFirstThree(c, rest);
    } else {
      DecodeFirstFour(c, rest);
    }
  }

  /** The two-byte case of `DecodeFirstEncodeChar`. */
  lemma DecodeFirstTwo(c: char, rest: seq<byte>)
    requires 0x80 <= c as int < 0x800
    ensures DecodeFirst(EncodeChar(c) + rest) == Some((c, 2))
  {
    var cp := c as int;
    var bs := EncodeChar(c) + rest;
    SixBitGroups(cp);
    assert (bs[0] as int - 0xC0) * 64 + (bs[1] as int - 0x80) == cp;
  }

  /** The three-byte case of `DecodeFirstEncodeChar`. */
  lemma DecodeFirstThree(c: char, rest: seq<byte>)
    requires 0x800 <= c as int < 0x1_0000
    ensures DecodeFirst(EncodeChar(c) + rest) == Some((c, 3))
  {
    var cp := c as int;
    var bs := EncodeChar(c) + rest;
    SixBitGroups(cp);
    assert bs[0] as int - 0xE0 == cp / 4096;
    assert (bs[0] as int - 0xE0) * 4096 + (bs[1] as int - 0x80) * 64 + (bs[2] as int - 0x80) == cp;
  }

  /** The four-byte case of `DecodeFirstEncodeChar`. */
  lemma DecodeFirstFour(c: char, rest: seq<byte>)
    requires 0x1_0000 <= c as int
    ensures DecodeFirst(EncodeChar(c) + rest) == Some((c, 4))
  {
    var cp := c as int;
    var bs := EncodeChar(c) + rest;
    SixBitGroups(cp);
    assert bs[0] as int - 0xF0 == cp / 262144;
    assert (bs[0] as int - 0xF0) * 262144 + (bs[1] as int - 0x80) * 4096 == (cp / 4096) * 4096;
    assert (bs[0] as int - 0xF0) * 262144 + (bs[1] as int - 0x80) * 4096 + (bs[2] as int - 0x80) * 64
           + (bs[3] as int - 0x80) == cp;
  }

  /** Round trip: decoding an encoded string gives the string back. */
  lemma {:induction false} DecodeEncode(s: string)
    ensures Decode(Encode(s)) == Some(s)
  {
    if |s| > 0 {
      var bs := Encode(s);
      assert bs == EncodeChar(s[0]) + Encode(s[1..]);
      DecodeFirstEncodeChar(s[0], Encode(s[1..]));
      assert bs[|EncodeChar(s[0])|..] == Encode(s[1..]);
      DecodeEncode(s[1..]);
      assert [s[0]] + s[1..] == s;
    }
  }

  /** Distinct strings have distinct encodings. */
  lemma EncodeInjective(s: string, t: string)
    requires s != t
    ensures Encode(s) != Encode(t)
  {
    DecodeEncode(s);
    DecodeEncode(t);
  }
  /** Digits of `hi * 64 + lo` in base 64 when `lo` is one digit. */
  lemma DivModBy64(hi: nat, lo: nat)
    requires lo < 64
    ensures (hi * 64 + lo) / 64 == hi && (hi * 64 + lo) % 64 == lo
  {
  }

  /** The two-byte case of `EncodeCharDecodeFirst`. */
  lemma EncodeTwo(c: char, b0: int, b1: int)
    requires 0xC0 <= b0 < 0xE0 && 0x80 <= b1 < 0xC0
    requires c as int == (b0 - 0xC0) * 64 + (b1 - 0x80) && 0x80 <= c as int
    ensures EncodeChar(c) == [b0, b1]
  {
    DivModBy64(b0 - 0xC0, b1 - 0x80);
  }

  /** The three-byte case of `EncodeCharDecodeFirst`. */
  lemma EncodeThree(c: char, b0: int, b1: int, b2: int)
    requires 0xE0 <= b0 < 0xF0 && 0x80 <= b1 < 0xC0 && 0x80 <= b2 < 0xC0
    requires c as int == (b0 - 0xE0) * 4096 + (b1 - 0x80) * 64 + (b2 - 0x80) && 0x800 <= c as int
    ensures EncodeChar(c) == [b0, b1, b2]
  {
    var cp := c as int;
    var hi := (b0 - 0xE0) * 64 + (b1 - 0x80);
    assert cp == hi * 64 + (b2 - 0x80);
    SixBitGroups(cp);
    DivModBy64(hi, b2 - 0x80);
    DivModBy64(b0 - 0xE0, b1 - 0x80);
  }

  /** The four-byte case of `EncodeCharDecodeFirst`. */
  lemma EncodeFour(c: char, b0: int, b1: int, b2: int, b3: int)
    requires 0xF0 <= b0 < 0xF8 && 0x80 <= b1 < 0xC0 && 0x80 <= b2 < 0xC0 && 0x80 <= b3 < 0xC0
    requires c as int == (b0 - 0xF0) * 262144 + (b1 - 0x80) * 4096 + (b2 - 0x80) * 64 + (b3 - 0x80)
    requires 0x1_0000 <= c as int
    ensures EncodeChar(c) == [b0, b1, b2, b3]
  {
    var cp := c as int;
    var hi2 := (b0 - 0xF0) * 64 + (b1 - 0x80);
    var hi1 := hi2 * 64 + (b2 - 0x80);
    assert cp == hi1 * 64 + (b3 - 0x80);
    SixBitGroups(cp);
    DivModBy64(hi1, b3 - 0x80);
    DivModBy64(hi2, b2 - 0x80);
    DivModBy64(b0 - 0xF0, b1 - 0x80);
  }

  /** A well-formed sequence that decodes to `c` is exactly the encoding of `c`:
      the encoder produces the only shortest form. */
  lemma EncodeCharDecodeFirst(bs: seq<byte>)
    requires |bs| > 0 && DecodeFirst(bs).Some?
    ensures EncodeChar(DecodeFirst(bs).value.0) == bs[..DecodeFirst(bs).value.1]
  {
    var c := DecodeFirst(bs).value.0;
    var b0: int := bs[0];
    if b0 < 0x80 {
    } else if b0 < 0xE0 {
      EncodeTwo(c, b0, bs[1]);
    } else if b0 < 0xF0 {
      EncodeThree(c, b0, bs[1], bs[2]);
    } else {
      EncodeFour(c, b0, bs[1], bs[2], bs[3]);
    }
  }

  /** Round trip in the other direction: whatever decodes re-encodes to the same bytes. */
  lemma {:induction false} EncodeDecode(bs: seq<byte>)
    requires Decode(bs).Some?
    ensures Encode(Decode(bs).value) == bs
    decreases |bs|
  {
    if |bs| > 0 {
      var (c, n) := DecodeFirst(bs).value;
      var rest := Decode(bs[n..]).value;
      EncodeCharDecodeFirst(bs);
      EncodeDecode(bs[n..]);
      DecodeCons(bs, c, n, rest);
      EncodeDecodeStep(bs, c, n, rest);
    }
  }

  /** One inductive step of `EncodeDecode`: the first character's bytes, then the rest's. */
  lemma EncodeDecodeStep(bs: seq<byte>, c: char, n: nat, rest: string)
    requires n <= |bs| && EncodeChar(c) == bs[..n] && Encode(rest) == bs[n..]
    ensures Encode([c] + rest) == bs
  {
    EncodeCons(c, rest);
    assert bs == bs[..n] + bs[n..];
  }

  /** A well-formed first character followed by a decodable rest. */
  lemma DecodeCons(bs: seq<byte>, c: char, n: nat, rest: string)
    requires |bs| > 0 && DecodeFirst(bs) == Some((c, n)) && Decode(bs[n..]) == Some(rest)
    ensures Decode(bs) == Some([c] + rest)
  {
  }

  /** The encoding of a string that starts with `c`. */
  lemma EncodeCons(c: char, rest: string)
    ensures Encode([c] + rest) == EncodeChar(c) + Encode(rest)
  {
    var s := [c] + rest;
    assert s[0] == c && s[1..] == rest;
  }

  /** The encoding of a concatenation is the concatenation of the encodings. */
  lemma {:induction false} EncodeAppend(s: string, t: string)
    ensures Encode(s + t) == Encode(s) + Encode(t)
  {
    if |s| > 0 {
      EncodeAppend(s[1..], t);
      assert (s + t)[0] == s[0];
      assert (s + t)[1..] == s[1..] + t;
      assert Encode(s + t) == EncodeChar(s[0]) + Encode(s[1..] + t);
    } else {
      assert s + t == t;
    }
  }

  /** ASCII characters are encoded as one byte each, equal to their code. */
  lemma {:induction false} EncodeAscii(s: string)
    requires forall i :: 0 <= i < |s| ==> s[i] as int < 0x80
    ensures |Encode(s)| == |s|
    ensures forall i :: 0 <= i < |s| ==> Encode(s)[i] == s[i] as int
  {
    if |s| > 0 {
      EncodeAscii(s[1..]);
    }
  }
}
