/**
  The base 64 encoding of section 4 of RFC 4648 (standard alphabet, `=` padding),
  as produced by `Buffer.prototype.toString('base64')`.
 */
module Base64 {
  import opened Wrappers
  import opened Bytes

  /** The value of one base 64 digit. */
  type sextet = x: int | 0 <= x < 64

  /** The alphabet of Table 1 of RFC 4648. */
  function Digit(v: sextet): (c: char)
    ensures c != '='
  {
    if v < 26 then ('A' as int + v) as char
    else if v < 52 then ('a' as int + (v - 26)) as char
    else if v < 62 then ('0' as int + (v - 52)) as char
    else if v == 62 then '+'
    else '/'
  }

  /** The first digit value, from `from` on, whose character is `c`. */
  function Find(c: char, from: sextet): (r: Option<sextet>)
    ensures r.Some? ==> from <= r.value && Digit(r.value) == c
    ensures r.None? ==> forall v: sextet :: from <= v ==> Digit(v) != c
    decreases 64 - from
  {
    if Digit(from) == c then Some(from)
    else if from == 63 then None
    else Find(c, from + 1)
  }

  /** The value a character stands for, `None` for the pad and non-alphabet characters. */
  function Value(c: char): (r: Option<sextet>)
    ensures r.Some? ==> Digit(r.value) == c
    ensures r.None? ==> forall v: sextet :: Digit(v) != c
  {
    Find(c, 0)
  }

  /** Distinct values have distinct digits. */
  lemma DigitInjective(u: sextet, v: sextet)
    requires Digit(u) == Digit(v)
    ensures u == v
  {
  }

  lemma ValueDigit(v: sextet)
    ensures Value(Digit(v)) == Some(v)
  {
    var r := Value(Digit(v));
    DigitInjective(r.value, v);
  }

  lemma PadHasNoValue()
    ensures Value('=') == None
  {
  }

  /** Three octets become four digits (section 4 of RFC 4648). */
  function EncodeGroup(b0: byte, b1: byte, b2: byte): (s: string)
    ensures |s| == 4
  {
    [Digit(b0 / 4), Digit((b0 % 4) * 16 + b1 / 16), Digit((b1 % 16) * 4 + b2 / 64), Digit(b2 % 64)]
  }

  /** The encoding: whole groups of three octets, then a padded final quantum of one or two. */
  function Encode(b: seq<byte>): string
    decreases |b|
  {
    if |b| == 0 then []
    else if |b| == 1 then [Digit(b[0] / 4), Digit((b[0] % 4) * 16), '=', '=']
    else if |b| == 2 then [Digit(b[0] / 4), Digit((b[0] % 4) * 16 + b[1] / 16), Digit((b[1] % 16) * 4), '=']
    else EncodeGroup(b[0], b[1], b[2]) + Encode(b[3..])
  }

  /** The octets of one quantum: three for four digits, two when the quantum ends
      in one pad, one when it ends in two; `None` for anything else. */
  function DecodeQuantum(c0: char, c1: char, c2: char, c3: char): (r: Option<seq<byte>>)
    ensures r.Some? ==> 1 <= |r.value| <= 3
  {
    var v0, v1, v2, v3 := Value(c0), Value(c1), Value(c2), Value(c3);
    if v0.None? || v1.None? then None
    else if c2 == '=' && c3 == '=' then Some([v0.value * 4 + v1.value / 16])
    else if v2.None? then None
    else if c3 == '=' then Some([v0.value * 4 + v1.value / 16, (v1.value % 16) * 16 + v2.value / 4])
    else if v3.None? then None
    else Some([v0.value * 4 + v1.value / 16, (v1.value % 16) * 16 + v2.value / 4, (v2.value % 4) * 64 + v3.value])
  }

  /** Decoding of canonical encodings: `None` when `s` is not a sequence of
      four-character quanta with padding only in the last one. */
  function Decode(s: string): (r: Option<seq<byte>>)
    decreases |s|
  {
    if |s| == 0 then Some([])
    else if |s| < 4 then None
    else match DecodeQuantum(s[0], s[1], s[2], s[3])
      case None => None
      case Some(q) =>
        if |q| < 3 then (if |s| == 4 then Some(q) else None)
        else match Decode(s[4..])
          case None => None
          case Some(rest) => Some(q + rest)
  }

  /** A quantum of four digits decodes to the three octets they spell. */
  lemma QuantumOfDigits(v0: sextet, v1: sextet, v2: sextet, v3: sextet)
    ensures DecodeQuantum(Digit(v0), Digit(v1), Digit(v2), Digit(v3))
            == Some([v0 * 4 + v1 / 16, (v1 % 16) * 16 + v2 / 4, (v2 % 4) * 64 + v3])
  {
    ValueDigit(v0);
    ValueDigit(v1);
    ValueDigit(v2);
    ValueDigit(v3);
  }

  /** A leading quantum of four digits contributes its three octets to the decoding. */
  lemma DecodeFullQuantum(v0: sextet, v1: sextet, v2: sextet, v3: sextet, rest: string, q: seq<byte>)
    requires Decode(rest).Some?
    requires q == [v0 * 4 + v1 / 16, (v1 % 16) * 16 + v2 / 4, (v2 % 4) * 64 + v3]
    ensures Decode([Digit(v0), Digit(v1), Digit(v2), Digit(v3)] + rest) == Some(q + Decode(rest).value)
  {
    QuantumOfDigits(v0, v1, v2, v3);
    var s := [Digit(v0), Digit(v1), Digit(v2), Digit(v3)] + rest;
    assert s[4..] == rest;
  }

  /** A final quantum of three digits and a pad decodes to two octets. */
  lemma DecodeOnePad(v0: sextet, v1: sextet, v2: sextet, q: seq<byte>)
    requires q == [v0 * 4 + v1 / 16, (v1 % 16) * 16 + v2 / 4]
    ensures Decode([Digit(v0), Digit(v1), Digit(v2), '=']) == Some(q)
  {
    ValueDigit(v0);
    ValueDigit(v1);
    ValueDigit(v2);
  }

  /** A final quantum of two digits and two pads decodes to one octet. */
  lemma DecodeTwoPads(v0: sextet, v1: sextet, q: seq<byte>)
    requires q == [v0 * 4 + v1 / 16]
    ensures Decode([Digit(v0), Digit(v1), '=', '=']) == Some(q)
  {
    ValueDigit(v0);
    ValueDigit(v1);
  }

  /** Three octets regrouped into four sextets, and the sextets read back as octets. */
  lemma GroupDigits(b0: byte, b1: byte, b2: byte)
    ensures EncodeGroup(b0, b1, b2)
            == [Digit(b0 / 4), Digit((b0 % 4) * 16 + b1 / 16), Digit((b1 % 16) * 4 + b2 / 64), Digit(b2 % 64)]
    ensures [b0 / 4 * 4 + ((b0 % 4) * 16 + b1 / 16) / 16,
             (((b0 % 4) * 16 + b1 / 16) % 16) * 16 + ((b1 % 16) * 4 + b2 / 64) / 4,
             (((b1 % 16) * 4 + b2 / 64) % 4) * 64 + b2 % 64] == [b0, b1, b2]
  {
  }

  /** The final quantum of a one-octet remainder decodes back to that octet. */
  lemma DecodeEncodeOne(b: seq<byte>)
    requires |b| == 1
    ensures Decode(Encode(b)) == Some(b)
  {
    assert b == [b[0]];
    DecodeEncodeSingle(b[0]);
  }

  lemma DecodeEncodeSingle(b0: byte)
    ensures Decode(Encode([b0])) == Some([b0])
  {
    OneOctetDigits(b0);
    DecodeTwoPads(b0 / 4, (b0 % 4) * 16, [b0]);
  }

  /** The final quantum of a two-octet remainder decodes back to those octets. */
  lemma DecodeEncodeTwo(b: seq<byte>)
    requires |b| == 2
    ensures Decode(Encode(b)) == Some(b)
  {
    assert b == [b[0], b[1]];
    DecodeEncodePair(b[0], b[1]);
  }

  lemma DecodeEncodePair(b0: byte, b1: byte)
    ensures Decode(Encode([b0, b1])) == Some([b0, b1])
  {
    TwoOctetDigits(b0, b1);
    DecodeOnePad(b0 / 4, (b0 % 4) * 16 + b1 / 16, (b1 % 16) * 4, [b0, b1]);
  }

  /** The padded final quantum of one octet, and the octet read back from its digits. */
  lemma OneOctetDigits(b0: byte)
    ensures Encode([b0]) == [Digit(b0 / 4), Digit((b0 % 4) * 16), '=', '=']
    ensures b0 / 4 * 4 + ((b0 % 4) * 16) / 16 == b0
  {
  }

  /** The padded final quantum of two octets, and the octets read back from its digits. */
  lemma TwoOctetDigits(b0: byte, b1: byte)
    ensures Encode([b0, b1]) == [Digit(b0 / 4), Digit((b0 % 4) * 16 + b1 / 16), Digit((b1 % 16) * 4), '=']
    ensures b0 / 4 * 4 + ((b0 % 4) * 16 + b1 / 16) / 16 == b0
    ensures (((b0 % 4) * 16 + b1 / 16) % 16) * 16 + ((b1 % 16) * 4) / 4 == b1
  {
  }

  /** A full quantum followed by a decodable rest decodes to its three octets then the rest. */
  lemma DecodeGroup(b0: byte, b1: byte, b2: byte, rest: string, b: seq<byte>)
    requires Decode(rest).Some? && b == [b0, b1, b2] + Decode(rest).value
    ensures Decode(EncodeGroup(b0, b1, b2) + rest) == Some(b)
  {
    GroupDigits(b0, b1, b2);
    DecodeFullQuantum(b0 / 4, (b0 % 4) * 16 + b1 / 16, (b1 % 16) * 4 + b2 / 64, b2 % 64, rest, [b0, b1, b2]);
  }

  /** One inductive step of `DecodeEncode`: a leading full group before a tail
      whose encoding `enc` decodes back to it. */
  lemma DecodeEncodeStep(b: seq<byte>, tail: seq<byte>, enc: string)
    requires |b| >= 3 && tail == b[3..] && enc == Encode(tail) && Decode(enc) == Some(tail)
    ensures Decode(Encode(b)) == Some(b)
  {
    EncodeUnfold(b);
    assert [b[0], b[1], b[2]] + tail == b;
    DecodeGroup(b[0], b[1], b[2], enc, b);
  }

  /** The encoding of three or more octets starts with the quantum of the first three. */
  lemma EncodeUnfold(b: seq<byte>)
    requires |b| >= 3
    ensures Encode(b) == EncodeGroup(b[0], b[1], b[2]) + Encode(b[3..])
  {
  }

  /** Round trip: decoding an encoding gives the octets back. */
  lemma {:induction false} DecodeEncode(b: seq<byte>)
    ensures Decode(Encode(b)) == Some(b)
    decreases |b|
  {
    if |b| == 1 {
      DecodeEncodeOne(b);
    } else if |b| == 2 {
      DecodeEncodeTwo(b);
    } else if |b| >= 3 {
      DecodeEncode(b[3..]);
      DecodeEncodeStep(b, b[3..], Encode(b[3..]));
    }
  }

  /** Distinct octet strings have distinct encodings. */
  lemma EncodeInjective(a: seq<byte>, b: seq<byte>)
    requires a != b
    ensures Encode(a) != Encode(b)
  {
    DecodeEncode(a);
    DecodeEncode(b);
  }

  /** Splitting the input at a multiple of three splits the encoding there. */
  lemma {:induction false} EncodeSplit(b: seq<byte>, k: nat)
    requires k % 3 == 0 && k <= |b|
    ensures Encode(b) == Encode(b[..k]) + Encode(b[k..])
    decreases k
  {
    if k > 0 {
      EncodeSplit(b[3..], k - 3);
      assert b[3..][..k - 3] == b[..k][3..];
      assert b[3..][k - 3..] == b[k..];
    }
  }

  /** Each quantum of four characters carries up to three octets. */
  lemma {:induction false} EncodeLength(b: seq<byte>)
    ensures |Encode(b)| == 4 * ((|b| + 2) / 3)
    decreases |b|
  {
    if |b| >= 3 {
      EncodeLength(b[3..]);
      EncodeLengthStep(b, Encode(b[3..]));
    }
  }

  /** One inductive step of `EncodeLength`: a leading group adds four characters. */
  lemma EncodeLengthStep(b: seq<byte>, enc: string)
    requires |b| >= 3 && enc == Encode(b[3..]) && |enc| == 4 * ((|b[3..]| + 2) / 3)
    ensures |Encode(b)| == 4 * ((|b| + 2) / 3)
  {
    EncodeUnfold(b);
    assert (|b| + 2) / 3 == (|b[3..]| + 2) / 3 + 1;
  }

  /** The encoding of the first `3 * g` octets is a prefix, of `4 * g` characters,
      of the encoding of the whole. */
  lemma EncodePrefix(b: seq<byte>, g: nat)
    requires 3 * g <= |b|
    ensures |Encode(b[..3 * g])| == 4 * g
    ensures Encode(b[..3 * g]) <= Encode(b)
  {
    EncodeSplit(b, 3 * g);
    EncodeLength(b[..3 * g]);
    assert (3 * g + 2) / 3 == g;
  }
}
