/** `btoa` over a string whose characters are all bytes: the standard base64
    alphabet with `=` padding (section 4 of RFC 4648), and a decoder that
    inverts it. */
module Base64 {
  import opened Js

  const Pad: CodeUnit := 61  // '='

  /** The alphabet character for a 6-bit value: A-Z, a-z, 0-9, '+', '/'. */
  function Char(v: int): (c: CodeUnit)
    requires 0 <= v < 64
  {
    if v < 26 then 65 + v
    else if v < 52 then 97 + (v - 26)
    else if v < 62 then 48 + (v - 52)
    else if v == 62 then 43
    else 47
  }

  predicate IsAlphabet(c: CodeUnit)
  {
    65 <= c <= 90 || 97 <= c <= 122 || 48 <= c <= 57 || c == 43 || c == 47
  }

  /** The 6-bit value of an alphabet character. */
  function Value(c: CodeUnit): (v: int)
    requires IsAlphabet(c)
    ensures 0 <= v < 64 && Char(v) == c
  {
    if 65 <= c <= 90 then c - 65
    else if 97 <= c <= 122 then c - 97 + 26
    else if 48 <= c <= 57 then c - 48 + 52
    else if c == 43 then 62
    else 63
  }

  lemma ValueOfChar(v: int)
    requires 0 <= v < 64
    ensures IsAlphabet(Char(v)) && Value(Char(v)) == v
  {
  }

  /** The four characters for three bytes. */
  function Quad(b0: Byte, b1: Byte, b2: Byte): Utf16
  {
    [Char(b0 / 4), Char(b0 % 4 * 16 + b1 / 16), Char(b1 % 16 * 4 + b2 / 64), Char(b2 % 64)]
  }

  /** `btoa`: three bytes to four characters, the last group padded with '='. */
  function Encode(b: seq<Byte>): Utf16
    decreases |b|
  {
    if |b| == 0 then []
    else if |b| == 1 then [Char(b[0] / 4), Char(b[0] % 4 * 16), Pad, Pad]
    else if |b| == 2 then [Char(b[0] / 4), Char(b[0] % 4 * 16 + b[1] / 16), Char(b[1] % 16 * 4), Pad]
    else Quad(b[0], b[1], b[2]) + Encode(b[3..])
  }

  /** A decoder for the text `Encode` produces (not part of the logger; it
      states what the encoding preserves). */
  function Decode(s: Utf16): Option<seq<Byte>>
    decreases |s|
  {
    if |s| == 0 then Some([])
    else if |s| < 4 || !IsAlphabet(s[0]) || !IsAlphabet(s[1]) then None
    else
      var v0, v1 := Value(s[0]), Value(s[1]);
      var b0 := v0 * 4 + v1 / 16;
      if |s| == 4 && s[2] == Pad && s[3] == Pad then Some([b0])
      else if !IsAlphabet(s[2]) then None
      else
        var v2 := Value(s[2]);
        var b1 := v1 % 16 * 16 + v2 / 4;
        if |s| == 4 && s[3] == Pad then Some([b0, b1])
        else if !IsAlphabet(s[3]) then None
        else
          var b2 := v2 % 4 * 64 + Value(s[3]);
          match Decode(s[4..])
          case None => None
          case Some(rest) => Some([b0, b1, b2] + rest)
  }

  /** The encoding is four characters per started group of three bytes. */
  lemma {:induction false} EncodeLength(b: seq<Byte>)
    ensures |Encode(b)| == (|b| + 2) / 3 * 4
    decreases |b|
  {
    if |b| >= 3 {
      EncodeLength(b[3..]);
      assert (|b| + 2) / 3 == (|b| - 1) / 3 + 1;
    }
  }

  /** Every character of the encoding is an alphabet character or padding. */
  lemma {:induction false} EncodeAlphabet(b: seq<Byte>)
    ensures forall k :: 0 <= k < |Encode(b)| ==> IsAlphabet(Encode(b)[k]) || Encode(b)[k] == Pad
    decreases |b|
  {
    if |b| >= 3 {
      EncodeAlphabet(b[3..]);
      var q := Quad(b[0], b[1], b[2]);
      ValueOfChar(b[0] / 4);
      ValueOfChar(b[0] % 4 * 16 + b[1] / 16);
      ValueOfChar(b[1] % 16 * 4 + b[2] / 64);
      ValueOfChar(b[2] % 64);
      assert Encode(b) == q + Encode(b[3..]);
    } else if |b| == 2 {
      ValueOfChar(b[0] / 4);
      ValueOfChar(b[0] % 4 * 16 + b[1] / 16);
      ValueOfChar(b[1] % 16 * 4);
    } else if |b| == 1 {
      ValueOfChar(b[0] / 4);
      ValueOfChar(b[0] % 4 * 16);
    }
  }

  /** The 6-bit values of a full group's characters give back its bytes. */
  lemma QuadArithmetic(b0: Byte, b1: Byte, b2: Byte)
    ensures var v0, v1, v2, v3 := b0 / 4, b0 % 4 * 16 + b1 / 16, b1 % 16 * 4 + b2 / 64, b2 % 64;
            && 0 <= v0 < 64 && 0 <= v1 < 64 && 0 <= v2 < 64 && 0 <= v3 < 64
            && v0 * 4 + v1 / 16 == b0
            && v1 % 16 * 16 + v2 / 4 == b1
            && v2 % 4 * 64 + v3 == b2
  {
    var v1 := b0 % 4 * 16 + b1 / 16;
    var v2 := b1 % 16 * 4 + b2 / 64;
    assert v1 / 16 == b0 % 4 && v1 % 16 == b1 / 16;
    assert v2 / 4 == b1 % 16 && v2 % 4 == b2 / 64;
  }

  /** Text `btoa` can produce: whole groups of four characters, each an
      alphabet character or padding. */
  ghost predicate IsText(t: Utf16)
  {
    |t| % 4 == 0 && forall k :: 0 <= k < |t| ==> IsAlphabet(t[k]) || t[k] == Pad
  }

  lemma EncodeIsText(b: seq<Byte>)
    ensures IsText(Encode(b))
  {
    EncodeLength(b);
    EncodeAlphabet(b);
    var groups := (|b| + 2) / 3;
    assert |Encode(b)| == groups * 4;
  }

  /** The four characters of a full group decode to its three bytes. */
  lemma DecodeQuad(b0: Byte, b1: Byte, b2: Byte, t: Utf16)
    ensures Decode(Quad(b0, b1, b2) + t) ==
      match Decode(t) case None => None case Some(rest) => Some([b0, b1, b2] + rest)
  {
    var s := Quad(b0, b1, b2) + t;
    QuadArithmetic(b0, b1, b2);
    var v0, v1, v2, v3 := b0 / 4, b0 % 4 * 16 + b1 / 16, b1 % 16 * 4 + b2 / 64, b2 % 64;
    ValueOfChar(v0);
    ValueOfChar(v1);
    ValueOfChar(v2);
    ValueOfChar(v3);
    assert s[0] == Char(v0) && s[1] == Char(v1) && s[2] == Char(v2) && s[3] == Char(v3);
    assert s[4..] == t;
  }

  /** A final group of one byte decodes to that byte. */
  lemma DecodeOne(b0: Byte)
    ensures Decode(Encode([b0])) == Some([b0])
  {
    var s := Encode([b0]);
    ValueOfChar(b0 / 4);
    ValueOfChar(b0 % 4 * 16);
    assert s == [Char(b0 / 4), Char(b0 % 4 * 16), Pad, Pad];
  }

  /** A final group of two bytes decodes to those bytes. */
  lemma DecodeTwo(b0: Byte, b1: Byte)
    ensures Decode(Encode([b0, b1])) == Some([b0, b1])
  {
    var v1 := b0 % 4 * 16 + b1 / 16;
    var s := Encode([b0, b1]);
    ValueOfChar(b0 / 4);
    ValueOfChar(v1);
    ValueOfChar(b1 % 16 * 4);
    assert s == [Char(b0 / 4), Char(v1), Char(b1 % 16 * 4), Pad];
    assert v1 / 16 == b0 % 4 && v1 % 16 == b1 / 16;
  }

  /** A full group in front of a tail that round-trips round-trips too. */
  lemma GroupRoundTrip(b0: Byte, b1: Byte, b2: Byte, tail: seq<Byte>)
    requires Decode(Encode(tail)) == Some(tail)
    ensures Decode(Encode([b0, b1, b2] + tail)) == Some([b0, b1, b2] + tail)
  {
    var b := [b0, b1, b2] + tail;
    assert b[3..] == tail;
    assert Encode(b) == Quad(b0, b1, b2) + Encode(tail);
    DecodeQuad(b0, b1, b2, Encode(tail));
  }

  /** Decoding the encoding gives back the bytes. */
  lemma {:induction false} RoundTrip(b: seq<Byte>)
    ensures Decode(Encode(b)) == Some(b)
    decreases |b|
  {
    if |b| == 1 {
      DecodeOne(b[0]);
      assert b == [b[0]];
    } else if |b| == 2 {
      DecodeTwo(b[0], b[1]);
      assert b == [b[0], b[1]];
    } else if |b| >= 3 {
      RoundTrip(b[3..]);
      GroupRoundTrip(b[0], b[1], b[2], b[3..]);
      assert b == [b[0], b[1], b[2]] + b[3..];
    }
  }
}
