/** `unescape(encodeURIComponent(s))`: the UTF-8 bytes (RFC 3629) of a UTF-16
    string, one character per byte. `encodeURIComponent` joins each surrogate
    pair into one supplementary code point and throws a URIError on a lone
    surrogate; `unescape` turns every `%XX` escape back into the character with
    code XX, and the characters left unescaped are ASCII, their own UTF-8 byte.
    So the composition is exactly the UTF-8 encoding, or the URIError. */
module Utf8 {
  import opened Js

  predicate IsHighSurrogate(u: int) { 0xD800 <= u <= 0xDBFF }

  predicate IsLowSurrogate(u: int) { 0xDC00 <= u <= 0xDFFF }

  predicate IsContinuation(b: Byte) { 0x80 <= b < 0xC0 }

  /** The code point of a surrogate pair. */
  function PairCodePoint(hi: int, lo: int): (cp: int)
    requires IsHighSurrogate(hi) && IsLowSurrogate(lo)
    ensures 0x10000 <= cp < 0x110000
  {
    0x10000 + (hi - 0xD800) * 0x400 + (lo - 0xDC00)
  }

  /** The UTF-8 bytes of one code point (section 3 of RFC 3629). */
  function ScalarBytes(cp: int): seq<Byte>
    requires 0 <= cp < 0x110000
  {
    if cp < 0x80 then [cp]
    else if cp < 0x800 then [0xC0 + cp / 64, 0x80 + cp % 64]
    else if cp < 0x1_0000 then [0xE0 + cp / 4096, 0x80 + cp / 64 % 64, 0x80 + cp % 64]
    else [0xF0 + cp / 0x4_0000, 0x80 + cp / 4096 % 64, 0x80 + cp / 64 % 64, 0x80 + cp % 64]
  }

  /** The encoding; None stands for the URIError a lone surrogate raises. */
  function Encode(s: Utf16): Option<seq<Byte>>
    decreases |s|
  {
    if s == [] then Some([])
    else if IsHighSurrogate(s[0]) then
      if |s| >= 2 && IsLowSurrogate(s[1]) then
        match Encode(s[2..])
        case None => None
        case Some(rest) => Some(ScalarBytes(PairCodePoint(s[0], s[1])) + rest)
      else None
    else if IsLowSurrogate(s[0]) then None
    else
      match Encode(s[1..])
      case None => None
      case Some(rest) => Some(ScalarBytes(s[0]) + rest)
  }

  /** A string with no lone surrogate: every high surrogate is followed by a
      low one and every low surrogate preceded by a high one. */
  ghost predicate WellFormed(s: Utf16)
  {
    && (forall i :: 0 <= i < |s| && IsHighSurrogate(s[i]) ==> i + 1 < |s| && IsLowSurrogate(s[i + 1]))
    && (forall i :: 0 <= i < |s| && IsLowSurrogate(s[i]) ==> 0 < i && IsHighSurrogate(s[i - 1]))
  }

  function Prepend(u: Utf16, r: Option<Utf16>): Option<Utf16>
  {
    match r
    case None => None
    case Some(t) => Some(u + t)
  }

  /** A decoder for what `Encode` produces (not part of the logger; it states
      what the encoding preserves). */
  function Decode(b: seq<Byte>): Option<Utf16>
    decreases |b|
  {
    if b == [] then Some([])
    else if b[0] < 0x80 then Prepend([b[0]], Decode(b[1..]))
    else if 0xC0 <= b[0] < 0xE0 && |b| >= 2 && IsContinuation(b[1]) then
      Prepend([(b[0] as int - 0xC0) * 64 + (b[1] as int - 0x80)], Decode(b[2..]))
    else if 0xE0 <= b[0] < 0xF0 && |b| >= 3 && IsContinuation(b[1]) && IsContinuation(b[2]) then
      Prepend([(b[0] as int - 0xE0) * 4096 + (b[1] as int - 0x80) * 64 + (b[2] as int - 0x80)], Decode(b[3..]))
    else if 0xF0 <= b[0] < 0xF8 && |b| >= 4 && IsContinuation(b[1]) && IsContinuation(b[2]) && IsContinuation(b[3]) then
      var cp := (b[0] as int - 0xF0) * 0x4_0000 + (b[1] as int - 0x80) * 4096 + (b[2] as int - 0x80) * 64 + (b[3] as int - 0x80);
      if 0x1_0000 <= cp < 0x11_0000 then
        Prepend([0xD800 + (cp - 0x1_0000) / 0x400, 0xDC00 + (cp - 0x1_0000) % 0x400], Decode(b[4..]))
      else None
    else None
  }

  lemma WellFormedTail1(s: Utf16)
    requires |s| >= 1 && !IsHighSurrogate(s[0]) && !IsLowSurrogate(s[0])
    ensures WellFormed(s) <==> WellFormed(s[1..])
  {
    var t := s[1..];
    if WellFormed(t) {
      forall i | 0 <= i < |s| && IsLowSurrogate(s[i])
        ensures 0 < i && IsHighSurrogate(s[i - 1])
      {
        assert 0 < i && IsLowSurrogate(t[i - 1]);
      }
      forall i | 0 <= i < |s| && IsHighSurrogate(s[i])
        ensures i + 1 < |s| && IsLowSurrogate(s[i + 1])
      {
        assert 0 < i && IsHighSurrogate(t[i - 1]);
      }
    }
    if WellFormed(s) {
      forall i | 0 <= i < |t| && IsLowSurrogate(t[i])
        ensures 0 < i && IsHighSurrogate(t[i - 1])
      {
        assert IsLowSurrogate(s[i + 1]);
      }
      forall i | 0 <= i < |t| && IsHighSurrogate(t[i])
        ensures i + 1 < |t| && IsLowSurrogate(t[i + 1])
      {
        assert IsHighSurrogate(s[i + 1]);
      }
    }
  }

  lemma WellFormedTail2(s: Utf16)
    requires |s| >= 2 && IsHighSurrogate(s[0]) && IsLowSurrogate(s[1])
    ensures WellFormed(s) <==> WellFormed(s[2..])
  {
    var t := s[2..];
    if WellFormed(t) {
      forall i | 0 <= i < |s| && IsLowSurrogate(s[i])
        ensures 0 < i && IsHighSurrogate(s[i - 1])
      {
        if i >= 2 {
          assert IsLowSurrogate(t[i - 2]);
        }
      }
      forall i | 0 <= i < |s| && IsHighSurrogate(s[i])
        ensures i + 1 < |s| && IsLowSurrogate(s[i + 1])
      {
        if i >= 2 {
          assert IsHighSurrogate(t[i - 2]);
        }
      }
    }
    if WellFormed(s) {
      forall i | 0 <= i < |t| && IsLowSurrogate(t[i])
        ensures 0 < i && IsHighSurrogate(t[i - 1])
      {
        assert IsLowSurrogate(s[i + 2]);
      }
      forall i | 0 <= i < |t| && IsHighSurrogate(t[i])
        ensures i + 1 < |t| && IsLowSurrogate(t[i + 1])
      {
        assert IsHighSurrogate(s[i + 2]);
      }
    }
  }

  /** `encodeURIComponent` throws exactly on a string with a lone surrogate. */
  lemma {:induction false} EncodeSucceedsIffWellFormed(s: Utf16)
    ensures Encode(s).Some? <==> WellFormed(s)
    decreases |s|
  {
    if s == [] {
    } else if IsHighSurrogate(s[0]) {
      if |s| >= 2 && IsLowSurrogate(s[1]) {
        WellFormedTail2(s);
        EncodeSucceedsIffWellFormed(s[2..]);
      } else {
        assert !WellFormed(s);
      }
    } else if IsLowSurrogate(s[0]) {
      assert !WellFormed(s);
    } else {
      WellFormedTail1(s);
      EncodeSucceedsIffWellFormed(s[1..]);
    }
  }

  lemma DecodeScalar(u: CodeUnit, rest: seq<Byte>)
    requires !IsHighSurrogate(u) && !IsLowSurrogate(u)
    ensures Decode(ScalarBytes(u) + rest) == Prepend([u], Decode(rest))
  {
    var b := ScalarBytes(u) + rest;
    if u < 0x80 {
      assert b[1..] == rest;
    } else if u < 0x800 {
      assert b[2..] == rest;
      assert (b[0] as int - 0xC0) * 64 + (b[1] as int - 0x80) == u;
    } else {
      assert b[3..] == rest;
      var q := u / 64;
      assert u == q * 64 + u % 64;
      assert q == q / 64 * 64 + q % 64;
      assert q / 64 == u / 4096;
      assert (b[0] as int - 0xE0) * 4096 + (b[1] as int - 0x80) * 64 + (b[2] as int - 0x80) == u;
    }
  }

  lemma DecodePair(hi: CodeUnit, lo: CodeUnit, rest: seq<Byte>)
    requires IsHighSurrogate(hi) && IsLowSurrogate(lo)
    ensures Decode(ScalarBytes(PairCodePoint(hi, lo)) + rest) == Prepend([hi, lo], Decode(rest))
  {
    var cp := PairCodePoint(hi, lo);
    var b := ScalarBytes(cp) + rest;
    assert b[4..] == rest;
    var q := cp / 64;
    var r := q / 64;
    assert cp == q * 64 + cp % 64;
    assert q == r * 64 + q % 64;
    assert r == r / 64 * 64 + r % 64;
    assert r == cp / 4096 && r / 64 == cp / 0x4_0000;
    var d := (b[0] as int - 0xF0) * 0x4_0000 + (b[1] as int - 0x80) * 4096 + (b[2] as int - 0x80) * 64 + (b[3] as int - 0x80);
    assert d == cp;
    var off := cp - 0x1_0000;
    assert off == (hi - 0xD800) * 0x400 + (lo - 0xDC00);
    assert off / 0x400 == hi - 0xD800 && off % 0x400 == lo - 0xDC00;
  }

  /** Decoding the encoding of a string without lone surrogates gives it back. */
  lemma {:induction false} RoundTrip(s: Utf16)
    requires WellFormed(s)
    ensures Encode(s).Some? && Decode(Encode(s).value) == Some(s)
    decreases |s|
  {
    EncodeSucceedsIffWellFormed(s);
    if s == [] {
    } else if IsHighSurrogate(s[0]) {
      WellFormedTail2(s);
      RoundTrip(s[2..]);
      DecodePair(s[0], s[1], Encode(s[2..]).value);
      assert s == [s[0], s[1]] + s[2..];
    } else {
      assert !IsLowSurrogate(s[0]);
      WellFormedTail1(s);
      RoundTrip(s[1..]);
      DecodeScalar(s[0], Encode(s[1..]).value);
      assert s == [s[0]] + s[1..];
    }
  }
}
