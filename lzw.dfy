/** `util.lzwCompressToBase64` (content.js): a greedy LZW parse of the input's
    code units, whose code stream is turned into a string with
    `String.fromCharCode`, encoded as UTF-8 and then base64; when that
    encoding throws, base64 of the UTF-8 of the input itself. */
module Lzw {
  import opened Js
  import Utf8
  import Base64

  /** The first code a new dictionary phrase gets. */
  const FirstCode := 256

  /** The state of the compression loop: the dictionary, the phrase being
      extended, the next free code and the codes emitted so far. `phrases`
      lists the phrases those codes stand for; the loop does not keep it, the
      proofs read it. */
  datatype Parse = Parse(dict: map<Utf16, int>, phrase: Utf16, code: int, out: seq<int>, phrases: seq<Utf16>)

  /** The phrase the loop starts from: `data[0] || ""`. */
  function Init(s: Utf16): Parse
  {
    Parse(map[], if |s| > 0 then [s[0]] else [], FirstCode, [], [])
  }

  /** The code pushed for a phrase: its own char code when it is one code
      unit long, else `dict.get(phrase)`. The only phrase missing from the
      dictionary is the empty one of an empty input, whose `undefined`
      becomes U+0000 under `String.fromCharCode`; 0 stands for it. */
  function Emit(dict: map<Utf16, int>, phrase: Utf16): int
  {
    if |phrase| == 1 then phrase[0] else if phrase in dict then dict[phrase] else 0
  }

  /** One turn of the loop, on the next code unit `c`. */
  function Step(p: Parse, c: CodeUnit): Parse
  {
    if p.phrase + [c] in p.dict then p.(phrase := p.phrase + [c])
    else Parse(p.dict[p.phrase + [c] := p.code], [c], p.code + 1,
               p.out + [Emit(p.dict, p.phrase)], p.phrases + [p.phrase])
  }

  /** The loop from index `i` to the end of `s`. */
  function Scan(p: Parse, s: Utf16, i: nat): Parse
    decreases |s| - i
  {
    if i >= |s| then p else Scan(Step(p, s[i]), s, i + 1)
  }

  /** The state after the loop. */
  function Final(s: Utf16): Parse
  {
    Scan(Init(s), s, 1)
  }

  /** The code stream `out`, including the push after the loop. */
  function Codes(s: Utf16): seq<int>
  {
    var f := Final(s);
    f.out + [Emit(f.dict, f.phrase)]
  }

  /** The phrases the codes stand for, in order. */
  function Phrases(s: Utf16): seq<Utf16>
  {
    var f := Final(s);
    f.phrases + [f.phrase]
  }

  /** `out.map(c => String.fromCharCode(c)).join("")`: each code is taken
      modulo 2^16. */
  function FromCharCodes(codes: seq<int>): (u: Utf16)
    ensures |u| == |codes|
    ensures forall k :: 0 <= k < |codes| && 0 <= codes[k] < 0x1_0000 ==> u[k] == codes[k]
  {
    seq(|codes|, k requires 0 <= k < |codes| => codes[k] % 0x1_0000)
  }

  /** `btoa(unescape(encodeURIComponent(s)))`; None is the URIError. */
  function Base64OfUtf8(s: Utf16): (r: Option<Utf16>)
    ensures r.Some? <==> Utf8.WellFormed(s)
    ensures r.Some? ==> Base64.IsText(r.value)
  {
    Utf8.EncodeSucceedsIffWellFormed(s);
    match Utf8.Encode(s)
    case None => None
    case Some(bytes) =>
      Base64.EncodeIsText(bytes);
      Some(Base64.Encode(bytes))
  }

  datatype Outcome = Ok(text: Utf16) | UriError

  /** What `lzwCompressToBase64` returns, or the URIError that escapes it when
      the fallback throws too. */
  function Compress(s: Utf16): (r: Outcome)
    ensures r.Ok? ==> Base64.IsText(r.text)
    ensures r == UriError <==> !Utf8.WellFormed(FromCharCodes(Codes(s))) && !Utf8.WellFormed(s)
  {
    match Base64OfUtf8(FromCharCodes(Codes(s)))
    case Some(t) => Ok(t)
    case None =>
      match Base64OfUtf8(s)
      case Some(t) => Ok(t)
      case None => UriError
  }

  /** The compressor as the source writes it: a loop over the code units
      that extends the current phrase while the dictionary knows the longer
      one, and otherwise emits the phrase and records the longer one under the
      next code. */
  method LzwCompressToBase64(str: Utf16) returns (r: Outcome)
    ensures r == Compress(str)
  {
    var dict: map<Utf16, int> := map[];
    var data := str;
    var out: seq<int> := [];
    var phrase: Utf16 := if |data| > 0 then [data[0]] else [];
    var code := FirstCode;
    ghost var phrases: seq<Utf16> := [];
    var i := 1;
    while i < |data|
      invariant 1 <= i
      invariant |data| > 0 ==> |phrase| >= 1 && (|phrase| > 1 ==> phrase in dict)
      invariant Scan(Parse(dict, phrase, code, out, phrases), data, i) == Final(str)
      decreases |data| - i
    {
      var curr := data[i];
      if phrase + [curr] in dict {
        phrase := phrase + [curr];
      } else {
        out := out + [if |phrase| == 1 then phrase[0] else dict[phrase]];
        phrases := phrases + [phrase];
        dict := dict[phrase + [curr] := code];
        code := code + 1;
        phrase := [curr];
      }
      i := i + 1;
    }
    out := out + [Emit(dict, phrase)];
    var byteStr := FromCharCodes(out);
    match Base64OfUtf8(byteStr) {
      case Some(t) => r := Ok(t);
      case None =>
        match Base64OfUtf8(str) {
          case Some(t) => r := Ok(t);
          case None => r := UriError;
        }
    }
  }

  // ---------------------------------------------------------------------
  // What the parse produces

  /** The concatenation of a list of phrases. */
  function Concat(ps: seq<Utf16>): Utf16
    decreases |ps|
  {
    if ps == [] then [] else Concat(ps[..|ps| - 1]) + ps[|ps| - 1]
  }

  ghost predicate NonEmpty(ps: seq<Utf16>)
  {
    forall k :: 0 <= k < |ps| ==> |ps[k]| >= 1
  }

  /** The dictionary phrase the k-th emission records: phrase k followed by
      the first code unit of phrase k+1. */
  function Entry(ps: seq<Utf16>, k: int): Utf16
    requires 0 <= k && k + 1 < |ps| && |ps[k + 1]| >= 1
  {
    ps[k] + [ps[k + 1][0]]
  }

  /** The code for phrase m: its code unit when it is one unit long,
      otherwise the code 256 + j of an earlier entry j that spells it. */
  ghost predicate CodeFits(ps: seq<Utf16>, m: int, c: int)
    requires 0 <= m < |ps| && NonEmpty(ps)
  {
    if |ps[m]| == 1 then c == ps[m][0]
    else FirstCode <= c < FirstCode + m && Entry(ps, c - FirstCode) == ps[m]
  }

  /** Codes that fit the first |out| phrases of ps. */
  ghost predicate CodesFit(ps: seq<Utf16>, out: seq<int>)
    requires NonEmpty(ps) && |out| <= |ps|
  {
    forall m :: 0 <= m < |out| ==> CodeFits(ps, m, out[m])
  }

  /** A code stream that an LZW decoder can follow: one code per nonempty
      phrase, each fitting its phrase. */
  ghost predicate ValidParse(ps: seq<Utf16>, codes: seq<int>)
  {
    |ps| == |codes| && NonEmpty(ps) && CodesFit(ps, codes)
  }

  /** Entries 0..n-1 of ps are in the dictionary, entry k under code 256 + k. */
  ghost predicate DictHasEntries(dict: map<Utf16, int>, ps: seq<Utf16>, n: nat)
    requires NonEmpty(ps) && n < |ps|
  {
    forall k :: 0 <= k < n ==> Entry(ps, k) in dict && dict[Entry(ps, k)] == FirstCode + k
  }

  /** Every dictionary phrase is the entry its code names, among 0..n-1. */
  ghost predicate DictOnlyEntries(dict: map<Utf16, int>, ps: seq<Utf16>, n: nat)
    requires NonEmpty(ps) && n < |ps|
  {
    forall w :: w in dict ==> FirstCode <= dict[w] < FirstCode + n && Entry(ps, dict[w] - FirstCode) == w
  }

  /** The dictionary holds exactly the first n entries of ps, entry k under
      code 256 + k. */
  ghost predicate DictHolds(dict: map<Utf16, int>, ps: seq<Utf16>, n: nat)
    requires NonEmpty(ps) && n < |ps|
  {
    DictHasEntries(dict, ps, n) && DictOnlyEntries(dict, ps, n)
  }

  function All(p: Parse): seq<Utf16>
  {
    p.phrases + [p.phrase]
  }

  /** The loop invariant over the first i code units of s. */
  ghost predicate Inv(p: Parse, s: Utf16, i: nat)
  {
    && 1 <= i <= |s|
    && NonEmpty(All(p))
    && Concat(All(p)) == s[..i]
    && |p.out| == |p.phrases|
    && p.code == FirstCode + |p.phrases|
    && DictHolds(p.dict, All(p), |p.phrases|)
    && (|p.phrase| > 1 ==> p.phrase in p.dict)
    && CodesFit(All(p), p.out)
  }

  lemma InvInit(s: Utf16)
    requires |s| >= 1
    ensures Inv(Init(s), s, 1)
  {
    var p := Init(s);
    assert All(p) == [[s[0]]];
    assert Concat(All(p)) == Concat([]) + [s[0]];
  }

  /** Two phrase lists that agree on phrases 0..n-1 and on the first code unit
      of phrase n have the same first n entries. */
  lemma EntriesAgree(ps: seq<Utf16>, qs: seq<Utf16>, n: nat)
    requires NonEmpty(ps) && NonEmpty(qs) && n < |ps| && n < |qs|
    requires ps[..n] == qs[..n] && ps[n][0] == qs[n][0]
    ensures forall k :: 0 <= k < n ==> Entry(ps, k) == Entry(qs, k)
  {
    forall k | 0 <= k < n
      ensures Entry(ps, k) == Entry(qs, k)
    {
      assert ps[k] == ps[..n][k] == qs[..n][k] == qs[k];
      if k + 1 < n {
        assert ps[k + 1] == ps[..n][k + 1] == qs[..n][k + 1] == qs[k + 1];
      }
    }
  }

  /** Codes that fit the first |out| phrases keep fitting after a change to
      later phrases that leaves the entries they use alone. */
  lemma CodesFitAgree(ps: seq<Utf16>, qs: seq<Utf16>, out: seq<int>)
    requires NonEmpty(ps) && NonEmpty(qs) && |out| < |ps| && |out| < |qs|
    requires ps[..|out|] == qs[..|out|]
    requires forall k :: 0 <= k < |out| ==> Entry(ps, k) == Entry(qs, k)
    requires CodesFit(ps, out)
    ensures CodesFit(qs, out)
  {
    forall m | 0 <= m < |out|
      ensures CodeFits(qs, m, out[m])
    {
      assert CodeFits(ps, m, out[m]);
      assert ps[m] == ps[..|out|][m] == qs[..|out|][m] == qs[m];
    }
  }

  lemma DictAgree(dict: map<Utf16, int>, ps: seq<Utf16>, qs: seq<Utf16>, n: nat)
    requires NonEmpty(ps) && NonEmpty(qs) && n < |ps| && n < |qs|
    requires forall k :: 0 <= k < n ==> Entry(ps, k) == Entry(qs, k)
    requires DictHolds(dict, ps, n)
    ensures DictHolds(dict, qs, n)
  {
  }

  lemma RecordHasEntries(dict: map<Utf16, int>, ps: seq<Utf16>, n: nat)
    requires NonEmpty(ps) && n + 1 < |ps|
    requires DictHasEntries(dict, ps, n) && Entry(ps, n) !in dict
    ensures DictHasEntries(dict[Entry(ps, n) := FirstCode + n], ps, n + 1)
  {
    var key := Entry(ps, n);
    var d := dict[key := FirstCode + n];
    forall k | 0 <= k < n + 1
      ensures Entry(ps, k) in d && d[Entry(ps, k)] == FirstCode + k
    {
      if k < n {
        var e := Entry(ps, k);
        assert e in dict && e != key;
      }
    }
  }

  lemma RecordOnlyEntries(dict: map<Utf16, int>, ps: seq<Utf16>, n: nat)
    requires NonEmpty(ps) && n + 1 < |ps|
    requires DictOnlyEntries(dict, ps, n)
    ensures DictOnlyEntries(dict[Entry(ps, n) := FirstCode + n], ps, n + 1)
  {
    var key := Entry(ps, n);
    var d := dict[key := FirstCode + n];
    forall w | w in d
      ensures FirstCode <= d[w] < FirstCode + n + 1 && Entry(ps, d[w] - FirstCode) == w
    {
      if w != key {
        assert w in dict && d[w] == dict[w];
      }
    }
  }

  /** Recording a new entry n under code 256 + n. */
  lemma DictRecord(dict: map<Utf16, int>, ps: seq<Utf16>, n: nat)
    requires NonEmpty(ps) && n + 1 < |ps|
    requires DictHolds(dict, ps, n) && Entry(ps, n) !in dict
    ensures DictHolds(dict[Entry(ps, n) := FirstCode + n], ps, n + 1)
  {
    RecordHasEntries(dict, ps, n);
    RecordOnlyEntries(dict, ps, n);
  }

  lemma ConcatSnoc(ps: seq<Utf16>, q: Utf16)
    ensures Concat(ps + [q]) == Concat(ps) + q
  {
    assert (ps + [q])[..|ps|] == ps;
  }

  lemma InvStepExtend(p: Parse, s: Utf16, i: nat)
    requires Inv(p, s, i) && i < |s|
    requires p.phrase + [s[i]] in p.dict
    ensures Inv(Step(p, s[i]), s, i + 1)
  {
    var c := s[i];
    var q := p.(phrase := p.phrase + [c]);
    assert Step(p, c) == q;
    var n := |p.phrases|;
    var P, Q := All(p), All(q);
    assert P == p.phrases + [p.phrase] && Q == p.phrases + [p.phrase + [c]];
    assert NonEmpty(Q);
    ConcatSnoc(p.phrases, p.phrase);
    ConcatSnoc(p.phrases, p.phrase + [c]);
    assert s[..i + 1] == s[..i] + [c];
    assert P[..n] == Q[..n] == p.phrases;
    EntriesAgree(P, Q, n);
    DictAgree(p.dict, P, Q, n);
    CodesFitAgree(P, Q, p.out);
  }

  /** The dictionary after an emission holds one more entry. */
  lemma EmitDict(p: Parse, c: CodeUnit)
    requires NonEmpty(All(p)) && DictHolds(p.dict, All(p), |p.phrases|)
    requires p.phrase + [c] !in p.dict && p.code == FirstCode + |p.phrases|
    ensures NonEmpty(All(p) + [[c]])
    ensures DictHolds(p.dict[p.phrase + [c] := p.code], All(p) + [[c]], |p.phrases| + 1)
  {
    var n := |p.phrases|;
    var P, Q := All(p), All(p) + [[c]];
    assert Q[..n] == P[..n];
    assert Q[n] == P[n];
    EntriesAgree(P, Q, n);
    DictAgree(p.dict, P, Q, n);
    assert Entry(Q, n) == p.phrase + [c];
    DictRecord(p.dict, Q, n);
  }

  /** The codes after an emission fit the phrases, the new one included. */
  lemma EmitCodes(p: Parse, c: CodeUnit)
    requires NonEmpty(All(p)) && |p.out| == |p.phrases|
    requires DictOnlyEntries(p.dict, All(p), |p.phrases|)
    requires |p.phrase| > 1 ==> p.phrase in p.dict
    requires CodesFit(All(p), p.out)
    ensures NonEmpty(All(p) + [[c]])
    ensures CodesFit(All(p) + [[c]], p.out + [Emit(p.dict, p.phrase)])
  {
    var n := |p.phrases|;
    var P, Q := All(p), All(p) + [[c]];
    var e := Emit(p.dict, p.phrase);
    assert Q[..n] == P[..n];
    assert Q[n] == P[n] == p.phrase;
    EntriesAgree(P, Q, n);
    CodesFitAgree(P, Q, p.out);
    assert CodeFits(Q, n, e) by {
      if |p.phrase| > 1 {
        assert p.phrase in p.dict;
        assert Entry(P, e - FirstCode) == p.phrase;
      }
    }
    forall m | 0 <= m < n + 1
      ensures CodeFits(Q, m, (p.out + [e])[m])
    {
      if m < n {
        assert (p.out + [e])[m] == p.out[m];
      }
    }
  }

  lemma InvStepEmit(p: Parse, s: Utf16, i: nat)
    requires Inv(p, s, i) && i < |s|
    requires p.phrase + [s[i]] !in p.dict
    ensures Inv(Step(p, s[i]), s, i + 1)
  {
    var c := s[i];
    var e := Emit(p.dict, p.phrase);
    var q := Parse(p.dict[p.phrase + [c] := p.code], [c], p.code + 1, p.out + [e], p.phrases + [p.phrase]);
    assert Step(p, c) == q;
    assert All(q) == All(p) + [[c]];
    ConcatSnoc(All(p), [c]);
    assert s[..i + 1] == s[..i] + [c];
    EmitDict(p, c);
    EmitCodes(p, c);
  }

  lemma InvStep(p: Parse, s: Utf16, i: nat)
    requires Inv(p, s, i) && i < |s|
    ensures Inv(Step(p, s[i]), s, i + 1)
  {
    if p.phrase + [s[i]] in p.dict {
      InvStepExtend(p, s, i);
    } else {
      InvStepEmit(p, s, i);
    }
  }

  lemma {:induction false} InvScan(p: Parse, s: Utf16, i: nat)
    requires Inv(p, s, i)
    ensures Inv(Scan(p, s, i), s, |s|)
    decreases |s| - i
  {
    if i < |s| {
      InvStep(p, s, i);
      InvScan(Step(p, s[i]), s, i + 1);
    }
  }

  /** The final state of a nonempty input satisfies the invariant over all of it. */
  lemma InvFinal(s: Utf16)
    requires |s| >= 1
    ensures Inv(Final(s), s, |s|)
  {
    InvInit(s);
    InvScan(Init(s), s, 1);
  }

  /** The parse is lossless: for a nonempty input the emitted phrases,
      concatenated in order, are the input, and each code fits its phrase. */
  lemma ParseIsLossless(s: Utf16)
    requires |s| >= 1
    ensures Concat(Phrases(s)) == s
    ensures ValidParse(Phrases(s), Codes(s))
  {
    InvFinal(s);
    var f := Final(s);
    var P, C := Phrases(s), Codes(s);
    assert P == All(f);
    assert s[..|s|] == s;
    assert CodeFits(P, |f.phrases|, Emit(f.dict, f.phrase)) by {
      if |f.phrase| > 1 {
        assert f.phrase in f.dict;
      }
    }
    forall m | 0 <= m < |C|
      ensures CodeFits(P, m, C[m])
    {
      if m < |f.out| {
        assert C[m] == f.out[m];
      }
    }
  }

  /** Dictionary phrases get consecutive codes from 256, one per emitted code
      but the last: entry k, phrase k followed by the first code unit of
      phrase k+1, holds code 256 + k, and the dictionary holds nothing else. */
  lemma DictionaryCodes(s: Utf16)
    requires |s| >= 1
    ensures |Phrases(s)| == |Codes(s)| && NonEmpty(Phrases(s))
    ensures DictHolds(Final(s).dict, Phrases(s), |Codes(s)| - 1)
  {
    InvFinal(s);
  }

  lemma {:induction false} ConcatLength(ps: seq<Utf16>)
    requires NonEmpty(ps)
    ensures |Concat(ps)| >= |ps|
    decreases |ps|
  {
    if ps != [] {
      ConcatLength(ps[..|ps| - 1]);
    }
  }

  /** There are never more codes than input code units, and at least one. */
  lemma CodeCount(s: Utf16)
    ensures 1 <= |Codes(s)| <= if |s| == 0 then 1 else |s|
  {
    if |s| >= 1 {
      ParseIsLossless(s);
      ConcatLength(Phrases(s));
    }
  }

  lemma {:induction false} PhraseInConcat(ps: seq<Utf16>, m: int)
    requires 0 <= m < |ps|
    ensures forall x :: x in ps[m] ==> x in Concat(ps)
    decreases |ps|
  {
    if m < |ps| - 1 {
      PhraseInConcat(ps[..|ps| - 1], m);
    }
  }

  /** Every code is a code unit of the input, or 256 plus the index of an
      entry recorded before it. */
  lemma CodeBounds(s: Utf16)
    requires |s| >= 1
    ensures forall m :: 0 <= m < |Codes(s)| ==>
              (0 <= Codes(s)[m] < 0x1_0000 && Codes(s)[m] in s) || FirstCode <= Codes(s)[m] < FirstCode + m
  {
    ParseIsLossless(s);
    var P, C := Phrases(s), Codes(s);
    forall m | 0 <= m < |C|
      ensures (0 <= C[m] < 0x1_0000 && C[m] in s) || FirstCode <= C[m] < FirstCode + m
    {
      assert CodeFits(P, m, C[m]);
      if |P[m]| == 1 {
        PhraseInConcat(P, m);
        assert P[m][0] in P[m];
      }
    }
  }

  // ---------------------------------------------------------------------
  // A decoder for the code stream (not part of the logger; it states what
  // the stream preserves)

  /** Rebuilds each phrase from its code: a code below 256 is a code unit, a
      known dictionary code is its entry, and the code about to be assigned
      is the previous phrase plus its own first code unit. */
  function DecodeFrom(codes: seq<int>, i: nat, entries: seq<Utf16>, prev: Utf16, acc: Utf16): Option<Utf16>
    requires 1 <= i <= |codes| && |prev| >= 1
    decreases |codes| - i
  {
    if i == |codes| then Some(acc)
    else
      var cur := Rebuild(codes[i], entries, prev);
      if cur == [] then None
      else DecodeFrom(codes, i + 1, entries + [prev + [cur[0]]], cur, acc + cur)
  }

  /** The phrase a code stands for, or [] for a code the decoder cannot know. */
  function Rebuild(c: int, entries: seq<Utf16>, prev: Utf16): Utf16
    requires |prev| >= 1
  {
    if 0 <= c < FirstCode then [c]
    else if FirstCode <= c < FirstCode + |entries| then entries[c - FirstCode]
    else if c == FirstCode + |entries| then prev + [prev[0]]
    else []
  }

  function LzwDecode(codes: seq<int>): Option<Utf16>
  {
    if codes == [] then Some([])
    else if 0 <= codes[0] < FirstCode then DecodeFrom(codes, 1, [], [codes[0]], [codes[0]])
    else None
  }

  /** Every code unit of s is below 256 (Latin-1 text). */
  ghost predicate Latin1(s: Utf16)
  {
    forall x :: x in s ==> x < FirstCode
  }

  /** The decoder rebuilds phrase i from its code. */
  lemma RebuildPhrase(ps: seq<Utf16>, codes: seq<int>, i: nat, entries: seq<Utf16>, prev: Utf16)
    requires ValidParse(ps, codes) && Latin1(Concat(ps))
    requires 1 <= i < |codes|
    requires |entries| == i - 1 && forall j :: 0 <= j < i - 1 ==> entries[j] == Entry(ps, j)
    requires prev == ps[i - 1]
    ensures Rebuild(codes[i], entries, prev) == ps[i]
  {
    var c := codes[i];
    assert CodeFits(ps, i, c);
    if |ps[i]| == 1 {
      PhraseInConcat(ps, i);
      assert ps[i][0] in ps[i];
      assert [c] == ps[i];
    } else {
      RebuildEntry(ps, codes, i, entries, prev);
    }
  }

  lemma RebuildEntry(ps: seq<Utf16>, codes: seq<int>, i: nat, entries: seq<Utf16>, prev: Utf16)
    requires ValidParse(ps, codes)
    requires 1 <= i < |codes| && |ps[i]| > 1
    requires |entries| == i - 1 && forall j :: 0 <= j < i - 1 ==> entries[j] == Entry(ps, j)
    requires prev == ps[i - 1]
    ensures Rebuild(codes[i], entries, prev) == ps[i]
  {
    var c := codes[i];
    assert CodeFits(ps, i, c);
    var j := c - FirstCode;
    assert Entry(ps, j) == ps[i];
    if j == i - 1 {
      assert ps[i][0] == prev[0];
    }
  }

  lemma {:induction false} DecodeFromCorrect(ps: seq<Utf16>, codes: seq<int>, i: nat, entries: seq<Utf16>, prev: Utf16, acc: Utf16)
    requires ValidParse(ps, codes) && Latin1(Concat(ps))
    requires 1 <= i <= |codes|
    requires |entries| == i - 1 && forall j :: 0 <= j < i - 1 ==> entries[j] == Entry(ps, j)
    requires prev == ps[i - 1] && acc == Concat(ps[..i])
    ensures DecodeFrom(codes, i, entries, prev, acc) == Some(Concat(ps))
    decreases |codes| - i
  {
    if i == |codes| {
      assert ps[..i] == ps;
    } else {
      var cur := ps[i];
      RebuildPhrase(ps, codes, i, entries, prev);
      assert ps[..i + 1] == ps[..i] + [cur];
      ConcatSnoc(ps[..i], cur);
      var entries' := entries + [prev + [cur[0]]];
      assert Entry(ps, i - 1) == prev + [cur[0]];
      assert forall j :: 0 <= j < i ==> entries'[j] == Entry(ps, j);
      DecodeFromCorrect(ps, codes, i + 1, entries', cur, acc + cur);
    }
  }

  /** Decoding the code stream of a nonempty Latin-1 input gives it back. */
  lemma CodesRoundTrip(s: Utf16)
    requires |s| >= 1 && Latin1(s)
    ensures LzwDecode(Codes(s)) == Some(s)
  {
    ParseIsLossless(s);
    var P, C := Phrases(s), Codes(s);
    assert CodeFits(P, 0, C[0]);
    assert |P[0]| == 1;
    PhraseInConcat(P, 0);
    assert P[0][0] in P[0];
    assert [C[0]] == P[0];
    assert P[..1] == [] + [P[0]];
    ConcatSnoc([], P[0]);
    DecodeFromCorrect(P, C, 1, [], P[0], P[0]);
  }

  // ---------------------------------------------------------------------
  // The whole compressor

  /** Undoes the primary path: base64, then UTF-8, then the code stream. */
  function Decompress(t: Utf16): Option<Utf16>
  {
    match Base64.Decode(t)
    case None => None
    case Some(bytes) =>
      match Utf8.Decode(bytes)
      case None => None
      case Some(u) => LzwDecode(u)
  }

  /** The longest input whose codes are certain to stay below the surrogate
      range, so that `String.fromCharCode` neither truncates them nor makes a
      lone surrogate. */
  const SafeLength := 0xD800 - FirstCode

  /** Codes of a Latin-1 input no longer than SafeLength are all below the
      surrogates. */
  lemma CodesBelowSurrogates(s: Utf16)
    requires 1 <= |s| <= SafeLength && Latin1(s)
    ensures forall m :: 0 <= m < |Codes(s)| ==> 0 <= Codes(s)[m] < 0xD800
  {
    CodeCount(s);
    CodeBounds(s);
  }

  lemma NoSurrogates(u: Utf16)
    requires forall k :: 0 <= k < |u| ==> u[k] < 0xD800
    ensures Utf8.WellFormed(u)
  {
  }

  /** For a nonempty Latin-1 input no longer than SafeLength the primary path
      succeeds and decompressing its output gives the input back. */
  lemma RoundTrip(s: Utf16)
    requires 1 <= |s| <= SafeLength && Latin1(s)
    ensures Compress(s).Ok? && Decompress(Compress(s).text) == Some(s)
  {
    var C := Codes(s);
    CodesBelowSurrogates(s);
    var u := FromCharCodes(C);
    assert u == C;
    NoSurrogates(u);
    Utf8.RoundTrip(u);
    var bytes := Utf8.Encode(u).value;
    Base64.RoundTrip(bytes);
    assert Compress(s) == Ok(Base64.Encode(bytes));
    CodesRoundTrip(s);
  }

  /** When the encoding of the code stream throws, the output is base64 of the
      UTF-8 of the input itself, or the URIError when the input holds a lone
      surrogate. */
  lemma Fallback(s: Utf16)
    requires Base64OfUtf8(FromCharCodes(Codes(s))).None?
    ensures Compress(s).Ok? <==> Utf8.WellFormed(s)
    ensures Compress(s).Ok? ==> Utf8.Encode(s).Some? && Compress(s).text == Base64.Encode(Utf8.Encode(s).value)
  {
    Utf8.EncodeSucceedsIffWellFormed(s);
  }

  /** A lone surrogate does not always make the compressor throw: here the
      input ends in a lone high surrogate, but the code stream is a surrogate
      pair followed by the codes 256 and 258, which encode without error. */
  lemma LateLoneSurrogatePasses()
    ensures var s: Utf16 := [0xD800, 0xDC00, 0xD800, 0xDC00, 0xD800, 0xDC00, 0xD800];
            !Utf8.WellFormed(s) && Codes(s) == [0xD800, 0xDC00, 256, 258] && Compress(s).Ok?
  {
    var s: Utf16 := [0xD800, 0xDC00, 0xD800, 0xDC00, 0xD800, 0xDC00, 0xD800];
    LateLoneParse();
    LateLoneCodesEncode();
    assert FromCharCodes(Codes(s)) == [0xD800, 0xDC00, 256, 258];
    assert !Utf8.IsLowSurrogate(s[6]) && |s| == 7;
  }

  /** The parse of the input of `LateLoneSurrogatePasses`, step by step. */
  lemma LateLoneParse()
    ensures Codes([0xD800, 0xDC00, 0xD800, 0xDC00, 0xD800, 0xDC00, 0xD800]) == [0xD800, 0xDC00, 256, 258]
  {
    var H, L := 0xD800, 0xDC00;
    var s: Utf16 := [H, L, H, L, H, L, H];
    var d2 := map[[H, L] := 256, [L, H] := 257];
    var d3 := d2[[H, L, H] := 258];
    var p1 := Parse(map[[H, L] := 256], [L], 257, [H], [[H]]);
    var p2 := Parse(d2, [H], 258, [H, L], [[H], [L]]);
    var p3 := p2.(phrase := [H, L]);
    var p4 := Parse(d3, [H], 259, [H, L, 256], [[H], [L], [H, L]]);
    var p5 := p4.(phrase := [H, L]);
    var p6 := p4.(phrase := [H, L, H]);
    LateLoneFirstSteps();
    LateLoneLastSteps();
    assert Scan(p6, s, 7) == p6;
    assert Scan(p5, s, 6) == p6;
    assert Scan(p4, s, 5) == p6;
    assert Scan(p3, s, 4) == p6;
    assert Scan(p2, s, 3) == p6;
    assert Scan(p1, s, 2) == p6;
    assert Final(s) == p6;
  }

  lemma LateLoneFirstSteps()
    ensures var H, L := 0xD800, 0xDC00;
            var d2 := map[[H, L] := 256, [L, H] := 257];
            && Step(Init([H, L, H, L, H, L, H]), L) == Parse(map[[H, L] := 256], [L], 257, [H], [[H]])
            && Step(Parse(map[[H, L] := 256], [L], 257, [H], [[H]]), H) == Parse(d2, [H], 258, [H, L], [[H], [L]])
  {
    var H, L := 0xD800, 0xDC00;
    assert [H] + [L] == [H, L] && [L] + [H] == [L, H];
    assert [L, H] != [H, L];
  }

  lemma LateLoneLastSteps()
    ensures var H, L := 0xD800, 0xDC00;
            var d2 := map[[H, L] := 256, [L, H] := 257];
            var p2 := Parse(d2, [H], 258, [H, L], [[H], [L]]);
            var p4 := Parse(d2[[H, L, H] := 258], [H], 259, [H, L, 256], [[H], [L], [H, L]]);
            && Step(p2, L) == p2.(phrase := [H, L])
            && Step(p2.(phrase := [H, L]), H) == p4
            && Step(p4, L) == p4.(phrase := [H, L])
            && Step(p4.(phrase := [H, L]), H) == p4.(phrase := [H, L, H])
  {
    var H, L := 0xD800, 0xDC00;
    var d2 := map[[H, L] := 256, [L, H] := 257];
    assert [H] + [L] == [H, L] && [H, L] + [H] == [H, L, H];
    assert [H, L, H] !in d2;
  }

  /** The code stream of `LateLoneSurrogatePasses` is a surrogate pair and two
      other code units, so it encodes. */
  lemma LateLoneCodesEncode()
    ensures Utf8.Encode([0xD800, 0xDC00, 256, 258]).Some?
  {
    var u: Utf16 := [0xD800, 0xDC00, 256, 258];
    assert u[2..] == [256, 258] && u[3..] == [258] && u[4..] == [];
    assert Utf8.Encode(u[4..]) == Some([]);
    assert Utf8.Encode(u[3..]).Some?;
    assert Utf8.Encode(u[2..]).Some?;
  }

  /** A lone high surrogate on its own makes both paths throw. */
  lemma LoneSurrogateThrows()
    ensures Compress([0xD800]) == UriError
  {
    var s: Utf16 := [0xD800];
    assert Final(s) == Init(s);
    assert Codes(s) == [0xD800];
    assert FromCharCodes([0xD800]) == [0xD800];
    assert !Utf8.WellFormed(s);
    Utf8.EncodeSucceedsIffWellFormed(s);
  }

  /** The empty input and the single character U+0000 compress to the same
      text, "AA==": the empty phrase has no dictionary code and is pushed as
      U+0000. */
  lemma EmptyInputCollides()
    ensures Compress([]) == Compress([0]) == Ok([65, 65, 61, 61])
  {
    assert Final([]) == Init([]);
    assert Codes([]) == [0];
    assert Final([0]) == Init([0]);
    assert Codes([0]) == [0];
    assert FromCharCodes([0]) == [0];
    var z: Utf16 := [0];
    assert z[1..] == [];
    assert Utf8.Encode(z[1..]) == Some([]);
    assert Utf8.ScalarBytes(0) == [0];
    assert Utf8.Encode(z).Some? && Utf8.Encode(z).value == [0];
    assert Base64.Encode([0]) == [65, 65, 61, 61];
  }
}
