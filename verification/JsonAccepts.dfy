/** Which documents `cJSON_ParseWithOpts` accepts, and as what. */
module JsonAccepts {
  import opened Bytes
  import opened Json
  import opened JsonString
  import opened JsonUnicode
  import opened JsonParse
  import opened JsonGrammar

  /** `t` is what C code sees of `out`: the bytes in front of the first zero byte. */
  predicate CutAtNul(out: Bytes, t: Bytes) {
    t <= out && (forall i :: 0 <= i < |t| ==> t[i] != 0) && (|t| < |out| ==> out[|t|] == 0)
  }

  /** A string literal from `a` up to `b`: quotes around pieces, with `t` as their meaning. */
  ghost predicate IsString(s: Bytes, a: nat, b: nat, t: Bytes) {
    && a + 1 < b <= |s| && s[a] == 0x22 && Closes(s, a + 1, b - 1)
    && exists pieces :: SpelledAll(s, a + 1, b - 1, pieces) && CutAtNul(MeaningAll(pieces), t)
  }

  lemma {:induction false} PrefixIsCut(out: Bytes, t: Bytes)
    ensures CPrefix(out) == t <==> CutAtNul(out, t)
    decreases |out|
  {
    if out != [] && out[0] != 0 {
      if t != [] {
        PrefixIsCut(out[1..], t[1..]);
        assert t == [t[0]] + t[1..] && out == [out[0]] + out[1..];
        assert CutAtNul(out, t) ==> t[0] == out[0] && CutAtNul(out[1..], t[1..]);
        assert t[0] == out[0] && CutAtNul(out[1..], t[1..]) ==> CutAtNul(out, t);
      }
    }
  }

  /** `parse_string` accepts exactly the string literals. */
  lemma ReadsLiterals(s: Bytes, a: nat, b: nat, t: Bytes)
    requires CString(s) && a < |s|
    ensures ParseString(s, a) == Parsed(t, b) <==> IsString(s, a, b, t)
  {
    hide ScanString, SpelledAll, MeaningAll, Decode, CPrefix, CutAtNul, CString, Closes;
    if s[a] == 0x22 && b > 0 {
      var e := b - 1;
      ScanCloses(s, a + 1, e);
      if ParseString(s, a) == Parsed(t, b) {
        var pieces := DecodeSpells(s, a + 1, e);
        PrefixIsCut(MeaningAll(pieces), t);
      }
      if IsString(s, a, b, t) {
        var pieces :| SpelledAll(s, a + 1, b - 1, pieces) && CutAtNul(MeaningAll(pieces), t);
        DecodeReads(s, a + 1, e, pieces);
        PrefixIsCut(MeaningAll(pieces), t);
      }
    }
  }

  /** The first `n` bytes from `a` on are those the parser collects for a number. */
  predicate Collects(s: Bytes, a: nat, n: nat) {
    && n <= 63 && a + n <= |s| && (forall i :: a <= i < a + n ==> OfNumber(s[i]))
    && (n == 63 || a + n == |s| || !OfNumber(s[a + n]))
  }

  predicate OfNumber(c: byte) {
    0x30 <= c <= 0x39 || c in {0x2B, 0x2D, 0x2E, 0x45, 0x65}
  }

  /** A number from `a` up to `b`: what `strtod` takes of the bytes collected. */
  ghost predicate IsNumber(s: Bytes, a: nat, b: nat, t: Bytes, strtod: Strtod) {
    a < b <= |s| && t == s[a..b] && exists n: nat :: Collects(s, a, n) && b <= a + n && strtod(s[a..a + n]) == b - a
  }

  lemma {:induction false} RunCollects(s: Bytes, a: nat, max: nat)
    requires a <= |s| && max <= 63
    ensures var n := NumberRun(s, a, max);
            && (forall i :: a <= i < a + n ==> OfNumber(s[i]))
            && (n == max || a + n == |s| || !OfNumber(s[a + n]))
    decreases max
  {
    if max > 0 && a < |s| && NumberByte(s[a]) {
      RunCollects(s, a + 1, max - 1);
    }
  }

  lemma CollectedOnce(s: Bytes, a: nat, n: nat, n': nat)
    requires Collects(s, a, n) && Collects(s, a, n')
    ensures n == n'
  {
  }

  /** `parse_number` accepts exactly the numbers. */
  lemma ReadsNumbersAt(s: Bytes, a: nat, b: nat, t: Bytes, strtod: Strtod)
    requires CString(s) && a < |s|
    ensures ParseNumber(s, a, strtod) == Parsed(t, b) <==> IsNumber(s, a, b, t, strtod)
  {
    hide NumberRun, OfNumber, CString;
    var n := NumberRun(s, a, 63);
    RunCollects(s, a, 63);
    assert Collects(s, a, n);
    var run := s[a..a + n];
    forall k: nat | k <= n ensures run[..k] == s[a..a + k] {
    }
    if IsNumber(s, a, b, t, strtod) {
      var n': nat :| Collects(s, a, n') && b <= a + n' && strtod(s[a..a + n']) == b - a;
      CollectedOnce(s, a, n, n');
    }
  }

  /** The tokens of the documents cJSON reads. */
  ghost function Spelling(strtod: Strtod): Tokens {
    Tokens((s: Bytes, a: nat, b: nat, t: Bytes) => IsString(s, a, b, t),
           (s: Bytes, a: nat, b: nat, t: Bytes) => IsNumber(s, a, b, t, strtod))
  }

  lemma SourceAgrees(strtod: Strtod)
    ensures Agree(CJson(strtod), Spelling(strtod))
  {
    hide IsString, IsNumber, ParseString, ParseNumber;
    var lex, tok := CJson(strtod), Spelling(strtod);
    forall s, a: nat, b: nat, t | CString(s) && a < |s|
      ensures lex.readString(s, a) == Parsed(t, b) <==> tok.str(s, a, b, t)
      ensures lex.readNumber(s, a) == Parsed(t, b) <==> tok.num(s, a, b, t)
    {
      ReadsLiterals(s, a, b, t);
      ReadsNumbersAt(s, a, b, t, strtod);
    }
    forall s, a: nat | CString(s) && a < |s| && s[a] != 0x22 ensures lex.readString(s, a).Failed? {
      NoLiteral(s, a);
    }
  }

  lemma NoLiteral(s: Bytes, a: nat)
    requires a < |s| && s[a] != 0x22
    ensures ParseString(s, a).Failed?
  {
  }

  /** Where a document starts: behind a byte order mark, if there is one. */
  function Start(s: Bytes): nat {
    if |s| > 4 && s[..3] == [0xEF, 0xBB, 0xBF] then 3 else 0
  }

  /** The buffer holds a document with value `v` that ends in front of `off`. */
  ghost predicate Document(s: Bytes, requireEnd: bool, strtod: Strtod, v: Value, off: nat) {
    exists a: nat, b: nat :: Gap(s, Start(s), a) && Is(v, s, a, b, Spelling(strtod)) && Ends(s, requireEnd, b, off)
  }

  /** With the end required, only white space comes between the text and the terminator. */
  predicate Ends(s: Bytes, requireEnd: bool, b: nat, off: nat) {
    if requireEnd then off + 1 == |s| && forall i :: b <= i < off ==> s[i] <= 0x20 else off == b
  }

  lemma {:induction false} SkipsToEnd(s: Bytes, b: nat)
    requires CString(s) && b < |s|
    ensures s[SkipWs(s, b)] == NUL <==> forall i :: b <= i < |s| - 1 ==> s[i] <= 0x20
    ensures s[SkipWs(s, b)] == NUL ==> SkipWs(s, b) == |s| - 1
    decreases |s| - b
  {
    if b + 1 < |s| && s[b] <= 0x20 {
      SkipsToEnd(s, b + 1);
      assert SkipWs(s, b) == SkipWs(s, b + 1);
    }
  }

  lemma StartsThere(s: Bytes)
    requires CString(s)
    ensures SkipBom(s) == Start(s) < |s|
  {
    if |s| > 4 {
      assert s[..3] == [s[0], s[1], s[2]];
    }
  }

  /** A document is accepted exactly if it is one of the grammar and not nested more than 1000 deep; then its value
      is the result. */
  lemma AcceptsExactly(s: Bytes, requireEnd: bool, strtod: Strtod, v: Value, off: nat)
    requires CString(s)
    ensures WellBehaved(CJson(strtod))
    ensures ParseDocument(s, requireEnd, CJson(strtod)) == Parsed(v, off) <==>
            Document(s, requireEnd, strtod, v, off) && Height(v) <= 1000
  {
    hide CString, WellBehaved, Agree, ParseValue, Is, SkipWs, CJson, Spelling, Gap, Ends, SkipBom, Start;
    CJsonIsWellBehaved(strtod);
    var lex, tok := CJson(strtod), Spelling(strtod);
    SourceAgrees(strtod);
    StartsThere(s);
    var a := SkipWs(s, Start(s));
    SkippedIsGap(s, Start(s));
    if ParseDocument(s, requireEnd, lex) == Parsed(v, off) {
      var b := ParseValue(s, a, 0, lex).off;
      ParsesExactly(s, a, 0, lex, tok, v, b);
      FirstByteOf(v, s, a, b, tok);
      EndsThere(s, requireEnd, b, off);
    }
    if Document(s, requireEnd, strtod, v, off) && Height(v) <= 1000 {
      var a': nat, b: nat :| Gap(s, Start(s), a') && Is(v, s, a', b, tok) && Ends(s, requireEnd, b, off);
      GapIsSkipped(s, Start(s), a');
      ParsesExactly(s, a, 0, lex, tok, v, b);
      EndsThere(s, requireEnd, b, off);
    }
  }

  lemma EndsThere(s: Bytes, requireEnd: bool, b: nat, off: nat)
    requires CString(s) && b < |s|
    ensures Ends(s, requireEnd, b, off) <==>
            if requireEnd then s[SkipWs(s, b)] == NUL && SkipWs(s, b) == off else off == b
  {
    SkipsToEnd(s, b);
  }
}
