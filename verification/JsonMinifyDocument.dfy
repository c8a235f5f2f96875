/** `cJSON_Minify` keeps the meaning of every document that `cJSON_ParseWithOpts` accepts up to its
    terminator. */
module JsonMinifyDocument {
  import opened Bytes
  import opened Json
  import opened JsonString
  import opened JsonParse
  import opened JsonGrammar
  import opened JsonMinify
  import opened JsonRoundTrip
  import opened JsonMinifyMeaning
  import opened JsonMinifyKeeps

  /** The bytes of `s` from `p` to `e` stand in `s'` as well, `d` further on. */
  ghost predicate Same(s: Bytes, p: nat, e: nat, s': Bytes, d: int) {
    0 <= p + d && e < |s| && 0 <= e + d < |s'| && forall i :: p <= i <= e ==> s'[i + d] == s[i]
  }

  lemma {:induction false} ScanMoves(s: Bytes, p: nat, e: nat, s': Bytes, d: int)
    requires p <= |s| && ScanString(s, p).Closed? && ScanString(s, p).end == e && Same(s, p, e, s', d)
    ensures p + d <= |s'| && ScanString(s', p + d) == Closed(e + d, ScanString(s, p).skipped)
    decreases |s| - p
  {
    assert s'[p + d] == s[p];
    if s[p] == BACKSLASH {
      ScanMoves(s, p + 2, e, s', d);
    } else if s[p] != QUOTE {
      ScanMoves(s, p + 1, e, s', d);
    }
  }

  lemma TurnMoves(s: Bytes, p: nat, e: nat, s': Bytes, d: int)
    requires Same(s, p, e, s', d)
    ensures SourceTurn(s', p + d, e + d) == SourceTurn(s, p, e)
  {
    hide Hex4, Utf8, Combine;
    if p < e {
      assert s'[p + d] == s[p] && s'[p + 1 + d] == s[p + 1];
      if p + 6 <= e {
        assert s'[p + 2 + d] == s[p + 2] && s'[p + 3 + d] == s[p + 3] && s'[p + 4 + d] == s[p + 4]
            && s'[p + 5 + d] == s[p + 5];
      }
      if p + 12 <= e {
        assert s'[p + 6 + d] == s[p + 6] && s'[p + 7 + d] == s[p + 7] && s'[p + 8 + d] == s[p + 8]
            && s'[p + 9 + d] == s[p + 9];
        assert s'[p + 10 + d] == s[p + 10] && s'[p + 11 + d] == s[p + 11];
      }
    }
  }

  lemma {:induction false} DecodeMoves(s: Bytes, p: nat, e: nat, s': Bytes, d: int)
    requires Same(s, p, e, s', d) && Decode(s, p, e).Decoded?
    ensures Decode(s', p + d, e + d) == Decode(s, p, e)
    decreases e - p
  {
    hide SourceTurn;
    if p < e {
      TurnMoves(s, p, e, s', d);
      DecodeMoves(s, p + SourceTurn(s, p, e).len, e, s', d);
    }
  }

  /** From inside a literal the minifier copies up to and including the closing quote. */
  lemma {:induction false} LiteralImage(s: Bytes, p: nat, e: nat)
    requires CString(s) && p <= |s| && ScanString(s, p).Closed? && ScanString(s, p).end == e
    ensures MinifyString(s[p..]) == Prepend(s[p..e + 1], Minify(s[e + 1..]))
    decreases |s| - p
  {
    hide Minify;
    var t := s[p..];
    assert t[0] == s[p] && t[1..] == s[p + 1..];
    if s[p] == QUOTE {
      assert s[p..e + 1] == [QUOTE];
    } else if s[p] == BACKSLASH {
      assert t[1] == s[p + 1] && t[2..] == s[p + 2..];
      LiteralImage(s, p + 2, e);
      PrependTwice([BACKSLASH, s[p + 1]], s[p + 2..e + 1], Minify(s[e + 1..]));
      assert [BACKSLASH, s[p + 1]] + s[p + 2..e + 1] == s[p..e + 1];
    } else {
      LiteralImage(s, p + 1, e);
      PrependTwice([s[p]], s[p + 1..e + 1], Minify(s[e + 1..]));
      assert [s[p]] + s[p + 1..e + 1] == s[p..e + 1];
    }
  }

  lemma StringImage(s: Bytes, off: nat, e: nat)
    requires CString(s) && off < |s| && s[off] == QUOTE && ScanString(s, off + 1).Closed?
    requires ScanString(s, off + 1).end == e
    ensures Image(s[off..e + 1], s, off, e + 1)
  {
    hide MinifyString, ScanString, LineEnd, BlockEnd;
    LiteralImage(s, off + 1, e);
    assert s[off..][1..] == s[off + 1..] && s[off..][0] == QUOTE;
    PrependTwice([QUOTE], s[off + 1..e + 1], Minify(s[e + 1..]));
    assert [QUOTE] + s[off + 1..e + 1] == s[off..e + 1];
  }

  /** A string reads the same wherever its bytes stand. */
  lemma StringMovesTo(s: Bytes, off: nat, t: Bytes, o: nat, s': Bytes, off': nat, k: Bytes)
    requires CString(s) && off < o <= |s| && ParseString(s, off) == Parsed(t, o) && At(s', off', s[off..o], k)
    ensures ParseString(s', off') == Parsed(t, off' + (o - off))
  {
    hide ScanString, CPrefix, SourceTurn, DecodeWith;
    var d, w := off' - off, s[off..o];
    RestSplit(s', off', w, k);
    assert Same(s, off, o - 1, s', d) by {
      forall i | off <= i <= o - 1 ensures s'[i + d] == s[i] {
        assert s'[off' + (i - off)] == w[i - off];
      }
    }
    assert s'[off + d] == s[off];
    ScanMoves(s, off + 1, o - 1, s', d);
    DecodeMoves(s, off + 1, o - 1, s', d);
  }

  lemma StringRelocates(s: Bytes, off: nat, strtod: Strtod)
    requires CString(s) && off < |s|
    ensures StringToken(s, off, CJson(strtod))
  {
    hide ScanString, DecodeWith, Image;
    StringMoves(s, off);
    var r := ParseString(s, off);
    if r.Parsed? {
      StringImage(s, off, r.off - 1);
      forall s', off': nat, k | At(s', off', s[off..r.off], k)
          ensures CJson(strtod).readString(s', off') == Parsed(r.value, off' + |s[off..r.off]|) {
        StringMovesTo(s, off, r.value, r.off, s', off', k);
      }
    }
  }

  lemma NumberRelocates(s: Bytes, off: nat, strtod: Strtod)
    requires CString(s) && off < |s|
    ensures NumberToken(s, off, CJson(strtod))
  {
    hide NumberRun, Image;
    NumberMoves(s, off, strtod);
    var r := ParseNumber(s, off, strtod);
    if r.Parsed? && StartsNumber(s[off]) && !NumberByte(s[r.off]) {
      var t := s[off..r.off];
      assert NumberRun(s, off, 63) == r.off - off;
      assert t == s[off..off + NumberRun(s, off, 63)] && r.value == t && strtod(t) == |t|;
      ImageSolid(s, off, r.off);
      forall s', off': nat, k | At(s', off', t, k) && !NumberByte(k[0])
          ensures CJson(strtod).readNumber(s', off') == Parsed(t, off' + |t|) {
        NumberRoundTrip(s', off', off' + |t|, t, k, strtod);
      }
    }
  }

  lemma CJsonRelocates(strtod: Strtod)
    ensures Relocates(CJson(strtod))
  {
    hide StringToken, NumberToken;
    CJsonIsWellBehaved(strtod);
    forall s, off: nat | CString(s) && off < |s| ensures StringToken(s, off, CJson(strtod)) {
      StringRelocates(s, off, strtod);
    }
    forall s, off: nat | CString(s) && off < |s| ensures NumberToken(s, off, CJson(strtod)) {
      NumberRelocates(s, off, strtod);
    }
  }

  lemma {:induction false} MinifiedIsNulFree(t: Bytes)
    ensures Minify(t).Minified? ==> NulFree(Minify(t).text)
    decreases |t|, 1
  {
    if t != [] && t[0] != NUL {
      if WhiteSpace(t[0]) {
        MinifiedIsNulFree(t[1..]);
      } else if t[0] == SLASH && |t| > 1 && t[1] == SLASH {
        MinifiedIsNulFree(LineEnd(t[1..]));
      } else if t[0] == SLASH && |t| > 1 && t[1] == STAR {
        MinifiedIsNulFree(BlockEnd(t));
      } else if t[0] == QUOTE {
        LiteralIsNulFree(t[1..]);
      } else {
        MinifiedIsNulFree(t[1..]);
      }
    }
  }

  lemma {:induction false} LiteralIsNulFree(t: Bytes)
    ensures MinifyString(t).Minified? ==> NulFree(MinifyString(t).text)
    decreases |t|, 0
  {
    if t != [] {
      if t[0] == QUOTE {
        MinifiedIsNulFree(t[1..]);
      } else if t[0] != BACKSLASH {
        LiteralIsNulFree(t[1..]);
      } else if |t| > 1 {
        LiteralIsNulFree(t[2..]);
      }
    }
  }

  lemma {:induction false} SkipToEnd(s: Bytes, off: nat, g: Bytes)
    requires Rest(s, off, g + [NUL]) && AllBlank(g)
    ensures off < |s| && SkipWs(s, off) == |s| - 1
    decreases |g|
  {
    if g == [] {
      assert g + [NUL] == [NUL];
      RestFirst(s, off, [NUL]);
    } else {
      assert g + [NUL] == [g[0]] + (g[1..] + [NUL]);
      RestCons(s, off, g[0], g[1..] + [NUL]);
      SkipToEnd(s, off + 1, g[1..]);
    }
  }

  /** The byte order mark of `s`, if it has one. */
  function Mark(s: Bytes): Bytes
    requires CString(s)
  {
    s[..SkipBom(s)]
  }

  /** The minified text of an accepted document: byte order mark, white space, value, white space. */
  lemma DocumentImage(s: Bytes, lex: Lexer) returns (g: Bytes, w: Bytes, g': Bytes)
    requires CString(s) && Relocates(lex) && ParseDocument(s, true, lex).Parsed?
    ensures AllBlank(g) && AllBlank(g') && w != [] && 0x20 < w[0] < 0x80
    ensures ReadsValue(w, ParseDocument(s, true, lex).value, 0, lex)
    ensures Minify(s) == Minified(Mark(s) + (g + (w + g')))
  {
    hide ParseValue, SkipWs, WellBehaved, Image, ReadsValue, StringToken, NumberToken, AllBlank;
    var b := SkipBom(s);
    var p := SkipWs(s, b);
    var o := ParseValue(s, p, 0, lex).off;
    var end := SkipWs(s, o);
    ValueStarts(s, p, 0, lex);
    Delimited(s, o);
    w := ValueKeeps(s, p, 0, lex);
    g' := ImageOfGap(s, o);
    ImageThen(w, g', s, p, o, end);
    g := GapImage(s, b, w + g', end);
    ImageSolid(s, 0, b);
    ImageThen(Mark(s), g + (w + g'), s, 0, b, end);
    ImageOfAll(Mark(s) + (g + (w + g')), s, end);
  }

  lemma ImageOfAll(w: Bytes, s: Bytes, end: nat)
    requires CString(s) && end < |s| && s[end] == NUL && Image(w, s, 0, end)
    ensures Minify(s) == Minified(w)
  {
    assert s[0..] == s && s[end..] == [NUL];
    assert w + [] == w;
  }

  /** Minifying keeps the meaning of every accepted document. */
  lemma MinifyKeepsMeaning(s: Bytes, strtod: Strtod)
    requires CString(s) && WellBehaved(CJson(strtod)) && ParseDocument(s, true, CJson(strtod)).Parsed?
    ensures Minify(s).Minified? && CString(Minify(s).text + [NUL])
    ensures ParseDocument(Minify(s).text + [NUL], true, CJson(strtod)) ==
            Parsed(ParseDocument(s, true, CJson(strtod)).value, |Minify(s).text|)
  {
    hide CJson, ParseValue, SkipWs, WellBehaved, Minify, ReadsValue, AllBlank, Relocates;
    CJsonRelocates(strtod);
    var lex, v := CJson(strtod), ParseDocument(s, true, CJson(strtod)).value;
    var g, w, g' := DocumentImage(s, lex);
    MinifiedIsNulFree(s);
    var m := Mark(s) + (g + (w + g'));
    assert CString(m + [NUL]);
    DocumentReads(m + [NUL], Mark(s), g, w, g', v, lex);
  }

  lemma DocumentParts(s: Bytes, mark: Bytes, g: Bytes, w: Bytes, g': Bytes)
    requires mark == [] || mark == [0xEF, 0xBB, 0xBF]
    requires AllBlank(g) && w != [] && 0x20 < w[0] < 0x80 && s == mark + (g + (w + g')) + [NUL] && CString(s)
    ensures SkipBom(s) == |mark| && Rest(s, |mark|, g + (w + (g' + [NUL])))
  {
    if mark == [] {
      assert s[0] == if g == [] then w[0] else g[0];
    }
    assert s[|mark|..] == g + (w + (g' + [NUL]));
  }

  lemma DocumentReads(s: Bytes, mark: Bytes, g: Bytes, w: Bytes, g': Bytes, v: Value, lex: Lexer)
    requires mark == [] || mark == [0xEF, 0xBB, 0xBF]
    requires AllBlank(g) && AllBlank(g') && w != [] && 0x20 < w[0] < 0x80 && WellBehaved(lex)
    requires ReadsValue(w, v, 0, lex)
    requires s == mark + (g + (w + g')) + [NUL] && CString(s)
    ensures ParseDocument(s, true, lex) == Parsed(v, |s| - 1)
  {
    hide ParseValue, SkipWs, WellBehaved, SkipBom, AllBlank, Rest;
    DocumentParts(s, mark, g, w, g');
    ReadsFrom(s, |mark|, g, w, g', v, lex);
  }

  lemma ReadsFrom(s: Bytes, b: nat, g: Bytes, w: Bytes, g': Bytes, v: Value, lex: Lexer)
    requires AllBlank(g) && AllBlank(g') && w != [] && w[0] > 0x20 && WellBehaved(lex) && ReadsValue(w, v, 0, lex)
    requires CString(s) && Rest(s, b, g + (w + (g' + [NUL])))
    ensures var p := b + |g|;
            && b < |s| && SkipWs(s, b) == p && ParseValue(s, p, 0, lex) == Parsed(v, p + |w|)
            && SkipWs(s, p + |w|) == |s| - 1
  {
    hide ParseValue, SkipWs, WellBehaved, CString;
    BlankIsGap(s, b, g, w + (g' + [NUL]));
    GapIsSkipped(s, b, b + |g|);
    var p := b + |g|;
    var k := g' + [NUL];
    assert k[0] <= 0x20;
    assert At(s, p, w, k);
    RestSplit(s, p, w, k);
    SkipToEnd(s, p + |w|, g');
  }

  /** Without the check for the terminator, trailing text can be drawn into the document: "1 2" is the
      number 1, its minified text "12" is another. */
  lemma TrailingTextCanChangeMeaning(strtod: Strtod)
    requires strtod([0x31]) == 1 && strtod([0x31, 0x32]) == 2
    ensures WellBehaved(CJson(strtod))
    ensures var s := [0x31, SPACE, 0x32, NUL];
            && ParseDocument(s, false, CJson(strtod)) == Parsed(Number([0x31]), 1)
            && Minify(s) == Minified([0x31, 0x32])
            && ParseDocument([0x31, 0x32, NUL], false, CJson(strtod)) == Parsed(Number([0x31, 0x32]), 2)
  {
    CJsonIsWellBehaved(strtod);
    var s, s' := [0x31, SPACE, 0x32, NUL], [0x31, 0x32, NUL];
    NumberRoundTrip(s, 0, 1, [0x31], [SPACE, 0x32, NUL], strtod);
    NumberRoundTrip(s', 0, 2, [0x31, 0x32], [NUL], strtod);
    assert SkipWs(s, 0) == 0 && SkipWs(s', 0) == 0;
    CopyOne(0x32, [NUL]);
    BlanksVanish([SPACE], [0x32] + [NUL]);
    CopyOne(0x31, [SPACE] + ([0x32] + [NUL]));
    assert s == [0x31] + ([SPACE] + ([0x32] + [NUL])) && Minify([NUL]) == Minified([]);
  }
}
