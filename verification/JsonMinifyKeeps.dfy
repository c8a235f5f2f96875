/** Every value of an accepted document has a minified image that reads the same. */
module JsonMinifyKeeps {
  import opened Bytes
  import opened Json
  import opened JsonParse
  import opened JsonMinify
  import opened JsonRoundTrip
  import opened JsonMinifyMeaning

  /** `w` is the image of the value at `off` and reads as that value. */
  ghost predicate Keeps(w: Bytes, s: Bytes, off: nat, depth: nat, lex: Lexer)
    requires CString(s) && off < |s| && WellBehaved(lex)
  {
    var r := ParseValue(s, off, depth, lex);
    r.Parsed? && w != [] && w[0] == s[off] && Image(w, s, off, r.off) && ReadsValue(w, r.value, depth, lex)
  }

  ghost predicate KeepsItems(w: Bytes, s: Bytes, off: nat, depth: nat, lex: Lexer)
    requires CString(s) && off < |s| && WellBehaved(lex)
  {
    var r := ParseItems(s, off, depth, lex);
    r.Parsed? && w != [] && (s[off] > 0x20 ==> w[0] == s[off]) && Image(w, s, off, r.off)
        && ReadsItems(w, r.value, depth, lex)
  }

  ghost predicate KeepsMembers(w: Bytes, s: Bytes, off: nat, depth: nat, lex: Lexer)
    requires CString(s) && off < |s| && WellBehaved(lex)
  {
    var r := ParseMembers(s, off, depth, lex);
    r.Parsed? && w != [] && (s[off] > 0x20 ==> w[0] == s[off]) && Image(w, s, off, r.off)
        && ReadsMembers(w, r.value, depth, lex)
  }

  /** A value starts with a printable ASCII byte. */
  lemma ValueStarts(s: Bytes, off: nat, depth: nat, lex: Lexer)
    requires CString(s) && off < |s| && WellBehaved(lex) && ParseValue(s, off, depth, lex).Parsed?
    ensures 0x20 < s[off] < 0x80
  {
    hide ParseItems, ParseMembers, SkipWs, WellBehaved, CString;
  }

  lemma Delimited(s: Bytes, o: nat)
    requires o < |s| && (s[SkipWs(s, o)] <= 0x20 || s[SkipWs(s, o)] in {COMMA, CLOSE_BRACKET, CLOSE_BRACE})
    ensures !NumberByte(s[o])
  {
  }

  /** The image of white space, and of something behind it. */
  lemma GapImage(s: Bytes, a: nat, w: Bytes, b: nat) returns (g: Bytes)
    requires CString(s) && a < |s| && Image(w, s, SkipWs(s, a), b)
    ensures AllBlank(g) && Image(g + w, s, a, b)
    ensures s[a] > 0x20 ==> g == []
  {
    hide Image, AllBlank, CString, Minify;
    if s[a] > 0x20 {
      g := [];
      assert [] + w == w;
      SkipNone(s, a);
      BlankNothing();
    } else {
      g := ImageOfGap(s, a);
      ImageThen(g, w, s, a, SkipWs(s, a), b);
    }
  }

  lemma BlankNothing()
    ensures AllBlank([])
  {
  }

  lemma {:induction false} ValueKeeps(s: Bytes, off: nat, depth: nat, lex: Lexer) returns (w: Bytes)
    requires CString(s) && off < |s| && Relocates(lex)
    requires ParseValue(s, off, depth, lex).Parsed? && !NumberByte(s[ParseValue(s, off, depth, lex).off])
    ensures Keeps(w, s, off, depth, lex)
    decreases |s| - off, 1
  {
    hide ParseItems, ParseMembers, SkipWs, WellBehaved, CString, Image, ReadsValue, ReadsString, ReadsNumberText;
    var o := ParseValue(s, off, depth, lex).off;
    assert StringToken(s, off, lex) && NumberToken(s, off, lex);
    w := s[off..o];
    if NullAt(s, off) || FalseAt(s, off) || TrueAt(s, off) {
      KeywordKeeps(s, off, depth, lex);
    } else if s[off] == QUOTE {
      StringReads(w, lex.readString(s, off).value, depth, lex);
    } else if StartsNumber(s[off]) {
      NumberReads(w, lex.readNumber(s, off).value, depth, lex);
    } else if s[off] == OPEN_BRACKET {
      w := ArrayKeeps(s, off, depth, lex);
    } else {
      w := ObjectKeeps(s, off, depth, lex);
    }
  }

  lemma KeywordKeeps(s: Bytes, off: nat, depth: nat, lex: Lexer)
    requires CString(s) && off < |s| && WellBehaved(lex) && (NullAt(s, off) || FalseAt(s, off) || TrueAt(s, off))
    ensures Keeps(s[off..ParseValue(s, off, depth, lex).off], s, off, depth, lex)
  {
    hide ParseItems, ParseMembers, SkipWs, WellBehaved, Image, ReadsValue;
    var r := ParseValue(s, off, depth, lex);
    var w := s[off..r.off];
    assert w == if NullAt(s, off) then NULL_TEXT else if FalseAt(s, off) then FALSE_TEXT else TRUE_TEXT;
    KeywordReads(w, r.value, depth, lex);
    ImageSolid(s, off, r.off);
  }

  lemma {:induction false} ArrayKeeps(s: Bytes, off: nat, depth: nat, lex: Lexer) returns (w: Bytes)
    requires CString(s) && off < |s| && Relocates(lex) && s[off] == OPEN_BRACKET
    requires ParseValue(s, off, depth, lex).Parsed?
    ensures Keeps(w, s, off, depth, lex)
    decreases |s| - off, 0
  {
    hide ParseItems, ParseMembers, SkipWs, WellBehaved, CString, Image, ReadsValue, ReadsItems, AllBlank;
    NotLast(s, off);
    var first := SkipWs(s, off + 1);
    var items, o := ParseValue(s, off, depth, lex).value.items, ParseValue(s, off, depth, lex).off;
    var body := [CLOSE_BRACKET];
    if s[first] == CLOSE_BRACKET {
      ImageOne(s, first);
    } else {
      body := ItemsKeep(s, first, depth + 1, lex);
      ItemsStart(s, first, depth + 1, lex);
    }
    var g := GapImage(s, off + 1, body, o);
    ImageOne(s, off);
    ImageThen([OPEN_BRACKET], g + body, s, off, off + 1, o);
    ArrayReads(g, body, items, depth, lex);
    w := [OPEN_BRACKET] + (g + body);
  }

  /** Where a list of elements starts without white space, its first element does. */
  lemma ItemsStart(s: Bytes, first: nat, depth: nat, lex: Lexer)
    requires CString(s) && first < |s| && WellBehaved(lex) && ParseItems(s, first, depth, lex).Parsed?
    requires s[first] <= 0x20 ==> first == |s| - 1
    ensures s[first] > 0x20 && ParseItems(s, first, depth, lex).value.Item?
  {
    hide ParseValue, WellBehaved, CString;
    ValueStarts(s, SkipWs(s, first), depth, lex);
  }

  lemma {:induction false} ItemsKeep(s: Bytes, off: nat, depth: nat, lex: Lexer) returns (w: Bytes)
    requires CString(s) && off < |s| && Relocates(lex) && ParseItems(s, off, depth, lex).Parsed?
    ensures KeepsItems(w, s, off, depth, lex)
    decreases |s| - off, 2
  {
    hide ParseValue, SkipWs, WellBehaved, CString, Image, ReadsValue, ReadsItems, AllBlank, StringToken, NumberToken;
    var p := SkipWs(s, off);
    var v, o := ParseValue(s, p, depth, lex).value, ParseValue(s, p, depth, lex).off;
    var next, end := SkipWs(s, o), ParseItems(s, off, depth, lex).off;
    ValueStarts(s, p, depth, lex);
    Delimited(s, o);
    var wv := ValueKeeps(s, p, depth, lex);
    ImageOne(s, next);
    if s[next] == CLOSE_BRACKET {
      var g' := GapImage(s, o, [CLOSE_BRACKET], end);
      ImageThen(wv, g' + [CLOSE_BRACKET], s, p, o, end);
      var g := GapImage(s, off, wv + (g' + [CLOSE_BRACKET]), end);
      LastItemReads(g, wv, g', v, depth, lex);
      w := g + (wv + (g' + [CLOSE_BRACKET]));
      StartKept(s, off, g, wv);
    } else {
      var more := ItemsKeep(s, next + 1, depth, lex);
      ImageThen([COMMA], more, s, next, next + 1, end);
      var g' := GapImage(s, o, [COMMA] + more, end);
      ImageThen(wv, g' + ([COMMA] + more), s, p, o, end);
      var g := GapImage(s, off, wv + (g' + ([COMMA] + more)), end);
      MoreItemsRead(g, wv, g', v, more, ParseItems(s, next + 1, depth, lex).value, depth, lex);
      w := g + (wv + (g' + ([COMMA] + more)));
      StartKept(s, off, g, wv);
    }
  }

  lemma StartKept(s: Bytes, off: nat, g: Bytes, w: Bytes)
    requires off < |s| && w != [] && w[0] == s[SkipWs(s, off)] && (s[off] > 0x20 ==> g == [])
    ensures g + w != [] && (s[off] > 0x20 ==> (g + w)[0] == s[off])
  {
  }

  lemma {:induction false} ObjectKeeps(s: Bytes, off: nat, depth: nat, lex: Lexer) returns (w: Bytes)
    requires CString(s) && off < |s| && Relocates(lex) && s[off] == OPEN_BRACE && ParseValue(s, off, depth, lex).Parsed?
    ensures Keeps(w, s, off, depth, lex)
    decreases |s| - off, 0
  {
    hide ParseItems, ParseMembers, SkipWs, WellBehaved, CString, Image, ReadsValue, ReadsMembers, AllBlank;
    NotLast(s, off);
    var first := SkipWs(s, off + 1);
    var members, o := ParseValue(s, off, depth, lex).value.members, ParseValue(s, off, depth, lex).off;
    var body := [CLOSE_BRACE];
    if s[first] == CLOSE_BRACE {
      ImageOne(s, first);
    } else {
      body := MembersKeep(s, first, depth + 1, lex);
      MembersStart(s, first, depth + 1, lex);
    }
    var g := GapImage(s, off + 1, body, o);
    ImageOne(s, off);
    ImageThen([OPEN_BRACE], g + body, s, off, off + 1, o);
    ObjectReads(g, body, members, depth, lex);
    w := [OPEN_BRACE] + (g + body);
  }

  lemma MembersStart(s: Bytes, first: nat, depth: nat, lex: Lexer)
    requires CString(s) && first < |s| && Relocates(lex) && ParseMembers(s, first, depth, lex).Parsed?
    requires s[first] <= 0x20 ==> first == |s| - 1
    ensures s[first] > 0x20 && ParseMembers(s, first, depth, lex).value.Member?
  {
    hide ParseValue, WellBehaved, CString, Image, ReadsString;
    assert StringToken(s, SkipWs(s, first), lex);
  }

  /** The image of a member, given the image of what ends it. */
  lemma MemberImages(s: Bytes, off: nat, depth: nat, lex: Lexer, end: Bytes, b: nat, keyEnd: nat, colon: nat,
                     value: nat, o: nat, key: Bytes, v: Value)
    returns (g: Bytes, q: Bytes, g': Bytes, h: Bytes, w: Bytes, h': Bytes)
    requires CString(s) && off < |s| && Relocates(lex) && lex.readString(s, SkipWs(s, off)) == Parsed(key, keyEnd)
    requires keyEnd < |s|
    requires SkipWs(s, keyEnd) == colon && s[colon] == COLON && colon + 1 < |s| && SkipWs(s, colon + 1) == value
    requires off < value
    requires ParseValue(s, value, depth, lex) == Parsed(v, o) && !NumberByte(s[o]) && Image(end, s, SkipWs(s, o), b)
    ensures MemberParts(g, q, g', key, h, w, h', v, depth, lex)
    ensures Image(MemberImage(g, q, g', h, w, h', end), s, off, b)
    ensures s[off] > 0x20 ==> MemberImage(g, q, g', h, w, h', end)[0] == s[off]
    decreases |s| - off, 2
  {
    hide ParseValue, SkipWs, WellBehaved, CString, Image, ReadsValue, ReadsString, AllBlank, NumberToken;
    var p := SkipWs(s, off);
    assert StringToken(s, p, lex);
    q := s[p..keyEnd];
    ValueStarts(s, value, depth, lex);
    w := ValueKeeps(s, value, depth, lex);
    h' := GapImage(s, o, end, b);
    ImageThen(w, h' + end, s, value, o, b);
    h := GapImage(s, colon + 1, w + (h' + end), b);
    var rest := h + (w + (h' + end));
    ImageOne(s, colon);
    ImageThen([COLON], rest, s, colon, colon + 1, b);
    g' := GapImage(s, keyEnd, [COLON] + rest, b);
    ImageThen(q, g' + ([COLON] + rest), s, p, keyEnd, b);
    g := GapImage(s, off, q + (g' + ([COLON] + rest)), b);
    StartKept(s, off, g, q + (g' + ([COLON] + rest)));
  }

  lemma {:induction false} MembersKeep(s: Bytes, off: nat, depth: nat, lex: Lexer) returns (w: Bytes)
    requires CString(s) && off < |s| && Relocates(lex) && ParseMembers(s, off, depth, lex).Parsed?
    ensures KeepsMembers(w, s, off, depth, lex)
    decreases |s| - off, 3
  {
    hide ParseValue, SkipWs, CString, Image, ReadsValue, ReadsMembers, AllBlank, StringToken, NumberToken, MemberParts;
    var key, keyEnd := lex.readString(s, SkipWs(s, off)).value, lex.readString(s, SkipWs(s, off)).off;
    var colon := SkipWs(s, keyEnd);
    NotLast(s, colon);
    var value := SkipWs(s, colon + 1);
    var v, o := ParseValue(s, value, depth, lex).value, ParseValue(s, value, depth, lex).off;
    var next, end := SkipWs(s, o), ParseMembers(s, off, depth, lex).off;
    Delimited(s, o);
    ImageOne(s, next);
    if s[next] == CLOSE_BRACE {
      var g, q, g', h, wv, h' := MemberImages(s, off, depth, lex, [CLOSE_BRACE], end, keyEnd, colon, value, o, key, v);
      LastMemberReads(g, q, g', key, h, wv, h', v, depth, lex);
      w := MemberImage(g, q, g', h, wv, h', [CLOSE_BRACE]);
    } else {
      var more := MembersKeep(s, next + 1, depth, lex);
      ImageThen([COMMA], more, s, next, next + 1, end);
      var g, q, g', h, wv, h' := MemberImages(s, off, depth, lex, [COMMA] + more, end, keyEnd, colon, value, o, key, v);
      MoreMembersRead(g, q, g', key, h, wv, h', v, more, ParseMembers(s, next + 1, depth, lex).value, depth, lex);
      w := MemberImage(g, q, g', h, wv, h', [COMMA] + more);
    }
  }
}
