/** Minifying keeps the meaning of every document the parser accepts. */
module JsonMinifyMeaning {
  import opened Bytes
  import opened Json
  import opened JsonParse
  import opened JsonGrammar
  import opened JsonMinify
  import opened JsonRoundTrip

  /** The minifier turns the bytes of `s` from `a` to `b` into `w`. */
  ghost predicate Image(w: Bytes, s: Bytes, a: nat, b: nat) {
    a <= b <= |s| && Minify(s[a..]) == Prepend(w, Minify(s[b..]))
  }

  lemma ImageThen(w: Bytes, w': Bytes, s: Bytes, a: nat, b: nat, c: nat)
    requires Image(w, s, a, b) && Image(w', s, b, c)
    ensures Image(w + w', s, a, c)
  {
    PrependTwice(w, w', Minify(s[c..]));
  }

  lemma ImageSolid(s: Bytes, a: nat, b: nat)
    requires a <= b <= |s| && forall i :: a <= i < b ==> Solid(s[i])
    ensures Image(s[a..b], s, a, b)
  {
    assert s[a..] == s[a..b] + s[b..];
    SolidIsCopied(s[a..b], s[b..]);
  }

  lemma ImageOne(s: Bytes, a: nat)
    requires a < |s| && Solid(s[a])
    ensures Image([s[a]], s, a, a + 1)
  {
    ImageSolid(s, a, a + 1);
    assert s[a..a + 1] == [s[a]];
  }

  /** What the parser skips comes out as something it skips. */
  lemma {:induction false} ImageOfGap(s: Bytes, a: nat) returns (g: Bytes)
    requires CString(s) && a < |s|
    ensures Image(g, s, a, SkipWs(s, a)) && AllBlank(g)
    decreases |s| - a
  {
    hide Minify;
    PrependNothing(Minify(s[a..]));
    if s[a] > 0x20 || a + 1 == |s| {
      g := [];
    } else {
      var rest := ImageOfGap(s, a + 1);
      GapStep(s, a);
      if WhiteSpace(s[a]) {
        g := rest;
      } else {
        ImageOne(s, a);
        g := [s[a]] + rest;
        ImageThen([s[a]], rest, s, a, a + 1, SkipWs(s, a + 1));
      }
    }
  }

  lemma GapStep(s: Bytes, a: nat)
    requires a + 1 < |s| && s[a] != NUL
    ensures WhiteSpace(s[a]) ==> Minify(s[a..]) == Minify(s[a + 1..])
  {
    assert s[a..][1..] == s[a + 1..] && s[a..][0] == s[a];
  }

  /** `w`, with `k` behind it, stands at `off` of a C string. */
  ghost predicate At(s: Bytes, off: nat, w: Bytes, k: Bytes) {
    CString(s) && off < |s| && w != [] && k != [] && Rest(s, off, w + k)
  }

  /** Wherever `w` stands it is read as the string `t`. */
  ghost predicate ReadsString(w: Bytes, t: Bytes, lex: Lexer) {
    forall s, off: nat, k :: At(s, off, w, k) ==> lex.readString(s, off) == Parsed(t, off + |w|)
  }

  ghost predicate ReadsNumberText(w: Bytes, t: Bytes, lex: Lexer) {
    forall s, off: nat, k :: At(s, off, w, k) && !NumberByte(k[0]) ==> lex.readNumber(s, off) == Parsed(t, off + |w|)
  }

  /** Wherever `w` stands, with no number byte behind it, it is read as the value `v`. */
  ghost predicate ReadsValue(w: Bytes, v: Value, depth: nat, lex: Lexer)
    requires WellBehaved(lex)
  {
    forall s, off: nat, k :: At(s, off, w, k) && !NumberByte(k[0]) ==>
        ParseValue(s, off, depth, lex) == Parsed(v, off + |w|)
  }

  ghost predicate ReadsItems(w: Bytes, items: Items, depth: nat, lex: Lexer)
    requires WellBehaved(lex)
  {
    forall s, off: nat, k :: At(s, off, w, k) ==> ParseItems(s, off, depth, lex) == Parsed(items, off + |w|)
  }

  ghost predicate ReadsMembers(w: Bytes, members: Members, depth: nat, lex: Lexer)
    requires WellBehaved(lex)
  {
    forall s, off: nat, k :: At(s, off, w, k) ==> ParseMembers(s, off, depth, lex) == Parsed(members, off + |w|)
  }

  predicate StartsNumber(c: byte) {
    c == 0x2D || 0x30 <= c <= 0x39
  }

  /** A string read at `off` is copied whole, and reads the same wherever it stands. */
  ghost predicate StringToken(s: Bytes, off: nat, lex: Lexer)
    requires off < |s|
  {
    var r := lex.readString(s, off);
    r.Parsed? ==>
      off < r.off < |s| && s[off] == QUOTE && Image(s[off..r.off], s, off, r.off)
          && ReadsString(s[off..r.off], r.value, lex)
  }

  ghost predicate NumberToken(s: Bytes, off: nat, lex: Lexer)
    requires off < |s|
  {
    var r := lex.readNumber(s, off);
    r.Parsed? && StartsNumber(s[off]) ==>
      off < r.off < |s| && (!NumberByte(s[r.off]) ==>
          Image(s[off..r.off], s, off, r.off) && ReadsNumberText(s[off..r.off], r.value, lex))
  }

  ghost predicate Relocates(lex: Lexer) {
    && WellBehaved(lex)
    && (forall s, off: nat :: CString(s) && off < |s| ==> StringToken(s, off, lex))
    && (forall s, off: nat :: CString(s) && off < |s| ==> NumberToken(s, off, lex))
  }

  lemma AtSplit(s: Bytes, off: nat, a: Bytes, b: Bytes, k: Bytes)
    requires At(s, off, a + b, k) && a != [] && b != []
    ensures At(s, off, a, b + k) && At(s, off + |a|, b, k)
  {
    assert (a + b) + k == a + (b + k);
    RestSplit(s, off, a, b + k);
  }

  /** White space in front of a token, wherever it stands. */
  lemma GapAt(s: Bytes, off: nat, g: Bytes, w: Bytes, k: Bytes)
    requires At(s, off, g + w, k) && AllBlank(g) && w != [] && w[0] > 0x20
    ensures SkipWs(s, off) == off + |g| && At(s, off + |g|, w, k) && s[off + |g|] == w[0]
  {
    assert (g + w) + k == g + (w + k);
    BlankIsGap(s, off, g, w + k);
    GapIsSkipped(s, off, off + |g|);
    RestFirst(s, off + |g|, w + k);
  }

  lemma OneAt(s: Bytes, off: nat, c: byte, w: Bytes, k: Bytes)
    requires At(s, off, [c] + w, k) && w != []
    ensures s[off] == c && off + 1 < |s| && At(s, off + 1, w, k)
  {
    AtSplit(s, off, [c], w, k);
    RestFirst(s, off, [c] + (w + k));
  }

  /** A text that ends a child: a bracket, a brace, or a comma and more. */
  predicate Ending(w: Bytes) {
    w != [] && w[0] > 0x20 && !NumberByte(w[0])
  }

  /** A value between white space, wherever it stands. */
  lemma ValueAt(s: Bytes, off: nat, g: Bytes, w: Bytes, g': Bytes, end: Bytes, k: Bytes, v: Value, depth: nat,
                lex: Lexer) returns (p: nat, o: nat, next: nat)
    requires WellBehaved(lex) && AllBlank(g) && AllBlank(g') && w != [] && w[0] > 0x20 && Ending(end)
    requires ReadsValue(w, v, depth, lex) && At(s, off, g + (w + (g' + end)), k)
    ensures p < |s| && SkipWs(s, off) == p && ParseValue(s, p, depth, lex) == Parsed(v, o) && SkipWs(s, o) == next
    ensures At(s, next, end, k)
    ensures s[next] == end[0] && next + |end| == off + |g + (w + (g' + end))|
  {
    hide ParseValue, SkipWs, CString, WellBehaved, Rest;
    p, o, next := off + |g|, off + |g| + |w|, off + |g| + |w| + |g'|;
    GapAt(s, off, g, w + (g' + end), k);
    AtSplit(s, p, w, g' + end, k);
    NotNumber(g', end, k);
    GapAt(s, o, g', end, k);
  }

  lemma NotNumber(g: Bytes, end: Bytes, k: Bytes)
    requires AllBlank(g) && Ending(end)
    ensures !NumberByte((g + end + k)[0])
  {
    if g != [] {
      assert (g + end + k)[0] == g[0];
    } else {
      assert (g + end + k)[0] == end[0];
    }
  }

  lemma LastItemReads(g: Bytes, w: Bytes, g': Bytes, v: Value, depth: nat, lex: Lexer)
    requires WellBehaved(lex) && AllBlank(g) && AllBlank(g') && w != [] && w[0] > 0x20 && ReadsValue(w, v, depth, lex)
    ensures ReadsItems(g + (w + (g' + [CLOSE_BRACKET])), Item(v, NoItem), depth, lex)
  {
    hide ParseValue, ParseItems, SkipWs, CString, WellBehaved, AllBlank, ReadsValue, Rest;
    var all := g + (w + (g' + [CLOSE_BRACKET]));
    forall s, off: nat, k | At(s, off, all, k)
        ensures ParseItems(s, off, depth, lex) == Parsed(Item(v, NoItem), off + |all|) {
      var p, o, next := ValueAt(s, off, g, w, g', [CLOSE_BRACKET], k, v, depth, lex);
      AtFacts(s, off, all, k);
      ItemsStep(s, off, p, depth, lex, o, next, Item(v, NoItem), next + 1);
    }
  }

  lemma AtFacts(s: Bytes, off: nat, w: Bytes, k: Bytes)
    requires At(s, off, w, k)
    ensures CString(s) && off + |w| < |s| && off + |w| + |k| == |s|
  {
  }

  lemma MoreItemsRead(g: Bytes, w: Bytes, g': Bytes, v: Value, w': Bytes, items: Items, depth: nat, lex: Lexer)
    requires WellBehaved(lex) && AllBlank(g) && AllBlank(g') && w != [] && w[0] > 0x20 && ReadsValue(w, v, depth, lex)
    requires w' != [] && ReadsItems(w', items, depth, lex)
    ensures ReadsItems(g + (w + (g' + ([COMMA] + w'))), Item(v, items), depth, lex)
  {
    hide ParseValue, ParseItems, SkipWs, CString, WellBehaved, AllBlank, ReadsValue, Rest;
    var end := [COMMA] + w';
    var all := g + (w + (g' + end));
    forall s, off: nat, k | At(s, off, all, k)
        ensures ParseItems(s, off, depth, lex) == Parsed(Item(v, items), off + |all|) {
      var p, o, next := ValueAt(s, off, g, w, g', end, k, v, depth, lex);
      AtFacts(s, off, all, k);
      OneAt(s, next, COMMA, w', k);
      ItemsStep(s, off, p, depth, lex, o, next, Item(v, items), next + 1 + |w'|);
    }
  }

  lemma ArrayReads(g: Bytes, w: Bytes, items: Items, depth: nat, lex: Lexer)
    requires WellBehaved(lex) && AllBlank(g) && depth < NESTING_LIMIT && w != [] && w[0] > 0x20
    requires if items.NoItem? then w == [CLOSE_BRACKET]
             else w[0] != CLOSE_BRACKET && ReadsItems(w, items, depth + 1, lex)
    ensures ReadsValue([OPEN_BRACKET] + (g + w), Array(items), depth, lex)
  {
    hide ParseValue, ParseItems, SkipWs, CString, WellBehaved, AllBlank, Rest;
    var all := [OPEN_BRACKET] + (g + w);
    forall s, off: nat, k | At(s, off, all, k) && !NumberByte(k[0])
        ensures ParseValue(s, off, depth, lex) == Parsed(Array(items), off + |all|) {
      AtFacts(s, off, all, k);
      OneAt(s, off, OPEN_BRACKET, g + w, k);
      GapAt(s, off + 1, g, w, k);
      ArrayStep(s, off, depth, lex, off + 1 + |g|, items, off + |all|);
    }
  }

  /** A key and its colon between white space, wherever they stand. */
  lemma KeyAt(s: Bytes, off: nat, g: Bytes, q: Bytes, g': Bytes, rest: Bytes, k: Bytes, key: Bytes, lex: Lexer)
    returns (p: nat, keyEnd: nat, colon: nat)
    requires AllBlank(g) && AllBlank(g') && q != [] && q[0] == QUOTE && rest != []
    requires ReadsString(q, key, lex) && At(s, off, g + (q + (g' + ([COLON] + rest))), k)
    ensures SkipWs(s, off) == p && lex.readString(s, p) == Parsed(key, keyEnd) && keyEnd < |s|
    ensures SkipWs(s, keyEnd) == colon
    ensures s[colon] == COLON && At(s, colon + 1, rest, k)
    ensures colon + 1 + |rest| == off + |g + (q + (g' + ([COLON] + rest)))|
  {
    hide SkipWs, CString, Rest;
    p, keyEnd, colon := off + |g|, off + |g| + |q|, off + |g| + |q| + |g'|;
    GapAt(s, off, g, q + (g' + ([COLON] + rest)), k);
    AtSplit(s, p, q, g' + ([COLON] + rest), k);
    GapAt(s, keyEnd, g', [COLON] + rest, k);
    OneAt(s, colon, COLON, rest, k);
  }

  /** The text of a member up to what ends it. */
  function MemberImage(g: Bytes, q: Bytes, g': Bytes, h: Bytes, w: Bytes, h': Bytes, end: Bytes): Bytes {
    g + (q + (g' + ([COLON] + (h + (w + (h' + end))))))
  }

  ghost predicate MemberParts(g: Bytes, q: Bytes, g': Bytes, key: Bytes, h: Bytes, w: Bytes, h': Bytes, v: Value,
                              depth: nat, lex: Lexer)
    requires WellBehaved(lex)
  {
    && AllBlank(g) && AllBlank(g') && AllBlank(h) && AllBlank(h') && q != [] && q[0] == QUOTE && w != [] && w[0] > 0x20
    && ReadsString(q, key, lex) && ReadsValue(w, v, depth, lex)
  }

  lemma LastMemberReads(g: Bytes, q: Bytes, g': Bytes, key: Bytes, h: Bytes, w: Bytes, h': Bytes, v: Value, depth: nat,
                        lex: Lexer)
    requires WellBehaved(lex) && MemberParts(g, q, g', key, h, w, h', v, depth, lex)
    ensures ReadsMembers(MemberImage(g, q, g', h, w, h', [CLOSE_BRACE]), Member(key, v, NoMember), depth, lex)
  {
    hide ParseValue, ParseMembers, SkipWs, CString, WellBehaved, AllBlank, ReadsValue, ReadsString, Rest;
    var end := [CLOSE_BRACE];
    var all := MemberImage(g, q, g', h, w, h', end);
    forall s, off: nat, k | At(s, off, all, k)
        ensures ParseMembers(s, off, depth, lex) == Parsed(Member(key, v, NoMember), off + |all|) {
      AtFacts(s, off, all, k);
      var p, keyEnd, colon := KeyAt(s, off, g, q, g', h + (w + (h' + end)), k, key, lex);
      var value, o, next := ValueAt(s, colon + 1, h, w, h', end, k, v, depth, lex);
      MembersStep(s, off, p, depth, lex, keyEnd, colon, value, o, next, Member(key, v, NoMember), next + 1);
    }
  }

  lemma MoreMembersRead(g: Bytes, q: Bytes, g': Bytes, key: Bytes, h: Bytes, w: Bytes, h': Bytes, v: Value, w': Bytes,
                        members: Members, depth: nat, lex: Lexer)
    requires WellBehaved(lex) && MemberParts(g, q, g', key, h, w, h', v, depth, lex) && w' != []
    requires ReadsMembers(w', members, depth, lex)
    ensures ReadsMembers(MemberImage(g, q, g', h, w, h', [COMMA] + w'), Member(key, v, members), depth, lex)
  {
    hide ParseValue, ParseMembers, SkipWs, CString, WellBehaved, AllBlank, ReadsValue, ReadsString, Rest;
    var end := [COMMA] + w';
    var all := MemberImage(g, q, g', h, w, h', end);
    forall s, off: nat, k | At(s, off, all, k)
        ensures ParseMembers(s, off, depth, lex) == Parsed(Member(key, v, members), off + |all|) {
      AtFacts(s, off, all, k);
      var p, keyEnd, colon := KeyAt(s, off, g, q, g', h + (w + (h' + end)), k, key, lex);
      var value, o, next := ValueAt(s, colon + 1, h, w, h', end, k, v, depth, lex);
      OneAt(s, next, COMMA, w', k);
      MembersStep(s, off, p, depth, lex, keyEnd, colon, value, o, next, Member(key, v, members), next + 1 + |w'|);
    }
  }

  lemma ObjectReads(g: Bytes, w: Bytes, members: Members, depth: nat, lex: Lexer)
    requires WellBehaved(lex) && AllBlank(g) && depth < NESTING_LIMIT && w != [] && w[0] > 0x20
    requires if members.NoMember? then w == [CLOSE_BRACE]
             else w[0] != CLOSE_BRACE && ReadsMembers(w, members, depth + 1, lex)
    ensures ReadsValue([OPEN_BRACE] + (g + w), Object(members), depth, lex)
  {
    hide ParseValue, ParseMembers, SkipWs, CString, WellBehaved, AllBlank, Rest;
    var all := [OPEN_BRACE] + (g + w);
    forall s, off: nat, k | At(s, off, all, k) && !NumberByte(k[0])
        ensures ParseValue(s, off, depth, lex) == Parsed(Object(members), off + |all|) {
      AtFacts(s, off, all, k);
      OneAt(s, off, OPEN_BRACE, g + w, k);
      GapAt(s, off + 1, g, w, k);
      ObjectStep(s, off, depth, lex, off + 1 + |g|, members, off + |all|);
    }
  }

  lemma KeywordReads(t: Bytes, v: Value, depth: nat, lex: Lexer)
    requires WellBehaved(lex) && (t, v) in {(NULL_TEXT, Null), (FALSE_TEXT, False), (TRUE_TEXT, True)}
    ensures ReadsValue(t, v, depth, lex)
  {
    hide ParseItems, ParseMembers, SkipWs, WellBehaved, CString, Rest;
    forall s, off: nat, k | At(s, off, t, k) && !NumberByte(k[0])
        ensures ParseValue(s, off, depth, lex) == Parsed(v, off + |t|) {
      AtFacts(s, off, t, k);
      WordHere(s, off, off + |t|, t, k);
      KeywordHere(s, off, off + |t|);
    }
  }

  lemma StringReads(w: Bytes, t: Bytes, depth: nat, lex: Lexer)
    requires WellBehaved(lex) && ReadsString(w, t, lex) && w != [] && w[0] == QUOTE
    ensures ReadsValue(w, String(t), depth, lex)
  {
    hide ParseItems, ParseMembers, SkipWs, WellBehaved, CString, Rest;
    forall s, off: nat, k | At(s, off, w, k) && !NumberByte(k[0])
        ensures ParseValue(s, off, depth, lex) == Parsed(String(t), off + |w|) {
      RestFirst(s, off, w + k);
    }
  }

  lemma NumberReads(w: Bytes, t: Bytes, depth: nat, lex: Lexer)
    requires WellBehaved(lex) && ReadsNumberText(w, t, lex) && w != [] && StartsNumber(w[0])
    ensures ReadsValue(w, Number(t), depth, lex)
  {
    hide ParseItems, ParseMembers, SkipWs, WellBehaved, CString, Rest;
    forall s, off: nat, k | At(s, off, w, k) && !NumberByte(k[0])
        ensures ParseValue(s, off, depth, lex) == Parsed(Number(t), off + |w|) {
      RestFirst(s, off, w + k);
    }
  }
}
