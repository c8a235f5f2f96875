/** The grammar of JSON texts, over positions in the buffer and apart from any parser, and that `parse_value` accepts
    exactly the texts it describes. */
module JsonGrammar {
  import opened Bytes
  import opened Json
  import opened JsonParse

  /** How string literals and numbers are spelled: what the bytes from one position up to another stand for. */
  datatype Tokens = Tokens(str: (Bytes, nat, nat, Bytes) -> bool, num: (Bytes, nat, nat, Bytes) -> bool)

  /** White space from `a` up to a token at `b`. */
  predicate Gap(s: Bytes, a: nat, b: nat) {
    a <= b < |s| && s[b] > 0x20 && forall i :: a <= i < b ==> s[i] <= 0x20
  }

  predicate Word(s: Bytes, a: nat, b: nat, w: Bytes) {
    a <= b <= |s| && s[a..b] == w
  }

  /** The bytes from `a` up to `b` are a text of `v`. */
  ghost predicate Is(v: Value, s: Bytes, a: nat, b: nat, tok: Tokens)
    decreases v, 0
  {
    a < b < |s| &&
    match v
    case Null => Word(s, a, b, [0x6E, 0x75, 0x6C, 0x6C])
    case False => Word(s, a, b, [0x66, 0x61, 0x6C, 0x73, 0x65])
    case True => Word(s, a, b, [0x74, 0x72, 0x75, 0x65])
    case Number(t) => (s[a] == 0x2D || 0x30 <= s[a] <= 0x39) && tok.num(s, a, b, t)
    case String(t) => s[a] == 0x22 && tok.str(s, a, b, t)
    case Array(items) =>
      && s[a] == 0x5B
      && (if items.NoItem? then Gap(s, a + 1, b - 1) && s[b - 1] == 0x5D else IsItems(items, s, a + 1, b, tok))
    case Object(members) =>
      && s[a] == 0x7B
      && (if members.NoMember? then Gap(s, a + 1, b - 1) && s[b - 1] == 0x7D else IsMembers(members, s, a + 1, b, tok))
  }

  /** Elements with commas between them, up to and including the closing bracket. */
  ghost predicate IsItems(items: Items, s: Bytes, a: nat, b: nat, tok: Tokens)
    decreases items, 1
  {
    items.Item? && exists first: nat, end: nat, next: nat :: ItemAt(items, s, a, b, tok, first, end, next)
  }

  ghost predicate ItemAt(items: Items, s: Bytes, a: nat, b: nat, tok: Tokens, first: nat, end: nat, next: nat)
    requires items.Item?
    decreases items, 0
  {
    && Gap(s, a, first) && Is(items.head, s, first, end, tok) && Gap(s, end, next)
    && (if items.tail.NoItem? then s[next] == 0x5D && b == next + 1
        else s[next] == 0x2C && IsItems(items.tail, s, next + 1, b, tok))
  }

  /** Members with commas between them, up to and including the closing brace. */
  ghost predicate IsMembers(members: Members, s: Bytes, a: nat, b: nat, tok: Tokens)
    decreases members, 1
  {
    members.Member? && exists first: nat, keyEnd: nat, colon: nat, value: nat, end: nat, next: nat ::
      MemberAt(members, s, a, b, tok, first, keyEnd, colon, value, end, next)
  }

  ghost predicate MemberAt(members: Members, s: Bytes, a: nat, b: nat, tok: Tokens, first: nat, keyEnd: nat,
                           colon: nat, value: nat, end: nat, next: nat)
    requires members.Member?
    decreases members, 0
  {
    && Gap(s, a, first) && s[first] == 0x22 && tok.str(s, first, keyEnd, members.key)
    && Gap(s, keyEnd, colon) && s[colon] == 0x3A
    && Gap(s, colon + 1, value) && Is(members.value, s, value, end, tok) && Gap(s, end, next)
    && (if members.rest.NoMember? then s[next] == 0x7D && b == next + 1
        else s[next] == 0x2C && IsMembers(members.rest, s, next + 1, b, tok))
  }

  /** The lexer reads exactly the tokens. */
  ghost predicate Agree(lex: Lexer, tok: Tokens) {
    && (forall s, a: nat, b: nat, t :: CString(s) && a < |s| && s[a] == 0x22 ==>
          (lex.readString(s, a) == Parsed(t, b) <==> tok.str(s, a, b, t)))
    && (forall s, a: nat, b: nat, t :: CString(s) && a < |s| && (s[a] == 0x2D || 0x30 <= s[a] <= 0x39) ==>
          (lex.readNumber(s, a) == Parsed(t, b) <==> tok.num(s, a, b, t)))
    && (forall s, a: nat :: CString(s) && a < |s| && s[a] != 0x22 ==> lex.readString(s, a).Failed?)
  }

  lemma {:induction false} GapIsSkipped(s: Bytes, a: nat, b: nat)
    requires Gap(s, a, b)
    ensures SkipWs(s, a) == b
    decreases b - a
  {
    if a < b {
      GapIsSkipped(s, a + 1, b);
    }
  }

  lemma {:induction false} SkippedIsGap(s: Bytes, a: nat)
    requires a < |s|
    ensures s[SkipWs(s, a)] > 0x20 ==> Gap(s, a, SkipWs(s, a))
    decreases |s| - a
  {
    if s[a] <= 0x20 && a + 1 < |s| {
      SkippedIsGap(s, a + 1);
    }
  }

  /** A text starts with the first byte of a token. */
  lemma FirstByteOf(v: Value, s: Bytes, a: nat, b: nat, tok: Tokens)
    requires Is(v, s, a, b, tok)
    ensures s[a] > 0x20 && s[a] != 0x5D && s[a] != 0x7D
  {
    hide IsItems, IsMembers;
    if v.Null? || v.False? || v.True? {
      assert s[a] == s[a..b][0];
    }
  }

  lemma KeywordHere(s: Bytes, off: nat, b: nat)
    requires CString(s) && off < b < |s|
    ensures Word(s, off, b, [0x6E, 0x75, 0x6C, 0x6C]) <==> NullAt(s, off) && b == off + 4
    ensures Word(s, off, b, [0x66, 0x61, 0x6C, 0x73, 0x65]) <==> FalseAt(s, off) && b == off + 5
    ensures Word(s, off, b, [0x74, 0x72, 0x75, 0x65]) <==> TrueAt(s, off) && b == off + 4
  {
    var w := s[off..b];
    if |w| == 4 || |w| == 5 {
      assert w[0] == s[off] && w[1] == s[off + 1] && w[2] == s[off + 2] && w[3] == s[off + 3];
      assert |w| == 5 ==> w[4] == s[off + 4];
    }
  }

  /** The loops do not mind white space in front of them. */
  lemma ItemsFromGap(s: Bytes, a: nat, first: nat, depth: nat, lex: Lexer)
    requires CString(s) && WellBehaved(lex) && a <= first < |s| && SkipWs(s, a) == SkipWs(s, first)
    ensures ParseItems(s, first, depth, lex) == ParseItems(s, a, depth, lex)
  {
    hide SkipWs, ParseValue, WellBehaved, CString;
  }

  lemma MembersFromGap(s: Bytes, a: nat, first: nat, depth: nat, lex: Lexer)
    requires CString(s) && WellBehaved(lex) && a <= first < |s| && SkipWs(s, a) == SkipWs(s, first)
    ensures ParseMembers(s, first, depth, lex) == ParseMembers(s, a, depth, lex)
  {
    hide SkipWs, ParseValue, WellBehaved, CString;
  }

  lemma {:induction false} SkipTwiceIsOnce(s: Bytes, a: nat)
    requires a < |s|
    ensures SkipWs(s, SkipWs(s, a)) == SkipWs(s, a)
    decreases |s| - a
  {
    if s[a] <= 0x20 && a + 1 < |s| {
      SkipTwiceIsOnce(s, a + 1);
    }
  }

  /** Every text of the grammar that is not nested too deep is accepted, with its value. */
  lemma {:induction false} IsParsed(v: Value, s: Bytes, a: nat, b: nat, depth: nat, lex: Lexer, tok: Tokens)
    requires CString(s) && WellBehaved(lex) && Agree(lex, tok) && Is(v, s, a, b, tok)
    requires depth + Height(v) <= NESTING_LIMIT
    ensures ParseValue(s, a, depth, lex) == Parsed(v, b)
    decreases v, 0
  {
    hide CString, WellBehaved, SkipWs, IsItems, IsMembers, ParseItems, ParseMembers, NullAt, TrueAt, FalseAt, Word;
    KeywordHere(s, a, b);
    match v {
      case Array(items) =>
        hide ParseValue, Agree;
        ArrayIsParsed(items, s, a, b, depth, lex, tok);
      case Object(members) =>
        hide ParseValue, Agree;
        ObjectIsParsed(members, s, a, b, depth, lex, tok);
      case _ =>
        NoKeyword(s, a);
    }
  }

  lemma NoKeyword(s: Bytes, a: nat)
    requires CString(s) && a < |s|
    ensures NullAt(s, a) ==> s[a] == 0x6E
    ensures FalseAt(s, a) ==> s[a] == 0x66
    ensures TrueAt(s, a) ==> s[a] == 0x74
    ensures NullAt(s, a) ==> a + 4 < |s|
    ensures FalseAt(s, a) ==> a + 5 < |s|
    ensures TrueAt(s, a) ==> a + 4 < |s|
  {
  }

  lemma {:induction false} ArrayIsParsed(items: Items, s: Bytes, a: nat, b: nat, depth: nat, lex: Lexer, tok: Tokens)
    requires CString(s) && WellBehaved(lex) && Agree(lex, tok) && Is(Array(items), s, a, b, tok)
    requires depth + Height(Array(items)) <= NESTING_LIMIT
    ensures ParseValue(s, a, depth, lex) == Parsed(Array(items), b)
    decreases items, 2
  {
    hide CString, WellBehaved, SkipWs, ParseItems, ParseValue, Agree;
    if items.NoItem? {
      GapIsSkipped(s, a + 1, b - 1);
      ArrayStep(s, a, depth, lex, b - 1, items, b);
    } else {
      ItemsAreParsed(items, s, a + 1, b, depth + 1, lex, tok);
      var first: nat, end: nat, next: nat :| ItemAt(items, s, a + 1, b, tok, first, end, next);
      FirstByteOf(items.head, s, first, end, tok);
      GapIsSkipped(s, a + 1, first);
      SkipTwiceIsOnce(s, a + 1);
      ItemsFromGap(s, a + 1, first, depth + 1, lex);
      ArrayStep(s, a, depth, lex, first, items, b);
    }
  }

  lemma {:induction false} ItemsAreParsed(items: Items, s: Bytes, a: nat, b: nat, depth: nat, lex: Lexer, tok: Tokens)
    requires CString(s) && WellBehaved(lex) && Agree(lex, tok) && IsItems(items, s, a, b, tok)
    requires depth + ItemsHeight(items) <= NESTING_LIMIT
    ensures a < |s| && ParseItems(s, a, depth, lex) == Parsed(items, b)
    decreases items, 1
  {
    hide CString, WellBehaved, SkipWs, ParseItems, ParseValue, Agree, Is;
    var first: nat, end: nat, next: nat :| ItemAt(items, s, a, b, tok, first, end, next);
    GapIsSkipped(s, a, first);
    GapIsSkipped(s, end, next);
    IsParsed(items.head, s, first, end, depth, lex, tok);
    if items.tail.Item? {
      ItemsAreParsed(items.tail, s, next + 1, b, depth, lex, tok);
    }
    ItemsStep(s, a, first, depth, lex, end, next, items, b);
  }

  lemma {:induction false} ObjectIsParsed(members: Members, s: Bytes, a: nat, b: nat, depth: nat, lex: Lexer,
                                          tok: Tokens)
    requires CString(s) && WellBehaved(lex) && Agree(lex, tok) && Is(Object(members), s, a, b, tok)
    requires depth + Height(Object(members)) <= NESTING_LIMIT
    ensures ParseValue(s, a, depth, lex) == Parsed(Object(members), b)
    decreases members, 2
  {
    hide CString, WellBehaved, SkipWs, ParseMembers, ParseValue, Agree, IsMembers;
    if members.NoMember? {
      GapIsSkipped(s, a + 1, b - 1);
      ObjectStep(s, a, depth, lex, b - 1, members, b);
    } else {
      MembersAreParsed(members, s, a + 1, b, depth + 1, lex, tok);
      var first := FirstKey(members, s, a + 1, b, tok);
      GapIsSkipped(s, a + 1, first);
      SkipTwiceIsOnce(s, a + 1);
      MembersFromGap(s, a + 1, first, depth + 1, lex);
      ObjectStep(s, a, depth, lex, first, members, b);
    }
  }

  lemma FirstKey(members: Members, s: Bytes, a: nat, b: nat, tok: Tokens) returns (first: nat)
    requires IsMembers(members, s, a, b, tok)
    ensures Gap(s, a, first) && s[first] == 0x22
  {
    hide Is;
    var o: nat, keyEnd: nat, colon: nat, value: nat, end: nat, next: nat :|
      MemberAt(members, s, a, b, tok, o, keyEnd, colon, value, end, next);
    first := o;
  }

  lemma {:induction false} MembersAreParsed(members: Members, s: Bytes, a: nat, b: nat, depth: nat, lex: Lexer,
                                            tok: Tokens)
    requires CString(s) && WellBehaved(lex) && Agree(lex, tok) && IsMembers(members, s, a, b, tok)
    requires depth + MembersHeight(members) <= NESTING_LIMIT
    ensures a < |s| && ParseMembers(s, a, depth, lex) == Parsed(members, b)
    decreases members, 1
  {
    hide CString, WellBehaved, SkipWs, ParseMembers, ParseValue, Agree, Is;
    var first: nat, keyEnd: nat, colon: nat, value: nat, end: nat, next: nat :|
      MemberAt(members, s, a, b, tok, first, keyEnd, colon, value, end, next);
    MemberGaps(s, a, first, keyEnd, colon, value, end, next);
    KeyAgrees(s, first, keyEnd, members.key, lex, tok);
    IsParsed(members.value, s, value, end, depth, lex, tok);
    if members.rest.Member? {
      MembersAreParsed(members.rest, s, next + 1, b, depth, lex, tok);
    }
    MembersStep(s, a, first, depth, lex, keyEnd, colon, value, end, next, members, b);
  }

  lemma MemberGaps(s: Bytes, a: nat, first: nat, keyEnd: nat, colon: nat, value: nat, end: nat, next: nat)
    requires Gap(s, a, first) && Gap(s, keyEnd, colon) && Gap(s, colon + 1, value) && Gap(s, end, next)
    ensures SkipWs(s, a) == first && SkipWs(s, keyEnd) == colon && SkipWs(s, colon + 1) == value
    ensures SkipWs(s, end) == next
  {
    hide SkipWs;
    GapIsSkipped(s, a, first);
    GapIsSkipped(s, keyEnd, colon);
    GapIsSkipped(s, colon + 1, value);
    GapIsSkipped(s, end, next);
  }

  lemma KeyAgrees(s: Bytes, a: nat, b: nat, t: Bytes, lex: Lexer, tok: Tokens)
    requires CString(s) && Agree(lex, tok) && a < |s| && s[a] == 0x22
    ensures lex.readString(s, a) == Parsed(t, b) <==> tok.str(s, a, b, t)
  {
  }

  /** Everything accepted is a text of the grammar, with its value, and not nested too deep. */
  lemma {:induction false} ParsedIs(s: Bytes, a: nat, depth: nat, lex: Lexer, tok: Tokens)
    requires CString(s) && WellBehaved(lex) && Agree(lex, tok) && a < |s| && depth <= NESTING_LIMIT
    ensures var r := ParseValue(s, a, depth, lex);
            r.Parsed? ==> Is(r.value, s, a, r.off, tok) && depth + Height(r.value) <= NESTING_LIMIT
    decreases |s| - a, 1
  {
    hide CString, WellBehaved, SkipWs, IsItems, IsMembers, ParseItems, ParseMembers, NullAt, TrueAt, FalseAt, Word;
    NoKeyword(s, a);
    var r := ParseValue(s, a, depth, lex);
    if r.Parsed? {
      KeywordHere(s, a, r.off);
      if r.value.Array? {
        ParsedArrayIs(s, a, depth, lex, tok);
      } else if r.value.Object? {
        ParsedObjectIs(s, a, depth, lex, tok);
      }
    }
  }

  lemma {:induction false} ParsedArrayIs(s: Bytes, a: nat, depth: nat, lex: Lexer, tok: Tokens)
    requires CString(s) && WellBehaved(lex) && Agree(lex, tok) && a < |s| && depth <= NESTING_LIMIT
    requires ParseValue(s, a, depth, lex).Parsed? && ParseValue(s, a, depth, lex).value.Array?
    ensures var r := ParseValue(s, a, depth, lex);
            Is(r.value, s, a, r.off, tok) && depth + Height(r.value) <= NESTING_LIMIT
    decreases |s| - a, 0
  {
    hide CString, WellBehaved, SkipWs, IsItems, IsMembers, ParseItems, ParseMembers, NullAt, TrueAt, FalseAt, Word,
      Agree;
    NotLast(s, a);
    var first := SkipWs(s, a + 1);
    SkippedIsGap(s, a + 1);
    if s[first] != CLOSE_BRACKET {
      SkipTwiceIsOnce(s, a + 1);
      ItemsFromGap(s, a + 1, first, depth + 1, lex);
      ParsedItemsAre(s, a + 1, depth + 1, lex, tok);
    }
  }

  lemma {:induction false} ParsedObjectIs(s: Bytes, a: nat, depth: nat, lex: Lexer, tok: Tokens)
    requires CString(s) && WellBehaved(lex) && Agree(lex, tok) && a < |s| && depth <= NESTING_LIMIT
    requires ParseValue(s, a, depth, lex).Parsed? && ParseValue(s, a, depth, lex).value.Object?
    ensures var r := ParseValue(s, a, depth, lex);
            Is(r.value, s, a, r.off, tok) && depth + Height(r.value) <= NESTING_LIMIT
    decreases |s| - a, 0
  {
    hide CString, WellBehaved, SkipWs, IsItems, IsMembers, ParseItems, ParseMembers, NullAt, TrueAt, FalseAt, Word,
      Agree;
    NotLast(s, a);
    var first := SkipWs(s, a + 1);
    SkippedIsGap(s, a + 1);
    if s[first] != CLOSE_BRACE {
      SkipTwiceIsOnce(s, a + 1);
      MembersFromGap(s, a + 1, first, depth + 1, lex);
      ParsedMembersAre(s, a + 1, depth + 1, lex, tok);
    }
  }

  lemma {:induction false} ParsedItemsAre(s: Bytes, a: nat, depth: nat, lex: Lexer, tok: Tokens)
    requires CString(s) && WellBehaved(lex) && Agree(lex, tok) && a < |s| && depth <= NESTING_LIMIT
    ensures var r := ParseItems(s, a, depth, lex);
            r.Parsed? ==>
              r.value.Item? && IsItems(r.value, s, a, r.off, tok) && depth + ItemsHeight(r.value) <= NESTING_LIMIT
    decreases |s| - a, 2
  {
    hide CString, WellBehaved, SkipWs, ParseValue, Agree, Is;
    var r := ParseItems(s, a, depth, lex);
    if r.Parsed? {
      var first := SkipWs(s, a);
      var end := ParseValue(s, first, depth, lex).off;
      var next := SkipWs(s, end);
      ParsedIs(s, first, depth, lex, tok);
      FirstByteOf(r.value.head, s, first, end, tok);
      SkippedIsGap(s, a);
      SkippedIsGap(s, end);
      if s[next] == COMMA {
        NotLast(s, next);
        ParsedItemsAre(s, next + 1, depth, lex, tok);
      }
      assert ItemAt(r.value, s, a, r.off, tok, first, end, next);
    }
  }

  lemma {:induction false} ParsedMembersAre(s: Bytes, a: nat, depth: nat, lex: Lexer, tok: Tokens)
    requires CString(s) && WellBehaved(lex) && Agree(lex, tok) && a < |s| && depth <= NESTING_LIMIT
    ensures var r := ParseMembers(s, a, depth, lex);
            r.Parsed? ==>
              r.value.Member? && IsMembers(r.value, s, a, r.off, tok) && depth + MembersHeight(r.value) <= NESTING_LIMIT
    decreases |s| - a, 2
  {
    hide CString, WellBehaved, SkipWs, ParseValue, ParseMembers, Agree, Is, IsMembers;
    var r := ParseMembers(s, a, depth, lex);
    if r.Parsed? {
      var first, keyEnd, colon, value, end, next := MembersTurn(s, a, depth, lex);
      KeyEnds(s, first, lex, tok);
      ParsedIs(s, value, depth, lex, tok);
      FirstByteOf(r.value.value, s, value, end, tok);
      SkippedIsGap(s, a);
      SkippedIsGap(s, keyEnd);
      SkippedIsGap(s, colon + 1);
      SkippedIsGap(s, end);
      if s[next] == COMMA {
        ParsedMembersAre(s, next + 1, depth, lex, tok);
      }
      MembersFound(r.value, s, a, r.off, tok, first, keyEnd, colon, value, end, next);
    }
  }

  lemma MembersFound(members: Members, s: Bytes, a: nat, b: nat, tok: Tokens, first: nat, keyEnd: nat, colon: nat,
                     value: nat, end: nat, next: nat)
    requires members.Member? && MemberAt(members, s, a, b, tok, first, keyEnd, colon, value, end, next)
    ensures IsMembers(members, s, a, b, tok)
  {
    hide Is, MemberAt;
  }

  lemma KeyEnds(s: Bytes, a: nat, lex: Lexer, tok: Tokens)
    requires CString(s) && WellBehaved(lex) && Agree(lex, tok) && a < |s| && lex.readString(s, a).Parsed?
    ensures var r := lex.readString(s, a);
            s[a] == 0x22 && tok.str(s, a, r.off, r.value) && a < r.off < |s|
  {
    assert Moves(lex.readString(s, a), s, a);
  }

  /** `parse_value` accepts exactly the texts of the grammar that are not nested too deep. */
  lemma ParsesExactly(s: Bytes, a: nat, depth: nat, lex: Lexer, tok: Tokens, v: Value, b: nat)
    requires CString(s) && WellBehaved(lex) && Agree(lex, tok) && a < |s| && depth <= NESTING_LIMIT
    ensures ParseValue(s, a, depth, lex) == Parsed(v, b) <==>
            Is(v, s, a, b, tok) && depth + Height(v) <= NESTING_LIMIT
  {
    hide CString, WellBehaved, Agree, ParseValue, Is;
    ParsedIs(s, a, depth, lex, tok);
    if Is(v, s, a, b, tok) && depth + Height(v) <= NESTING_LIMIT {
      IsParsed(v, s, a, b, depth, lex, tok);
    }
  }

  /** A text that is nested too deep is refused, whatever parses in front of the place. */
  lemma {:induction false} DeepFails(v: Value, s: Bytes, a: nat, b: nat, depth: nat, lex: Lexer, tok: Tokens)
    requires CString(s) && WellBehaved(lex) && Agree(lex, tok) && Is(v, s, a, b, tok)
    requires depth <= NESTING_LIMIT < depth + Height(v)
    ensures ParseValue(s, a, depth, lex).Failed?
    decreases v, 0
  {
    hide CString, WellBehaved, SkipWs, IsItems, IsMembers, ParseItems, ParseMembers, ParseValue, Agree;
    var first := SkipWs(s, a + 1);
    SkipTwiceIsOnce(s, a + 1);
    if depth < NESTING_LIMIT {
      match v {
        case Array(items) =>
          DeepItemsFail(items, s, a + 1, b, depth + 1, lex, tok);
          ItemsFromGap(s, a + 1, first, depth + 1, lex);
        case Object(members) =>
          DeepMembersFail(members, s, a + 1, b, depth + 1, lex, tok);
          MembersFromGap(s, a + 1, first, depth + 1, lex);
      }
    }
    OpenFails(s, a, depth, lex, first);
  }

  lemma {:induction false} DeepItemsFail(items: Items, s: Bytes, a: nat, b: nat, depth: nat, lex: Lexer, tok: Tokens)
    requires CString(s) && WellBehaved(lex) && Agree(lex, tok) && IsItems(items, s, a, b, tok)
    requires depth <= NESTING_LIMIT < depth + ItemsHeight(items)
    ensures a < |s| && s[SkipWs(s, a)] != CLOSE_BRACKET && ParseItems(s, a, depth, lex).Failed?
    decreases items, 1
  {
    hide CString, WellBehaved, SkipWs, ParseValue, Agree, Is;
    var first: nat, end: nat, next: nat :| ItemAt(items, s, a, b, tok, first, end, next);
    GapIsSkipped(s, a, first);
    GapIsSkipped(s, end, next);
    FirstByteOf(items.head, s, first, end, tok);
    if depth + Height(items.head) > NESTING_LIMIT {
      DeepFails(items.head, s, first, end, depth, lex, tok);
    } else {
      IsParsed(items.head, s, first, end, depth, lex, tok);
      DeepItemsFail(items.tail, s, next + 1, b, depth, lex, tok);
    }
  }

  lemma {:induction false} DeepMembersFail(members: Members, s: Bytes, a: nat, b: nat, depth: nat, lex: Lexer,
                                           tok: Tokens)
    requires CString(s) && WellBehaved(lex) && Agree(lex, tok) && IsMembers(members, s, a, b, tok)
    requires depth <= NESTING_LIMIT < depth + MembersHeight(members)
    ensures a < |s| && s[SkipWs(s, a)] != CLOSE_BRACE && ParseMembers(s, a, depth, lex).Failed?
    decreases members, 1
  {
    hide CString, WellBehaved, SkipWs, ParseValue, ParseMembers, Agree, Is, MembersHeight;
    var first: nat, keyEnd: nat, colon: nat, value: nat, end: nat, next: nat :|
      MemberAt(members, s, a, b, tok, first, keyEnd, colon, value, end, next);
    MemberGaps(s, a, first, keyEnd, colon, value, end, next);
    KeyAgrees(s, first, keyEnd, members.key, lex, tok);
    if depth + Height(members.value) > NESTING_LIMIT {
      DeepFails(members.value, s, value, end, depth, lex, tok);
    } else {
      HeightIsBelow(members, depth);
      IsParsed(members.value, s, value, end, depth, lex, tok);
      DeepMembersFail(members.rest, s, next + 1, b, depth, lex, tok);
    }
    MemberFails(s, a, first, depth, lex, members.key, keyEnd, colon, value, members.value, end, next);
  }

  /** If the first member is not too deep, one after it is. */
  lemma HeightIsBelow(members: Members, depth: nat)
    requires members.Member? && depth + Height(members.value) <= NESTING_LIMIT < depth + MembersHeight(members)
    ensures members.rest.Member? && NESTING_LIMIT < depth + MembersHeight(members.rest)
  {
  }
}
