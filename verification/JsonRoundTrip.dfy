/** Parsing what the printer wrote gives the tree back. */
module JsonRoundTrip {
  import opened Bytes
  import opened Json
  import opened JsonString
  import opened JsonNulFree
  import opened JsonOnto
  import opened JsonParse
  import opened JsonGrammar
  import opened JsonAccepts

  /** From `off` on the buffer holds exactly `t`. */
  predicate Rest(s: Bytes, off: nat, t: Bytes) {
    off + |t| == |s| && s[off..] == t
  }

  lemma RestSplit(s: Bytes, off: nat, a: Bytes, b: Bytes)
    requires Rest(s, off, a + b)
    ensures Rest(s, off + |a|, b)
    ensures forall i :: 0 <= i < |a| ==> s[off + i] == a[i]
  {
    assert s[off + |a|..] == s[off..][|a|..] == (a + b)[|a|..] == b;
    forall i | 0 <= i < |a| ensures s[off + i] == a[i] {
      assert s[off..][i] == (a + b)[i];
    }
  }

  lemma RestCons(s: Bytes, off: nat, c: byte, t: Bytes)
    requires Rest(s, off, [c] + t)
    ensures off < |s| && s[off] == c && Rest(s, off + 1, t)
  {
    RestSplit(s, off, [c], t);
  }

  lemma RestFirst(s: Bytes, off: nat, t: Bytes)
    requires Rest(s, off, t) && t != []
    ensures off < |s| && s[off] == t[0]
  {
    assert s[off..][0] == t[0];
  }

  predicate AllBlank(w: Bytes) {
    forall i :: 0 <= i < |w| ==> w[i] <= 0x20
  }

  /** White space in front of a token is a gap. */
  lemma BlankIsGap(s: Bytes, off: nat, w: Bytes, t: Bytes)
    requires Rest(s, off, w + t) && AllBlank(w) && t != [] && t[0] > 0x20
    ensures Gap(s, off, off + |w|) && Rest(s, off + |w|, t)
  {
    RestSplit(s, off, w, t);
    RestFirst(s, off + |w|, t);
    forall i | off <= i < off + |w| ensures s[i] <= 0x20 {
      assert s[off + (i - off)] == w[i - off];
    }
  }

  lemma WhenIsGap(s: Bytes, off: nat, fmt: bool, w: Bytes, t: Bytes)
    requires Rest(s, off, WhenOnto(fmt, w, t)) && AllBlank(w) && t != [] && t[0] > 0x20
    ensures |t| <= |s| && Gap(s, off, |s| - |t|) && Rest(s, |s| - |t|, t)
  {
    if fmt {
      BlankIsGap(s, off, w, t);
    } else {
      RestFirst(s, off, t);
    }
  }

  /** The escape of `c`, followed by `t`, stands at `p` in a literal that ends at `e`. */
  ghost predicate EscapeAt(s: Bytes, p: nat, e: nat, c: byte, t: Bytes) {
    c != NUL && e < |s| && p + |EscapeByte(c)| <= e && Rest(s, p, EscapeByte(c) + t)
  }

  /** The decoder undoes the escape of one byte. */
  lemma TurnUndoesEscape(s: Bytes, p: nat, e: nat, c: byte, t: Bytes)
    requires EscapeAt(s, p, e, c, t)
    ensures SourceTurn(s, p, e) == Literal(|EscapeByte(c)|, [c])
  {
    var x := EscapeByte(c);
    RestSplit(s, p, x, t);
    assert s[p] == s[p + 0] == x[0];
    if |x| > 1 {
      assert s[p + 1] == x[1];
    }
    if |x| == 6 {
      assert s[p + 2] == x[2] && s[p + 3] == x[3] && s[p + 4] == x[4] && s[p + 5] == x[5];
      assert Hex4At(s, p + 2) == c as nat;
    }
  }

  ghost predicate UndoesEscapes(turn: Turn, s: Bytes, e: nat) {
    forall p: nat, c, t :: EscapeAt(s, p, e, c, t) ==> turn(s, p, e) == Literal(|EscapeByte(c)|, [c])
  }

  lemma SourceUndoesEscapes(s: Bytes, e: nat)
    ensures UndoesEscapes(SourceTurn, s, e)
  {
    forall p: nat, c, t | EscapeAt(s, p, e, c, t) ensures SourceTurn(s, p, e) == Literal(|EscapeByte(c)|, [c]) {
      TurnUndoesEscape(s, p, e, c, t);
    }
  }

  lemma NulFreeRest(t: Bytes)
    requires NulFree(t) && t != []
    ensures t[0] != NUL && NulFree(t[1..])
  {
  }

  lemma {:induction false} DecodeEscaped(turn: Turn, s: Bytes, p: nat, e: nat, t: Bytes, k: Bytes)
    requires UndoesEscapes(turn, s, e)
    requires NulFree(t) && Rest(s, p, EscapeOnto(t, k)) && k != [] && e + |k| == |s|
    ensures DecodeWith(turn, s, p, e) == Decoded(t)
    decreases |t|
  {
    hide EscapeByte, NulFree;
    if t != [] {
      NulFreeRest(t);
      var more := EscapeOnto(t[1..], k);
      RestSplit(s, p, EscapeByte(t[0]), more);
      assert EscapeAt(s, p, e, t[0], more);
      DecodeEscaped(turn, s, p + |EscapeByte(t[0])|, e, t[1..], k);
      assert [t[0]] + t[1..] == t;
    }
  }

  /** The scan steps over the escape of one byte. */
  lemma ScanEscapedByte(s: Bytes, p: nat, c: byte, t: Bytes)
    requires Rest(s, p, EscapeByte(c) + t) && ScanString(s, p + |EscapeByte(c)|).Closed?
    ensures ScanString(s, p).Closed? && ScanString(s, p).end == ScanString(s, p + |EscapeByte(c)|).end
  {
    var x := EscapeByte(c);
    RestSplit(s, p, x, t);
    assert s[p] == s[p + 0] == x[0];
    if |x| == 6 {
      assert s[p + 2] == x[2] && s[p + 3] == x[3] && s[p + 4] == x[4] && s[p + 5] == x[5];
      ScanPlain(s, p + 5);
      ScanPlain(s, p + 4);
      ScanPlain(s, p + 3);
      ScanPlain(s, p + 2);
    }
  }

  lemma ScanPlain(s: Bytes, p: nat)
    requires p < |s| && s[p] != QUOTE && s[p] != BACKSLASH
    ensures ScanString(s, p) == ScanString(s, p + 1)
  {
  }

  lemma {:induction false} ScanEscaped(s: Bytes, p: nat, e: nat, t: Bytes, k: Bytes)
    requires Rest(s, p, EscapeOnto(t, k)) && k != [] && k[0] == QUOTE && e + |k| == |s|
    ensures ScanString(s, p).Closed? && ScanString(s, p).end == e
    decreases |t|
  {
    hide EscapeByte;
    if t == [] {
      RestFirst(s, p, k);
    } else {
      var more := EscapeOnto(t[1..], k);
      RestSplit(s, p, EscapeByte(t[0]), more);
      ScanEscaped(s, p + |EscapeByte(t[0])|, e, t[1..], k);
      ScanEscapedByte(s, p, t[0], more);
    }
  }

  /** A printed string, with `k` after it, stands in the buffer from `off` to `end`. */
  ghost predicate StringAt(s: Bytes, off: nat, end: nat, t: Bytes, k: Bytes) {
    CString(s) && NulFree(t) && Rest(s, off, StringOnto(t, k)) && k != [] && end + |k| == |s|
  }

  /** A printed string parses to itself. */
  lemma StringRoundTrip(s: Bytes, off: nat, end: nat, t: Bytes, k: Bytes)
    requires StringAt(s, off, end, t, k)
    ensures ParseString(s, off) == Parsed(t, end)
  {
    hide EscapeOnto, ScanString, DecodeWith, SourceTurn, UndoesEscapes, CString;
    var close := [QUOTE] + k;
    RestCons(s, off, QUOTE, EscapeOnto(t, close));
    ScanEscaped(s, off + 1, end - 1, t, close);
    SourceUndoesEscapes(s, end - 1);
    DecodeEscaped(SourceTurn, s, off + 1, end - 1, t, close);
  }

  lemma {:induction false} NumberRunOf(s: Bytes, off: nat, t: Bytes, k: Bytes, max: nat)
    requires Rest(s, off, t + k) && |t| <= max && k != [] && !NumberByte(k[0])
    requires forall i :: 0 <= i < |t| ==> NumberByte(t[i])
    ensures NumberRun(s, off, max) == |t|
    decreases |t|
  {
    if t == [] {
      assert t + k == k;
      RestFirst(s, off, k);
    } else {
      assert t + k == [t[0]] + (t[1..] + k);
      RestCons(s, off, t[0], t[1..] + k);
      NumberRunOf(s, off + 1, t[1..], k, max - 1);
    }
  }

  /** A number text, with no number byte after it, stands in the buffer from `off` to `end`. */
  ghost predicate NumberAt(s: Bytes, off: nat, end: nat, t: Bytes, k: Bytes) {
    CString(s) && NumberText(t) && Rest(s, off, t + k) && k != [] && !NumberByte(k[0]) && end + |k| == |s|
  }

  /** A number text that `strtod` accepts whole parses to itself. */
  lemma NumberRoundTrip(s: Bytes, off: nat, end: nat, t: Bytes, k: Bytes, strtod: Strtod)
    requires NumberAt(s, off, end, t, k) && strtod(t) == |t|
    ensures ParseNumber(s, off, strtod) == Parsed(t, end)
  {
    hide NumberRun, NumberByte;
    NumberRunOf(s, off, t, k, 63);
    assert s[off..off + |t|] == s[off..][..|t|] == t;
    assert t[..|t|] == t;
  }

  ghost predicate ReadsStrings(tok: Tokens) {
    forall s, off: nat, end: nat, t, k :: StringAt(s, off, end, t, k) ==> tok.str(s, off, end, t)
  }

  ghost predicate ReadsNumber(tok: Tokens, t: Bytes) {
    forall s, off: nat, end: nat, k :: NumberAt(s, off, end, t, k) ==> tok.num(s, off, end, t)
  }

  /** Every number text in the tree is read back whole. */
  ghost predicate ReadsNumbers(tok: Tokens, v: Value) {
    match v
    case Number(t) => ReadsNumber(tok, t)
    case Array(items) => ReadsItemNumbers(tok, items)
    case Object(members) => ReadsMemberNumbers(tok, members)
    case _ => true
  }

  ghost predicate ReadsItemNumbers(tok: Tokens, items: Items) {
    items.Item? ==> ReadsNumbers(tok, items.head) && ReadsItemNumbers(tok, items.tail)
  }

  ghost predicate ReadsMemberNumbers(tok: Tokens, members: Members) {
    members.Member? ==> ReadsNumbers(tok, members.value) && ReadsMemberNumbers(tok, members.rest)
  }

  /** Printed text starts with a byte that is neither white space nor a closing bracket. */
  lemma FirstByte(v: Value, fmt: bool, d: nat, k: Bytes)
    requires Printable(v)
    ensures var t := Onto(v, fmt, d, k); t != [] && 0x20 < t[0] < 0x80 && t[0] != CLOSE_BRACKET
  {
  }

  /** Printed text is a text of the grammar, wherever it stands in the buffer, if no number byte follows it. */
  lemma {:induction false} PrintedIs(v: Value, fmt: bool, d: nat, k: Bytes, s: Bytes, off: nat, end: nat, tok: Tokens)
    requires CString(s) && ReadsStrings(tok) && Printable(v) && ReadsNumbers(tok, v)
    requires Rest(s, off, Onto(v, fmt, d, k)) && k != [] && !NumberByte(k[0]) && end + |k| == |s|
    ensures Is(v, s, off, end, tok)
    decreases v, 3
  {
    ValueSpan(v, fmt, d, k, s, off, end);
    FirstByte(v, fmt, d, k);
    RestFirst(s, off, Onto(v, fmt, d, k));
    match v {
      case Null =>
        WordHere(s, off, end, NULL_TEXT, k);
      case False =>
        WordHere(s, off, end, FALSE_TEXT, k);
      case True =>
        WordHere(s, off, end, TRUE_TEXT, k);
      case Number(t) =>
        assert NumberAt(s, off, end, t, k);
      case String(t) =>
        assert StringAt(s, off, end, t, k);
      case Array(items) =>
        PrintedArrayIs(items, fmt, d, k, s, off, end, tok);
      case Object(members) =>
        PrintedObjectIs(members, fmt, d, k, s, off, end, tok);
    }
  }

  lemma WordHere(s: Bytes, off: nat, end: nat, t: Bytes, k: Bytes)
    requires Rest(s, off, t + k) && end + |k| == |s|
    ensures Word(s, off, end, t)
  {
    RestSplit(s, off, t, k);
    assert s[off..end] == t;
  }

  lemma ValueSpan(v: Value, fmt: bool, d: nat, k: Bytes, s: Bytes, off: nat, end: nat)
    requires Printable(v) && Rest(s, off, Onto(v, fmt, d, k)) && k != [] && end + |k| == |s|
    ensures off < end < |s|
  {
    hide Onto;
    OntoIs(v, fmt, d, k);
    assert |Print(v, fmt, d)| >= 1;
  }

  lemma {:induction false} PrintedArrayIs(items: Items, fmt: bool, d: nat, k: Bytes, s: Bytes, off: nat, end: nat,
                                          tok: Tokens)
    requires CString(s) && ReadsStrings(tok) && PrintableItems(items) && ReadsItemNumbers(tok, items)
    requires Rest(s, off, Onto(Array(items), fmt, d, k)) && k != [] && end + |k| == |s|
    ensures Is(Array(items), s, off, end, tok)
    decreases items, 2
  {
    hide Onto, ItemsOnto, IsItems, Rest;
    ValueSpan(Array(items), fmt, d, k, s, off, end);
    ArrayOpens(items, fmt, d, k, s, off, end);
    if items.Item? {
      PrintedItemsAre(items, fmt, d + 1, k, s, off + 1, off + 1, end, tok);
    }
  }

  /** Where the parser finds the first element of an array, or its closing bracket. */
  lemma ArrayOpens(items: Items, fmt: bool, d: nat, k: Bytes, s: Bytes, off: nat, end: nat)
    requires Rest(s, off, Onto(Array(items), fmt, d, k)) && k != [] && end + |k| == |s| && PrintableItems(items)
    ensures s[off] == OPEN_BRACKET && Gap(s, off + 1, off + 1)
    ensures items.NoItem? ==> s[off + 1] == CLOSE_BRACKET && end == off + 2
    ensures items.Item? ==>
            Rest(s, off + 1, ItemsOnto(items, fmt, d + 1, [CLOSE_BRACKET] + k))
  {
    var body := ItemsOnto(items, fmt, d + 1, [CLOSE_BRACKET] + k);
    RestCons(s, off, OPEN_BRACKET, body);
    if items.NoItem? {
      RestCons(s, off + 1, CLOSE_BRACKET, k);
    } else {
      ItemsOntoIs(items, fmt, d + 1, [CLOSE_BRACKET] + k);
      FirstByte(items.head, fmt, d + 1, MoreItemsOnto(items.tail, fmt, d + 1, [CLOSE_BRACKET] + k));
      RestFirst(s, off + 1, body);
    }
  }

  /** Where the parser finds what follows a printed value. */
  lemma AfterValue(v: Value, fmt: bool, d: nat, k: Bytes, s: Bytes, off: nat) returns (o: nat)
    requires Rest(s, off, Onto(v, fmt, d, k)) && k != []
    ensures o + |k| == |s| && Rest(s, o, k) && s[o] == k[0]
  {
    OntoIs(v, fmt, d, k);
    RestSplit(s, off, Print(v, fmt, d), k);
    o := off + |Print(v, fmt, d)|;
    RestFirst(s, o, k);
  }

  lemma {:induction false} PrintedItemsAre(items: Items, fmt: bool, d: nat, k: Bytes, s: Bytes, before: nat, off: nat,
                                           end: nat, tok: Tokens)
    requires CString(s) && ReadsStrings(tok) && PrintableItems(items) && ReadsItemNumbers(tok, items)
    requires items.Item? && Gap(s, before, off) && k != [] && end + |k| == |s|
    requires Rest(s, off, ItemsOnto(items, fmt, d, [CLOSE_BRACKET] + k))
    ensures IsItems(items, s, before, end, tok)
    decreases items, 1
  {
    hide Onto, Is, CString, ReadsStrings, Rest, MoreItemsOnto, NumberByte;
    var close := [CLOSE_BRACKET] + k;
    var more := MoreItemsOnto(items.tail, fmt, d, close);
    MoreItemsFirst(items.tail, fmt, d, k);
    var o := AfterValue(items.head, fmt, d, more, s, off);
    PrintedIs(items.head, fmt, d, more, s, off, o, tok);
    if items.tail.Item? {
      var next := NextItem(items.tail, fmt, d, close, s, o);
      PrintedItemsAre(items.tail, fmt, d, k, s, o + 1, next, end, tok);
    }
    assert ItemAt(items, s, before, end, tok, off, o, o);
  }

  lemma MoreItemsFirst(tail: Items, fmt: bool, d: nat, k: Bytes)
    ensures var more := MoreItemsOnto(tail, fmt, d, [CLOSE_BRACKET] + k);
            && more != [] && !NumberByte(more[0]) && more[0] > 0x20
            && more[0] == (if tail.Item? then COMMA else CLOSE_BRACKET)
            && (tail.NoItem? ==> |more| == |k| + 1)
  {
  }

  lemma NextItem(tail: Items, fmt: bool, d: nat, k: Bytes, s: Bytes, o: nat) returns (next: nat)
    requires tail.Item? && PrintableItems(tail) && Rest(s, o, MoreItemsOnto(tail, fmt, d, k))
    ensures o < |s| && s[o] == COMMA && Gap(s, o + 1, next) && Rest(s, next, ItemsOnto(tail, fmt, d, k))
  {
    var text := ItemsOnto(tail, fmt, d, k);
    RestCons(s, o, COMMA, WhenOnto(fmt, [SPACE], text));
    FirstByte(tail.head, fmt, d, MoreItemsOnto(tail.tail, fmt, d, k));
    WhenIsGap(s, o + 1, fmt, [SPACE], text);
    next := |s| - |text|;
  }

  lemma {:induction false} PrintedObjectIs(members: Members, fmt: bool, d: nat, k: Bytes, s: Bytes, off: nat, end: nat,
                                           tok: Tokens)
    requires CString(s) && ReadsStrings(tok) && PrintableMembers(members) && ReadsMemberNumbers(tok, members)
    requires Rest(s, off, Onto(Object(members), fmt, d, k)) && k != [] && end + |k| == |s|
    ensures Is(Object(members), s, off, end, tok)
    decreases members, 2
  {
    hide Onto, MemberOnto, WhenOnto, IsMembers, Rest;
    ValueSpan(Object(members), fmt, d, k, s, off, end);
    var first := ObjectOpens(members, fmt, d, k, s, off, end);
    if members.Member? {
      PrintedMembersAre(members, fmt, d + 1, d, k, s, off + 1, first, end, tok);
    }
  }

  /** Where the parser finds the first key of an object, or its closing brace. */
  lemma ObjectOpens(members: Members, fmt: bool, d: nat, k: Bytes, s: Bytes, off: nat, end: nat) returns (first: nat)
    requires Rest(s, off, Onto(Object(members), fmt, d, k)) && k != [] && end + |k| == |s|
    ensures off < |s| && s[off] == OPEN_BRACE && Gap(s, off + 1, first)
    ensures members.NoMember? ==> s[first] == CLOSE_BRACE && end == first + 1
    ensures members.Member? ==>
        Rest(s, first, MemberOnto(members, fmt, d + 1, WhenOnto(fmt, Tabs(d), [CLOSE_BRACE] + k)))
  {
    var close := WhenOnto(fmt, Tabs(d), [CLOSE_BRACE] + k);
    RestCons(s, off, OPEN_BRACE, WhenOnto(fmt, [NEWLINE], MembersOnto(members, fmt, d + 1, close)));
    if members.NoMember? {
      first := end - 1;
      SkipTwice(s, off + 1, fmt, Tabs(d), [CLOSE_BRACE] + k);
      RestCons(s, first, CLOSE_BRACE, k);
    } else {
      var text := MemberOnto(members, fmt, d + 1, close);
      SkipTwice(s, off + 1, fmt, Tabs(d + 1), text);
      first := |s| - |text|;
      RestFirst(s, first, text);
    }
  }

  /** A line end and an indent in front of a token are a gap. */
  lemma SkipTwice(s: Bytes, off: nat, fmt: bool, tabs: Bytes, t: Bytes)
    requires Rest(s, off, WhenOnto(fmt, [NEWLINE], WhenOnto(fmt, tabs, t))) && AllBlank(tabs) && t != [] && t[0] > 0x20
    ensures |t| <= |s| && Gap(s, off, |s| - |t|) && Rest(s, |s| - |t|, t)
  {
    if fmt {
      assert [NEWLINE] + (tabs + t) == ([NEWLINE] + tabs) + t;
      BlankIsGap(s, off, [NEWLINE] + tabs, t);
    } else {
      RestFirst(s, off, t);
    }
  }

  lemma {:induction false} PrintedMembersAre(members: Members, fmt: bool, d: nat, d': nat, k: Bytes, s: Bytes,
                                             before: nat, off: nat, end: nat, tok: Tokens)
    requires CString(s) && ReadsStrings(tok) && PrintableMembers(members) && ReadsMemberNumbers(tok, members)
    requires members.Member? && Gap(s, before, off) && k != [] && end + |k| == |s|
    requires Rest(s, off, MemberOnto(members, fmt, d, WhenOnto(fmt, Tabs(d'), [CLOSE_BRACE] + k)))
    ensures IsMembers(members, s, before, end, tok)
    decreases members, 1
  {
    hide Onto, MemberOnto, MoreMembersOnto, WhenOnto, Is, IsMembers, Rest, NumberByte, Tabs;
    var more := MoreMembersOnto(members.rest, fmt, d, WhenOnto(fmt, Tabs(d'), [CLOSE_BRACE] + k));
    var colon, value, o, next := MemberLayout(members, fmt, d, d', k, more, s, off, end, tok);
    PrintedIs(members.value, fmt, d, more, s, value, o, tok);
    if members.rest.Member? {
      PrintedMembersAre(members.rest, fmt, d, d', k, s, o + 1, next, end, tok);
      MembersFound(members, s, before, end, tok, off, colon, colon, value, o, o);
    } else {
      MembersFound(members, s, before, end, tok, off, colon, colon, value, o, end - 1);
    }
  }

  /** Where the parser finds the parts of a member. */
  lemma MemberLayout(members: Members, fmt: bool, d: nat, d': nat, k: Bytes, more: Bytes, s: Bytes, off: nat, end: nat,
                     tok: Tokens)
    returns (colon: nat, value: nat, o: nat, next: nat)
    requires CString(s) && ReadsStrings(tok) && members.Member? && PrintableMembers(members) && end + |k| == |s|
    requires more == MoreMembersOnto(members.rest, fmt, d, WhenOnto(fmt, Tabs(d'), [CLOSE_BRACE] + k))
    requires Rest(s, off, MemberOnto(members, fmt, d, WhenOnto(fmt, Tabs(d'), [CLOSE_BRACE] + k)))
    ensures off < |s| && s[off] == QUOTE && tok.str(s, off, colon, members.key)
    ensures Gap(s, colon, colon) && s[colon] == COLON
    ensures Gap(s, colon + 1, value) && Rest(s, value, Onto(members.value, fmt, d, more))
    ensures more != [] && !NumberByte(more[0]) && o + |more| == |s| && o < |s|
    ensures members.rest.NoMember? ==> end > 0 && Gap(s, o, end - 1) && s[end - 1] == CLOSE_BRACE
    ensures members.rest.Member? ==>
        && s[o] == COMMA && Gap(s, o, o) && Gap(s, o + 1, next)
        && Rest(s, next, MemberOnto(members.rest, fmt, d, WhenOnto(fmt, Tabs(d'), [CLOSE_BRACE] + k)))
  {
    colon, value := KeyRoundTrip(members, fmt, d, more, s, off, tok);
    MoreFirst(members.rest, fmt, d, d', k);
    o := AfterValue(members.value, fmt, d, more, s, value);
    next := AfterMember(members.rest, fmt, d, d', k, s, o, end);
  }

  lemma StringStarts(s: Bytes, off: nat, t: Bytes, k: Bytes)
    requires Rest(s, off, StringOnto(t, k))
    ensures off < |s| && s[off] == QUOTE
  {
    RestFirst(s, off, StringOnto(t, k));
  }

  /** The key of a member parses, and the parser finds the colon and the value after it. */
  lemma KeyRoundTrip(members: Members, fmt: bool, d: nat, more: Bytes, s: Bytes, off: nat, tok: Tokens)
    returns (colon: nat, value: nat)
    requires CString(s) && ReadsStrings(tok) && members.Member? && PrintableMembers(members)
    requires Rest(s, off, StringOnto(members.key, [COLON] + WhenOnto(fmt, [TAB], Onto(members.value, fmt, d, more))))
    ensures off < |s| && s[off] == QUOTE && tok.str(s, off, colon, members.key)
    ensures Gap(s, colon, colon) && s[colon] == COLON && Gap(s, colon + 1, value)
    ensures Rest(s, value, Onto(members.value, fmt, d, more))
  {
    hide Onto, StringOnto, EscapeOnto, PrintString, AllBlank;
    var text := Onto(members.value, fmt, d, more);
    var afterKey := [COLON] + WhenOnto(fmt, [TAB], text);
    StringOntoIs(members.key, afterKey);
    RestSplit(s, off, PrintString(members.key), afterKey);
    colon := off + |PrintString(members.key)|;
    StringStarts(s, off, members.key, afterKey);
    assert StringAt(s, off, colon, members.key, afterKey);
    RestCons(s, colon, COLON, WhenOnto(fmt, [TAB], text));
    FirstByte(members.value, fmt, d, more);
    WhenIsGap(s, colon + 1, fmt, [TAB], text);
    value := |s| - |text|;
  }

  lemma MoreFirst(rest: Members, fmt: bool, d: nat, d': nat, k: Bytes)
    ensures var more := MoreMembersOnto(rest, fmt, d, WhenOnto(fmt, Tabs(d'), [CLOSE_BRACE] + k));
            more != [] && !NumberByte(more[0])
  {
  }

  /** Where the parser finds the comma and the next key, or the closing brace. */
  lemma AfterMember(rest: Members, fmt: bool, d: nat, d': nat, k: Bytes, s: Bytes, o: nat, end: nat) returns (next: nat)
    requires Rest(s, o, MoreMembersOnto(rest, fmt, d, WhenOnto(fmt, Tabs(d'), [CLOSE_BRACE] + k))) && end + |k| == |s|
    ensures o < |s|
    ensures rest.NoMember? ==> end > 0 && Gap(s, o, end - 1) && s[end - 1] == CLOSE_BRACE
    ensures rest.Member? ==>
        && s[o] == COMMA && Gap(s, o, o) && Gap(s, o + 1, next)
        && Rest(s, next, MemberOnto(rest, fmt, d, WhenOnto(fmt, Tabs(d'), [CLOSE_BRACE] + k)))
  {
    var close := WhenOnto(fmt, Tabs(d'), [CLOSE_BRACE] + k);
    next := 0;
    if rest.Member? {
      RestCons(s, o, COMMA, WhenOnto(fmt, [NEWLINE], MembersOnto(rest, fmt, d, close)));
      var text := MemberOnto(rest, fmt, d, close);
      SkipTwice(s, o + 1, fmt, Tabs(d), text);
      next := |s| - |text|;
    } else {
      SkipTwice(s, o, fmt, Tabs(d'), [CLOSE_BRACE] + k);
      RestCons(s, end - 1, CLOSE_BRACE, k);
    }
  }

  /** Every number in the tree is one `strtod` accepts whole. */
  predicate NumbersAccepted(v: Value, strtod: Strtod) {
    match v
    case Number(t) => strtod(t) == |t|
    case Array(items) => ItemsAccepted(items, strtod)
    case Object(members) => MembersAccepted(members, strtod)
    case _ => true
  }

  predicate ItemsAccepted(items: Items, strtod: Strtod) {
    items.Item? ==> NumbersAccepted(items.head, strtod) && ItemsAccepted(items.tail, strtod)
  }

  predicate MembersAccepted(members: Members, strtod: Strtod) {
    members.Member? ==> NumbersAccepted(members.value, strtod) && MembersAccepted(members.rest, strtod)
  }

  lemma SpellingReadsStrings(strtod: Strtod)
    ensures ReadsStrings(Spelling(strtod))
  {
    hide IsString, IsNumber, ParseString;
    forall s, off: nat, end: nat, t, k | StringAt(s, off, end, t, k) ensures Spelling(strtod).str(s, off, end, t) {
      StringRoundTrip(s, off, end, t, k);
      StringStarts(s, off, t, k);
      ReadsLiterals(s, off, end, t);
    }
  }

  lemma SpellingReadsNumber(strtod: Strtod, t: Bytes)
    requires strtod(t) == |t|
    ensures ReadsNumber(Spelling(strtod), t)
  {
    hide IsString, IsNumber, ParseNumber;
    forall s, off: nat, end: nat, k | NumberAt(s, off, end, t, k) ensures Spelling(strtod).num(s, off, end, t) {
      NumberRoundTrip(s, off, end, t, k, strtod);
      ReadsNumbersAt(s, off, end, t, strtod);
    }
  }

  lemma {:induction false} SpellingReadsNumbers(strtod: Strtod, v: Value)
    requires NumbersAccepted(v, strtod)
    ensures ReadsNumbers(Spelling(strtod), v)
    decreases v, 0
  {
    hide Spelling;
    match v {
      case Number(t) => SpellingReadsNumber(strtod, t);
      case Array(items) => SpellingReadsItemNumbers(strtod, items);
      case Object(members) => SpellingReadsMemberNumbers(strtod, members);
      case _ =>
    }
  }

  lemma {:induction false} SpellingReadsItemNumbers(strtod: Strtod, items: Items)
    requires ItemsAccepted(items, strtod)
    ensures ReadsItemNumbers(Spelling(strtod), items)
    decreases items, 1
  {
    hide Spelling;
    if items.Item? {
      SpellingReadsNumbers(strtod, items.head);
      SpellingReadsItemNumbers(strtod, items.tail);
    }
  }

  lemma {:induction false} SpellingReadsMemberNumbers(strtod: Strtod, members: Members)
    requires MembersAccepted(members, strtod)
    ensures ReadsMemberNumbers(Spelling(strtod), members)
    decreases members, 1
  {
    hide Spelling;
    if members.Member? {
      SpellingReadsNumbers(strtod, members.value);
      SpellingReadsMemberNumbers(strtod, members.rest);
    }
  }

  /** Parsing the formatted or unformatted print of a tree gives the tree back, and stops at the
      terminator, exactly when the tree is nested no deeper than the limit. Otherwise it fails. */
  lemma DocumentRoundTrip(v: Value, fmt: bool, requireEnd: bool, strtod: Strtod)
    requires Printable(v) && NumbersAccepted(v, strtod)
    ensures var s := Print(v, fmt, 0) + [NUL];
            && CString(s) && WellBehaved(CJson(strtod))
            && var r := ParseDocument(s, requireEnd, CJson(strtod));
            && (Height(v) <= NESTING_LIMIT ==> r == Parsed(v, |s| - 1))
            && (Height(v) > NESTING_LIMIT ==> r.Failed?)
  {
    hide Is, WellBehaved, Printable, ReadsNumbers, ReadsStrings, ParseValue, Height, Spelling, Agree, CJson;
    var s, lex, tok := Print(v, fmt, 0) + [NUL], CJson(strtod), Spelling(strtod);
    OntoIs(v, fmt, 0, [NUL]);
    FirstByte(v, fmt, 0, [NUL]);
    PrintIsNulFree(v, fmt, 0);
    CJsonIsWellBehaved(strtod);
    SourceAgrees(strtod);
    SpellingReadsStrings(strtod);
    SpellingReadsNumbers(strtod, v);
    RestFirst(s, 0, Onto(v, fmt, 0, [NUL]));
    PrintedIs(v, fmt, 0, [NUL], s, 0, |s| - 1, tok);
    if Height(v) <= NESTING_LIMIT {
      IsParsed(v, s, 0, |s| - 1, 0, lex, tok);
    } else {
      DeepFails(v, s, 0, |s| - 1, 0, lex, tok);
    }
  }
}
