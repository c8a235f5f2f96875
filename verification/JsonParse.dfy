/** The cJSON parser as a function of the buffer, the offset and the nesting depth. Its structure is
    given for any way of reading strings and numbers; `CJson` is the one the source has. */
module JsonParse {
  import opened Bytes
  import opened Json
  import opened JsonString

  datatype Parse<T> = Parsed(value: T, off: nat) | Failed(off: nat)

  /** The buffer `cJSON_ParseWithOpts` sets up: a C string with its terminator. */
  predicate CString(s: Bytes) {
    |s| > 0 && s[|s| - 1] == NUL && forall i :: 0 <= i < |s| - 1 ==> s[i] != NUL
  }

  /** How strings and numbers are read. */
  datatype Lexer = Lexer(readString: (Bytes, nat) -> Parse<Bytes>, readNumber: (Bytes, nat) -> Parse<Bytes>)

  ghost predicate Moves(r: Parse<Bytes>, s: Bytes, off: nat) {
    match r
    case Parsed(_, o) => off < o < |s|
    case Failed(o) => o <= |s|
  }

  /** Reading a token of a C string moves forward, stays in front of the terminator on success, and
      leaves the offset at most one past the terminator on failure. */
  ghost predicate WellBehaved(lex: Lexer) {
    && (forall s, off: nat :: CString(s) && off < |s| ==> Moves(lex.readString(s, off), s, off))
    && (forall s, off: nat :: CString(s) && off < |s| ==> Moves(lex.readNumber(s, off), s, off))
  }

  /** `buffer_skip_whitespace` */
  function SkipWs(s: Bytes, off: nat): (r: nat)
    requires off < |s|
    ensures off <= r < |s| && (s[r] <= 0x20 ==> r == |s| - 1)
    decreases |s| - off
  {
    if s[off] > 0x20 then off
    else if off + 1 == |s| then off
    else SkipWs(s, off + 1)
  }

  predicate NullAt(s: Bytes, off: nat) {
    off + 4 <= |s| && s[off] == 0x6E && s[off + 1] == 0x75 && s[off + 2] == 0x6C && s[off + 3] == 0x6C
  }

  predicate FalseAt(s: Bytes, off: nat) {
    off + 5 <= |s| && s[off] == 0x66 && s[off + 1] == 0x61 && s[off + 2] == 0x6C && s[off + 3] == 0x73
        && s[off + 4] == 0x65
  }

  predicate TrueAt(s: Bytes, off: nat) {
    off + 4 <= |s| && s[off] == 0x74 && s[off + 1] == 0x72 && s[off + 2] == 0x75 && s[off + 3] == 0x65
  }

  /** `parse_value` */
  function ParseValue(s: Bytes, off: nat, depth: nat, lex: Lexer): (r: Parse<Value>)
    requires CString(s) && off < |s| && WellBehaved(lex)
    ensures r.Parsed? ==> off < r.off < |s|
    ensures r.Failed? ==> r.off <= |s|
    decreases |s| - off, 0
  {
    if NullAt(s, off) then Parsed(Null, off + 4)
    else if FalseAt(s, off) then Parsed(False, off + 5)
    else if TrueAt(s, off) then Parsed(True, off + 4)
    else if s[off] == QUOTE then
      match lex.readString(s, off)
      case Parsed(text, o) => Parsed(String(text), o)
      case Failed(o) => Failed(o)
    else if s[off] == 0x2D || 0x30 <= s[off] <= 0x39 then
      match lex.readNumber(s, off)
      case Parsed(text, o) => Parsed(Number(text), o)
      case Failed(o) => Failed(o)
    else if s[off] == OPEN_BRACKET then
      if depth >= NESTING_LIMIT then Failed(off)
      else
        var first := SkipWs(s, off + 1);
        if s[first] == CLOSE_BRACKET then Parsed(Array(NoItem), first + 1)
        else match ParseItems(s, first, depth + 1, lex)
          case Parsed(items, o) => Parsed(Array(items), o)
          case Failed(o) => Failed(o)
    else if s[off] == OPEN_BRACE then
      if depth >= NESTING_LIMIT then Failed(off)
      else
        var first := SkipWs(s, off + 1);
        if s[first] == CLOSE_BRACE then Parsed(Object(NoMember), first + 1)
        else match ParseMembers(s, first, depth + 1, lex)
          case Parsed(members, o) => Parsed(Object(members), o)
          case Failed(o) => Failed(o)
    else Failed(off)
  }

  /** The loop of `parse_array` from the text of an element up to and including the bracket. */
  function ParseItems(s: Bytes, off: nat, depth: nat, lex: Lexer): (r: Parse<Items>)
    requires CString(s) && off < |s| && WellBehaved(lex)
    ensures r.Parsed? ==> off < r.off < |s|
    ensures r.Failed? ==> r.off <= |s|
    decreases |s| - off, 1
  {
    match ParseValue(s, SkipWs(s, off), depth, lex)
    case Failed(o) => Failed(o)
    case Parsed(v, o) =>
      var next := SkipWs(s, o);
      if s[next] == CLOSE_BRACKET then Parsed(Item(v, NoItem), next + 1)
      else if s[next] != COMMA then Failed(next)
      else match ParseItems(s, next + 1, depth, lex)
        case Failed(o) => Failed(o)
        case Parsed(items, o) => Parsed(Item(v, items), o)
  }

  /** The loop of `parse_object` from the text of a member up to and including the brace. */
  function ParseMembers(s: Bytes, off: nat, depth: nat, lex: Lexer): (r: Parse<Members>)
    requires CString(s) && off < |s| && WellBehaved(lex)
    ensures r.Parsed? ==> off < r.off < |s|
    ensures r.Failed? ==> r.off <= |s|
    decreases |s| - off, 1
  {
    match lex.readString(s, SkipWs(s, off))
    case Failed(o) => Failed(o)
    case Parsed(key, o) =>
      var colon := SkipWs(s, o);
      if s[colon] != COLON then Failed(colon)
      else match ParseValue(s, SkipWs(s, colon + 1), depth, lex)
        case Failed(o) => Failed(o)
        case Parsed(v, o) =>
          var next := SkipWs(s, o);
          if s[next] == CLOSE_BRACE then Parsed(Member(key, v, NoMember), next + 1)
          else if s[next] != COMMA then Failed(next)
          else match ParseMembers(s, next + 1, depth, lex)
            case Failed(o) => Failed(o)
            case Parsed(members, o) => Parsed(Member(key, v, members), o)
  }

  /** The branch of `parse_value` for `[`. */
  lemma ArrayStep(s: Bytes, off: nat, depth: nat, lex: Lexer, first: nat, items: Items, end: nat)
    requires CString(s) && WellBehaved(lex) && off + 1 < |s| && s[off] == OPEN_BRACKET && depth < NESTING_LIMIT
    requires SkipWs(s, off + 1) == first
    requires if s[first] == CLOSE_BRACKET then items == NoItem && end == first + 1
             else ParseItems(s, first, depth + 1, lex) == Parsed(items, end)
    ensures ParseValue(s, off, depth, lex) == Parsed(Array(items), end)
  {
  }

  /** The branch of `parse_value` for `{`. */
  lemma ObjectStep(s: Bytes, off: nat, depth: nat, lex: Lexer, first: nat, members: Members, end: nat)
    requires CString(s) && WellBehaved(lex) && off + 1 < |s| && s[off] == OPEN_BRACE && depth < NESTING_LIMIT
    requires SkipWs(s, off + 1) == first
    requires if s[first] == CLOSE_BRACE then members == NoMember && end == first + 1
             else ParseMembers(s, first, depth + 1, lex) == Parsed(members, end)
    ensures ParseValue(s, off, depth, lex) == Parsed(Object(members), end)
  {
  }

  /** One turn of the loop of `parse_array`. */
  lemma ItemsStep(s: Bytes, before: nat, off: nat, depth: nat, lex: Lexer, o: nat, next: nat, items: Items, end: nat)
    requires CString(s) && WellBehaved(lex) && before < |s| && SkipWs(s, before) == off && items.Item?
    requires ParseValue(s, off, depth, lex) == Parsed(items.head, o) && SkipWs(s, o) == next
    requires if s[next] == CLOSE_BRACKET then items.tail == NoItem && end == next + 1
             else s[next] == COMMA && ParseItems(s, next + 1, depth, lex) == Parsed(items.tail, end)
    ensures ParseItems(s, before, depth, lex) == Parsed(items, end)
  {
    hide SkipWs, ParseValue, WellBehaved;
  }

  /** One turn of the loop of `parse_object`. */
  lemma MembersStep(s: Bytes, before: nat, off: nat, depth: nat, lex: Lexer, keyEnd: nat, colon: nat, value: nat,
                    o: nat, next: nat, members: Members, end: nat)
    requires CString(s) && WellBehaved(lex) && before < |s| && SkipWs(s, before) == off && members.Member?
    requires lex.readString(s, off) == Parsed(members.key, keyEnd) && keyEnd < |s| && SkipWs(s, keyEnd) == colon
    requires s[colon] == COLON && colon + 1 < |s| && SkipWs(s, colon + 1) == value
    requires ParseValue(s, value, depth, lex) == Parsed(members.value, o) && SkipWs(s, o) == next
    requires if s[next] == CLOSE_BRACE then members.rest == NoMember && end == next + 1
             else
               && s[next] == COMMA && next + 1 < |s|
               && ParseMembers(s, next + 1, depth, lex) == Parsed(members.rest, end)
    ensures ParseMembers(s, before, depth, lex) == Parsed(members, end)
  {
    hide SkipWs, ParseValue, CString, WellBehaved;
  }

  /** `parse_value` fails at a bracket or brace that is too deep, and where what it opens does not parse. */
  lemma OpenFails(s: Bytes, off: nat, depth: nat, lex: Lexer, first: nat)
    requires CString(s) && WellBehaved(lex) && off + 1 < |s| && SkipWs(s, off + 1) == first
    requires s[off] == OPEN_BRACKET || s[off] == OPEN_BRACE
    requires || depth >= NESTING_LIMIT
             || (s[off] == OPEN_BRACKET && s[first] != CLOSE_BRACKET && ParseItems(s, first, depth + 1, lex).Failed?)
             || (s[off] == OPEN_BRACE && s[first] != CLOSE_BRACE && ParseMembers(s, first, depth + 1, lex).Failed?)
    ensures ParseValue(s, off, depth, lex).Failed?
  {
    hide CString, WellBehaved, SkipWs, ParseItems, ParseMembers;
  }

  /** One turn of the loop of `parse_object` that fails at the value or after it. */
  lemma MemberFails(s: Bytes, before: nat, off: nat, depth: nat, lex: Lexer, key: Bytes, keyEnd: nat, colon: nat,
                    value: nat, v: Value, o: nat, next: nat)
    requires CString(s) && WellBehaved(lex) && before < |s| && SkipWs(s, before) == off
    requires lex.readString(s, off) == Parsed(key, keyEnd) && keyEnd < |s| && SkipWs(s, keyEnd) == colon
    requires s[colon] == COLON && colon + 1 < |s| && SkipWs(s, colon + 1) == value
    requires || ParseValue(s, value, depth, lex).Failed?
             || (&& ParseValue(s, value, depth, lex) == Parsed(v, o) && SkipWs(s, o) == next && s[next] == COMMA
                 && next + 1 < |s| && ParseMembers(s, next + 1, depth, lex).Failed?)
    ensures ParseMembers(s, before, depth, lex).Failed?
  {
    hide SkipWs, ParseValue, CString, WellBehaved;
  }

  /** What one turn of the loop of `parse_object` that succeeds has read. */
  lemma MembersTurn(s: Bytes, off: nat, depth: nat, lex: Lexer)
    returns (first: nat, keyEnd: nat, colon: nat, value: nat, end: nat, next: nat)
    requires CString(s) && WellBehaved(lex) && off < |s| && ParseMembers(s, off, depth, lex).Parsed?
    ensures var r := ParseMembers(s, off, depth, lex);
            && r.value.Member? && SkipWs(s, off) == first && lex.readString(s, first) == Parsed(r.value.key, keyEnd)
            && keyEnd < |s| && SkipWs(s, keyEnd) == colon && s[colon] == COLON && colon + 1 < |s|
            && SkipWs(s, colon + 1) == value && off < value
            && ParseValue(s, value, depth, lex) == Parsed(r.value.value, end) && SkipWs(s, end) == next && off < next
            && (if s[next] == CLOSE_BRACE then r.value.rest.NoMember? && r.off == next + 1
                else
                  && s[next] == COMMA && next + 1 < |s|
                  && ParseMembers(s, next + 1, depth, lex) == Parsed(r.value.rest, r.off))
  {
    hide SkipWs, ParseValue, CString;
    first := SkipWs(s, off);
    assert Moves(lex.readString(s, first), s, first);
    hide WellBehaved;
    keyEnd := lex.readString(s, first).off;
    colon := SkipWs(s, keyEnd);
    NotLast(s, colon);
    value := SkipWs(s, colon + 1);
    end := ParseValue(s, value, depth, lex).off;
    next := SkipWs(s, end);
    if s[next] == COMMA {
      NotLast(s, next);
    }
  }

  /** A byte that is not white space is where the parser stands. */
  lemma SkipNone(s: Bytes, o: nat)
    requires o < |s| && s[o] > 0x20
    ensures SkipWs(s, o) == o
  {
  }

  /** A byte in front of the terminator is not the last one. */
  lemma NotLast(s: Bytes, off: nat)
    requires CString(s) && off < |s| && s[off] != NUL
    ensures off + 1 < |s|
  {
  }

  /** `skip_utf8_bom` */
  function SkipBom(s: Bytes): (off: nat)
    requires CString(s)
    ensures off < |s|
  {
    if |s| > 4 && s[0] == 0xEF && s[1] == 0xBB && s[2] == 0xBF then 3 else 0
  }

  /** `cJSON_ParseWithOpts` */
  function ParseDocument(s: Bytes, requireEnd: bool, lex: Lexer): (r: Parse<Value>)
    requires CString(s) && WellBehaved(lex)
    ensures r.Parsed? ==> r.off < |s|
    ensures r.Failed? ==> r.off <= |s|
  {
    match ParseValue(s, SkipWs(s, SkipBom(s)), 0, lex)
    case Failed(o) => Failed(o)
    case Parsed(v, o) =>
      if !requireEnd then Parsed(v, o)
      else
        var end := SkipWs(s, o);
        if s[end] == NUL then Parsed(v, end) else Failed(end)
  }

  /** The part of a decoded string C code sees. */
  function CPrefix(b: Bytes): (r: Bytes)
    ensures NulFree(b) ==> r == b
  {
    if b == [] || b[0] == NUL then [] else [b[0]] + CPrefix(b[1..])
  }

  /** `parse_string` */
  function ParseString(s: Bytes, off: nat): Parse<Bytes> {
    if off >= |s| || s[off] != QUOTE then Failed(off + 1)
    else match ScanString(s, off + 1)
      case Unterminated => Failed(off + 1)
      case Closed(e, _) =>
        match Decode(s, off + 1, e)
        case Decoded(out) => Parsed(CPrefix(out), e + 1)
        case BadEscape(at) => Failed(at)
  }

  lemma {:induction false} DecodeFailsInside(turn: Turn, s: Bytes, p: nat, e: nat)
    ensures DecodeWith(turn, s, p, e).BadEscape? ==> DecodeWith(turn, s, p, e).at < e
    decreases e - p
  {
    if p < e && turn(s, p, e).Literal? && turn(s, p, e).len > 0 {
      DecodeFailsInside(turn, s, p + turn(s, p, e).len, e);
    }
  }

  lemma StringMoves(s: Bytes, off: nat)
    requires CString(s) && off < |s|
    ensures Moves(ParseString(s, off), s, off)
  {
    if s[off] == QUOTE && ScanString(s, off + 1).Closed? {
      DecodeFailsInside(SourceTurn, s, off + 1, ScanString(s, off + 1).end);
    }
  }

  /** `strtod` seen from here: how many bytes of the collected number text it accepts. */
  type Strtod = Bytes -> nat

  /** Number of bytes the loop of `parse_number` collects, at most `max`. */
  function NumberRun(s: Bytes, off: nat, max: nat): (n: nat)
    requires off <= |s|
    ensures n <= max && off + n <= |s| && forall i :: off <= i < off + n ==> NumberByte(s[i])
    decreases max
  {
    if max == 0 || off == |s| || !NumberByte(s[off]) then 0 else 1 + NumberRun(s, off + 1, max - 1)
  }

  /** `parse_number` */
  function ParseNumber(s: Bytes, off: nat, strtod: Strtod): Parse<Bytes> {
    if off > |s| then Failed(off)
    else
      var run := s[off..off + NumberRun(s, off, 63)];
      var n := strtod(run);
      if n == 0 || n > |run| then Failed(off) else Parsed(run[..n], off + n)
  }

  lemma NumberMoves(s: Bytes, off: nat, strtod: Strtod)
    requires CString(s) && off < |s|
    ensures Moves(ParseNumber(s, off, strtod), s, off)
  {
  }

  /** The readers of the source. */
  function CJson(strtod: Strtod): Lexer {
    Lexer((s: Bytes, off: nat) => ParseString(s, off), (s: Bytes, off: nat) => ParseNumber(s, off, strtod))
  }

  lemma CJsonIsWellBehaved(strtod: Strtod)
    ensures WellBehaved(CJson(strtod))
  {
    forall s, off: nat | CString(s) && off < |s| ensures Moves(CJson(strtod).readString(s, off), s, off) {
      StringMoves(s, off);
    }
    forall s, off: nat | CString(s) && off < |s| ensures Moves(CJson(strtod).readNumber(s, off), s, off) {
      NumberMoves(s, off, strtod);
    }
  }
}
