/** The cJSON parser on its `parse_buffer`: methods that move the offset, proved against the parser as a
    function. */
module JsonReader {
  import opened Bytes
  import opened Json
  import opened JsonParse
  import opened JsonText

  /** Outcome of a method: what it returned and where it left the offset. */
  ghost predicate Answers<T>(r: Parse<T>, ok: bool, v: T, offset: nat) {
    match r
    case Parsed(x, o) => ok && v == x && offset == o
    case Failed(o) => !ok && offset == o
  }

  /** The children collected so far, with more behind them. */
  function Chain(done: seq<Value>, items: Items): Items {
    if done == [] then items else Item(done[0], Chain(done[1..], items))
  }

  function ChainMembers(done: seq<(Bytes, Value)>, members: Members): Members {
    if done == [] then members else Member(done[0].0, done[0].1, ChainMembers(done[1..], members))
  }

  lemma {:induction false} ChainOneMore(done: seq<Value>, v: Value, items: Items)
    ensures Chain(done + [v], items) == Chain(done, Item(v, items))
    decreases |done|
  {
    if done == [] {
      assert done + [v] == [v];
    } else {
      assert (done + [v])[1..] == done[1..] + [v];
      ChainOneMore(done[1..], v, items);
    }
  }

  lemma {:induction false} ChainOneMoreMember(done: seq<(Bytes, Value)>, key: Bytes, v: Value, members: Members)
    ensures ChainMembers(done + [(key, v)], members) == ChainMembers(done, Member(key, v, members))
    decreases |done|
  {
    if done == [] {
      assert done + [(key, v)] == [(key, v)];
    } else {
      assert (done + [(key, v)])[1..] == done[1..] + [(key, v)];
      ChainOneMoreMember(done[1..], key, v, members);
    }
  }

  /** What the whole loop gives, when `done` has been read and `r` is still to come. */
  function After(done: seq<Value>, r: Parse<Items>): Parse<Items> {
    match r
    case Parsed(items, o) => Parsed(Chain(done, items), o)
    case Failed(o) => Failed(o)
  }

  function AfterMembers(done: seq<(Bytes, Value)>, r: Parse<Members>): Parse<Members> {
    match r
    case Parsed(members, o) => Parsed(ChainMembers(done, members), o)
    case Failed(o) => Failed(o)
  }

  /** The loop of `parse_number` that copies the number into a 64-byte buffer. */
  method CollectNumber(s: Bytes, off: nat, number: array<byte>) returns (i: nat)
    requires off <= |s| && number.Length == 64
    modifies number
    ensures i == NumberRun(s, off, 63) < 64 && off + i <= |s| && number[..i] == s[off..off + i]
  {
    hide NumberByte, NumberRun;
    i := 0;
    while i < 63 && off + i < |s| && NumberByte(s[off + i])
      invariant i <= 63 && off + i <= |s|
      invariant NumberRun(s, off, 63) == i + NumberRun(s, off + i, 63 - i)
      invariant forall j :: off <= j < off + i ==> number[j - off] == s[j]
    {
      RunStep(s, off + i, 63 - i);
      number[i] := s[off + i];
      i := i + 1;
    }
    RunStep(s, off + i, 63 - i);
    number[i] := NUL;
  }

  lemma RunStep(s: Bytes, off: nat, max: nat)
    requires off <= |s|
    ensures NumberRun(s, off, max)
         == if max == 0 || off == |s| || !NumberByte(s[off]) then 0 else 1 + NumberRun(s, off + 1, max - 1)
  {
  }

  lemma NothingDone(r: Parse<Items>)
    ensures After([], r) == r
  {
  }

  lemma NoMemberDone(r: Parse<Members>)
    ensures AfterMembers([], r) == r
  {
  }

  class ParseBuffer {
    const content: Bytes
    const strtod: Strtod
    var offset: nat
    var depth: nat

    ghost function Lex(): Lexer {
      CJson(strtod)
    }

    ghost predicate Valid()
      reads this
    {
      CString(content) && WellBehaved(Lex()) && offset < |content|
    }

    /** The parse buffer for a C string. */
    constructor (value: Bytes, strtod: Strtod)
      requires CString(value)
      ensures Valid() && content == value && this.strtod == strtod && offset == 0 && depth == 0
    {
      content, this.strtod, offset, depth := value, strtod, 0, 0;
      CJsonIsWellBehaved(strtod);
    }

    /** `buffer_skip_whitespace` */
    method SkipWhitespace()
      requires Valid()
      modifies this`offset
      ensures Valid() && offset == SkipWs(content, old(offset))
    {
      while offset < |content| && content[offset] <= 0x20
        invariant old(offset) <= offset <= |content|
        invariant SkipWs(content, old(offset)) == if offset < |content| then SkipWs(content, offset) else |content| - 1
        decreases |content| - offset
      {
        offset := offset + 1;
      }
      if offset == |content| {
        offset := offset - 1;
      }
    }

    /** `parse_string` */
    method ReadString() returns (ok: bool, text: Bytes)
      requires Valid()
      modifies this`offset
      ensures Answers(ParseString(content, old(offset)), ok, text, offset)
      ensures ok ==> Valid() && old(offset) < offset
    {
      hide WellBehaved;
      StringMoves(content, offset);
      text := [];
      var start, e, skipped, p, n := offset + 1, 0, 0, 0, 0;
      if content[offset] != QUOTE {
        offset := start;
        return false, text;
      }
      ok, e, skipped := ScanLoop(content, start);
      if !ok {
        offset := start;
        return;
      }
      var output := new byte[e - offset - skipped + 1];
      ok, p, n := DecodeLoop(content, start, e, output);
      if !ok {
        offset := p;
        return;
      }
      output[n] := NUL;
      text := CPrefix(output[..n]);
      offset := e + 1;
    }

    /** `parse_number` */
    method ReadNumber() returns (ok: bool, text: Bytes)
      requires Valid()
      modifies this`offset
      ensures Answers(ParseNumber(content, old(offset), strtod), ok, text, offset)
      ensures ok ==> Valid() && old(offset) < offset
    {
      hide WellBehaved, NumberRun, NumberByte;
      NumberMoves(content, offset, strtod);
      text := [];
      var number := new byte[64];
      var i := CollectNumber(content, offset, number);
      var end := strtod(number[..i]);
      if end == 0 || end > i {
        return false, text;
      }
      text := number[..i][..end];
      offset := offset + end;
      ok := true;
    }

    /** `parse_value` */
    method ReadValue() returns (ok: bool, v: Value)
      requires Valid()
      modifies this
      ensures Answers(ParseValue(content, old(offset), old(depth), Lex()), ok, v, offset)
      ensures ok ==> Valid() && depth == old(depth) && old(offset) < offset
      decreases |content| - offset, 1
    {
      hide WellBehaved, CString, SkipWs, ParseItems, ParseMembers, ParseString, ParseNumber;
      v := Null;
      var text;
      if NullAt(content, offset) {
        offset := offset + 4;
        return true, Null;
      }
      if FalseAt(content, offset) {
        offset := offset + 5;
        return true, False;
      }
      if TrueAt(content, offset) {
        offset := offset + 4;
        return true, True;
      }
      if content[offset] == QUOTE {
        ok, text := ReadString();
        return ok, String(text);
      }
      if content[offset] == 0x2D || 0x30 <= content[offset] <= 0x39 {
        ok, text := ReadNumber();
        return ok, Number(text);
      }
      if content[offset] == OPEN_BRACKET {
        ok, v := ReadArray();
        return;
      }
      if content[offset] == OPEN_BRACE {
        ok, v := ReadObject();
        return;
      }
      ok := false;
    }

    /** `parse_array` */
    method ReadArray() returns (ok: bool, v: Value)
      requires Valid() && content[offset] == OPEN_BRACKET
      modifies this
      ensures Answers(ParseValue(content, old(offset), old(depth), Lex()), ok, v, offset)
      ensures ok ==> Valid() && depth == old(depth) && old(offset) < offset
      decreases |content| - offset, 0
    {
      hide CJson, ParseValue, WellBehaved, CString, SkipWs, ParseItems, ParseMembers;
      ArrayTooDeep(content, offset, depth, Lex());
      v := Null;
      if depth >= NESTING_LIMIT {
        return false, v;
      }
      depth := depth + 1;
      offset := offset + 1;
      SkipWhitespace();
      ghost var first := offset;
      var items := NoItem;
      if content[offset] == CLOSE_BRACKET {
        NotLast(content, offset);
        offset := offset + 1;
      } else {
        offset := offset - 1;
        ok, items := ReadItems();
        if !ok {
          ArrayFails(content, old(offset), old(depth), Lex(), first, offset);
          return;
        }
      }
      ArrayStep(content, old(offset), old(depth), Lex(), first, items, offset);
      depth := depth - 1;
      return true, Array(items);
    }

    /** The loop of `parse_array`, entered one byte in front of the first child, up to and including the
        closing byte. */
    method ReadItems() returns (ok: bool, items: Items)
      requires Valid() && offset + 1 < |content|
      modifies this
      ensures Answers(ParseItems(content, old(offset) + 1, old(depth), Lex()), ok, items, offset)
      ensures ok ==> Valid() && depth == old(depth) && old(offset) + 1 < offset
      decreases |content| - offset - 1, 3
    {
      hide CJson, ParseValue, WellBehaved, CString, SkipWs, ParseItems, ParsesItem, Chain;
      items := NoItem;
      var done := [];
      ghost var all := ParseItems(content, offset + 1, depth, Lex());
      NothingDone(all);
      while true
        invariant old(offset) <= offset && offset + 1 < |content| && Valid() && depth == old(depth)
        invariant all == After(done, ParseItems(content, offset + 1, depth, Lex()))
        decreases |content| - offset
      {
        ghost var here := offset + 1;
        var x;
        ok, x := ReadItem();
        if !ok {
          ItemTurnFails(content, here, old(depth), Lex(), done, x, offset);
          return;
        }
        ItemTurn(content, here, depth, Lex(), done, x, offset);
        done := done + [x];
        if content[offset] != COMMA {
          break;
        }
      }
      if content[offset] != CLOSE_BRACKET {
        return false, items;
      }
      NotLast(content, offset);
      items := Chain(done, NoItem);
      offset := offset + 1;
    }

    /** One element: past the bracket or comma, the white space, the value and the white space after it. */
    method ReadItem() returns (ok: bool, x: Value)
      requires Valid() && offset + 1 < |content|
      modifies this
      ensures ParsesItem(content, old(offset) + 1, old(depth), Lex(), ok, x, offset)
      ensures ok ==> Valid() && depth == old(depth) && old(offset) + 1 < offset
      decreases |content| - offset - 1, 2
    {
      hide CJson, WellBehaved, CString, SkipWs, ParseValue;
      offset := offset + 1;
      SkipWhitespace();
      ok, x := ReadValue();
      if ok {
        SkipWhitespace();
      }
    }

    /** `parse_object` */
    method ReadObject() returns (ok: bool, v: Value)
      requires Valid() && content[offset] == OPEN_BRACE
      modifies this
      ensures Answers(ParseValue(content, old(offset), old(depth), Lex()), ok, v, offset)
      ensures ok ==> Valid() && depth == old(depth) && old(offset) < offset
      decreases |content| - offset, 0
    {
      hide CJson, ParseValue, WellBehaved, CString, SkipWs, ParseItems, ParseMembers;
      ObjectTooDeep(content, offset, depth, Lex());
      v := Null;
      if depth >= NESTING_LIMIT {
        return false, v;
      }
      depth := depth + 1;
      offset := offset + 1;
      SkipWhitespace();
      ghost var first := offset;
      var members := NoMember;
      if content[offset] == CLOSE_BRACE {
        NotLast(content, offset);
        offset := offset + 1;
      } else {
        offset := offset - 1;
        ok, members := ReadMembers();
        if !ok {
          ObjectFails(content, old(offset), old(depth), Lex(), first, offset);
          return;
        }
      }
      ObjectStep(content, old(offset), old(depth), Lex(), first, members, offset);
      depth := depth - 1;
      return true, Object(members);
    }

    /** The loop of `parse_object`, entered one byte in front of the first child, up to and including the
        closing byte. */
    method ReadMembers() returns (ok: bool, members: Members)
      requires Valid() && offset + 1 < |content|
      modifies this
      ensures Answers(ParseMembers(content, old(offset) + 1, old(depth), Lex()), ok, members, offset)
      ensures ok ==> Valid() && depth == old(depth) && old(offset) + 1 < offset
      decreases |content| - offset - 1, 3
    {
      hide CJson, ParseValue, WellBehaved, CString, SkipWs, ParseMembers, ParsesMember, ChainMembers;
      members := NoMember;
      var done := [];
      ghost var all := ParseMembers(content, offset + 1, depth, Lex());
      NoMemberDone(all);
      while true
        invariant old(offset) <= offset && offset + 1 < |content| && Valid() && depth == old(depth)
        invariant all == AfterMembers(done, ParseMembers(content, offset + 1, depth, Lex()))
        decreases |content| - offset
      {
        ghost var here := offset + 1;
        var key, x;
        ok, key, x := ReadMember();
        if !ok {
          MemberTurnFails(content, here, old(depth), Lex(), done, key, x, offset);
          return;
        }
        MemberTurn(content, here, depth, Lex(), done, key, x, offset);
        done := done + [(key, x)];
        if content[offset] != COMMA {
          break;
        }
      }
      if content[offset] != CLOSE_BRACE {
        return false, members;
      }
      NotLast(content, offset);
      members := ChainMembers(done, NoMember);
      offset := offset + 1;
    }

    /** One member: past the brace or comma, the name, the colon, the value and the white space after it. */
    method ReadMember() returns (ok: bool, key: Bytes, x: Value)
      requires Valid() && offset + 1 < |content|
      modifies this
      ensures ParsesMember(content, old(offset) + 1, old(depth), Lex(), ok, key, x, offset)
      ensures ok ==> Valid() && depth == old(depth) && old(offset) + 1 < offset
      decreases |content| - offset - 1, 2
    {
      hide WellBehaved, CString, SkipWs, ParseValue, ParseString;
      x := Null;
      offset := offset + 1;
      SkipWhitespace();
      ok, key := ReadString();
      if !ok {
        return;
      }
      SkipWhitespace();
      if content[offset] != COLON {
        return false, key, x;
      }
      NotLast(content, offset);
      offset := offset + 1;
      SkipWhitespace();
      ok, x := ReadValue();
      if ok {
        SkipWhitespace();
      }
    }

    /** `cJSON_ParseWithOpts`: `end` is the position it reports, which is always inside the text. */
    method ParseWithOpts(requireEnd: bool) returns (ok: bool, v: Value, end: nat)
      requires Valid() && offset == 0 && depth == 0
      modifies this
      ensures end < |content|
      ensures match ParseDocument(content, requireEnd, Lex())
              case Parsed(x, o) => ok && v == x && end == o
              case Failed(o) => !ok && end == if o < |content| then o else |content| - 1
    {
      hide WellBehaved, SkipWs, ParseValue;
      if |content| > 4 && content[0] == 0xEF && content[1] == 0xBB && content[2] == 0xBF {
        offset := 3;
      }
      SkipWhitespace();
      ok, v := ReadValue();
      if ok && requireEnd {
        SkipWhitespace();
        ok := content[offset] == NUL;
      }
      end := if offset < |content| then offset else |content| - 1;
    }
  }

  /** What reading one element from `off` on does: `o` is where the parser stands afterwards. */
  ghost predicate ParsesItem(s: Bytes, off: nat, depth: nat, lex: Lexer, ok: bool, x: Value, o: nat)
    requires CString(s) && off < |s| && WellBehaved(lex)
  {
    match ParseValue(s, SkipWs(s, off), depth, lex)
    case Failed(at) => !ok && o == at
    case Parsed(v, at) => ok && x == v && o == SkipWs(s, at)
  }

  /** The failing branches of `parse_value` for `[` and `{`. */
  lemma ArrayTooDeep(s: Bytes, off: nat, depth: nat, lex: Lexer)
    requires CString(s) && off < |s| && WellBehaved(lex) && s[off] == OPEN_BRACKET
    ensures off + 1 < |s|
    ensures depth >= NESTING_LIMIT ==> ParseValue(s, off, depth, lex) == Failed(off)
  {
  }

  lemma ArrayFails(s: Bytes, off: nat, depth: nat, lex: Lexer, first: nat, o: nat)
    requires CString(s) && WellBehaved(lex) && off + 1 < |s| && s[off] == OPEN_BRACKET && depth < NESTING_LIMIT
    requires SkipWs(s, off + 1) == first && s[first] != CLOSE_BRACKET
    requires ParseItems(s, first, depth + 1, lex) == Failed(o)
    ensures ParseValue(s, off, depth, lex) == Failed(o)
  {
    hide ParseItems, ParseMembers, SkipWs, WellBehaved;
  }

  lemma ObjectTooDeep(s: Bytes, off: nat, depth: nat, lex: Lexer)
    requires CString(s) && off < |s| && WellBehaved(lex) && s[off] == OPEN_BRACE
    ensures off + 1 < |s|
    ensures depth >= NESTING_LIMIT ==> ParseValue(s, off, depth, lex) == Failed(off)
  {
  }

  lemma ObjectFails(s: Bytes, off: nat, depth: nat, lex: Lexer, first: nat, o: nat)
    requires CString(s) && WellBehaved(lex) && off + 1 < |s| && s[off] == OPEN_BRACE && depth < NESTING_LIMIT
    requires SkipWs(s, off + 1) == first && s[first] != CLOSE_BRACE
    requires ParseMembers(s, first, depth + 1, lex) == Failed(o)
    ensures ParseValue(s, off, depth, lex) == Failed(o)
  {
    hide ParseItems, ParseMembers, SkipWs, WellBehaved;
  }

  lemma ItemTurnFails(s: Bytes, off: nat, depth: nat, lex: Lexer, done: seq<Value>, x: Value, o: nat)
    requires CString(s) && off < |s| && WellBehaved(lex) && ParsesItem(s, off, depth, lex, false, x, o)
    ensures After(done, ParseItems(s, off, depth, lex)) == Failed(o)
  {
  }

  lemma MemberTurnFails(s: Bytes, off: nat, depth: nat, lex: Lexer, done: seq<(Bytes, Value)>, key: Bytes, x: Value,
                        o: nat)
    requires CString(s) && off < |s| && WellBehaved(lex) && ParsesMember(s, off, depth, lex, false, key, x, o)
    ensures AfterMembers(done, ParseMembers(s, off, depth, lex)) == Failed(o)
  {
    hide ParseValue, SkipWs;
  }

  lemma ItemTurn(s: Bytes, off: nat, depth: nat, lex: Lexer, done: seq<Value>, x: Value, o: nat)
    requires CString(s) && off < |s| && WellBehaved(lex) && ParsesItem(s, off, depth, lex, true, x, o)
    ensures off < o < |s|
    ensures s[o] == CLOSE_BRACKET ==>
            After(done, ParseItems(s, off, depth, lex)) == Parsed(Chain(done + [x], NoItem), o + 1)
    ensures s[o] != CLOSE_BRACKET && s[o] != COMMA ==> After(done, ParseItems(s, off, depth, lex)) == Failed(o)
    ensures s[o] == COMMA ==>
            o + 1 < |s| && After(done, ParseItems(s, off, depth, lex)) ==
                After(done + [x], ParseItems(s, o + 1, depth, lex))
  {
    hide ParseValue, SkipWs, WellBehaved;
    if s[o] == COMMA {
      NotLast(s, o);
      if ParseItems(s, o + 1, depth, lex).Parsed? {
        ChainOneMore(done, x, ParseItems(s, o + 1, depth, lex).value);
      }
    }
    ChainOneMore(done, x, NoItem);
  }

  /** What reading one member from `off` on does. */
  ghost predicate ParsesMember(s: Bytes, off: nat, depth: nat, lex: Lexer, ok: bool, key: Bytes, x: Value, o: nat)
    requires CString(s) && off < |s| && WellBehaved(lex)
  {
    match lex.readString(s, SkipWs(s, off))
    case Failed(at) => !ok && o == at
    case Parsed(k, at) =>
      var colon := SkipWs(s, at);
      if s[colon] != COLON then !ok && o == colon
      else match ParseValue(s, SkipWs(s, colon + 1), depth, lex)
        case Failed(at) => !ok && o == at
        case Parsed(v, at) => ok && key == k && x == v && o == SkipWs(s, at)
  }

  lemma MemberTurn(s: Bytes, off: nat, depth: nat, lex: Lexer, done: seq<(Bytes, Value)>, key: Bytes, x: Value, o: nat)
    requires CString(s) && off < |s| && WellBehaved(lex) && ParsesMember(s, off, depth, lex, true, key, x, o)
    ensures off < o < |s|
    ensures s[o] == CLOSE_BRACE ==>
            AfterMembers(done, ParseMembers(s, off, depth, lex)) ==
                Parsed(ChainMembers(done + [(key, x)], NoMember), o + 1)
    ensures s[o] != CLOSE_BRACE && s[o] != COMMA ==> AfterMembers(done, ParseMembers(s, off, depth, lex)) == Failed(o)
    ensures s[o] == COMMA ==>
            o + 1 < |s| && AfterMembers(done, ParseMembers(s, off, depth, lex)) ==
                AfterMembers(done + [(key, x)], ParseMembers(s, o + 1, depth, lex))
  {
    hide ParseValue, SkipWs;
    if s[o] == COMMA {
      NotLast(s, o);
      if ParseMembers(s, o + 1, depth, lex).Parsed? {
        ChainOneMoreMember(done, key, x, ParseMembers(s, o + 1, depth, lex).value);
      }
    }
    ChainOneMoreMember(done, key, x, NoMember);
  }
}
