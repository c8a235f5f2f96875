/** Exactly when a failed parse leaves the offset past the terminator. */
module JsonParseEnd {
  import opened Bytes
  import opened Json
  import opened JsonString
  import opened JsonParse

  /** A reader of strings passes the end only from the terminator itself, a reader of numbers never. */
  ghost predicate Ends(lex: Lexer) {
    && WellBehaved(lex)
    && (forall s, off: nat :: CString(s) && off < |s| ==> (lex.readString(s, off).off == |s| <==> off == |s| - 1))
    && (forall s, off: nat :: CString(s) && off < |s| ==> lex.readNumber(s, off).off < |s|)
  }

  lemma StringEnds(s: Bytes, off: nat)
    requires CString(s) && off < |s|
    ensures ParseString(s, off).off == |s| <==> off == |s| - 1
  {
    if s[off] == QUOTE && ScanString(s, off + 1).Closed? {
      DecodeFailsInside(SourceTurn, s, off + 1, ScanString(s, off + 1).end);
    }
  }

  lemma CJsonEnds(strtod: Strtod)
    ensures Ends(CJson(strtod))
  {
    CJsonIsWellBehaved(strtod);
    forall s, off: nat | CString(s) && off < |s|
        ensures CJson(strtod).readString(s, off).off == |s| <==> off == |s| - 1 {
      StringEnds(s, off);
    }
  }

  /** The value at `off` is cut off by the terminator inside an object, where a member name has to come. */
  ghost predicate NameDue(s: Bytes, off: nat, depth: nat, lex: Lexer)
    requires CString(s) && off < |s| && WellBehaved(lex)
    decreases |s| - off, 0
  {
    && depth < NESTING_LIMIT
    && (s[off] == OPEN_BRACKET ==>
         s[SkipWs(s, off + 1)] != CLOSE_BRACKET && NameDueInItems(s, SkipWs(s, off + 1), depth + 1, lex))
    && (s[off] == OPEN_BRACE ==>
         s[SkipWs(s, off + 1)] != CLOSE_BRACE && NameDueInMembers(s, SkipWs(s, off + 1), depth + 1, lex))
    && (s[off] == OPEN_BRACKET || s[off] == OPEN_BRACE)
  }

  /** So does the element at `off`, or one that follows it. */
  ghost predicate NameDueInItems(s: Bytes, off: nat, depth: nat, lex: Lexer)
    requires CString(s) && off < |s| && WellBehaved(lex)
    decreases |s| - off, 1
  {
    var v := SkipWs(s, off);
    var r := ParseValue(s, v, depth, lex);
    if r.Failed? then NameDue(s, v, depth, lex)
    else s[SkipWs(s, r.off)] == COMMA && NameDueInItems(s, SkipWs(s, r.off) + 1, depth, lex)
  }

  /** The name at `off` is due, or one inside the member at `off` or behind it. */
  ghost predicate NameDueInMembers(s: Bytes, off: nat, depth: nat, lex: Lexer)
    requires CString(s) && off < |s| && WellBehaved(lex)
    decreases |s| - off, 1
  {
    var name := SkipWs(s, off);
    var key := lex.readString(s, name);
    name == |s| - 1 ||
    (key.Parsed? && s[SkipWs(s, key.off)] == COLON &&
     var v := SkipWs(s, SkipWs(s, key.off) + 1);
     var r := ParseValue(s, v, depth, lex);
     if r.Failed? then NameDue(s, v, depth, lex)
     else s[SkipWs(s, r.off)] == COMMA && NameDueInMembers(s, SkipWs(s, r.off) + 1, depth, lex))
  }

  lemma {:induction false} ValueEnds(s: Bytes, off: nat, depth: nat, lex: Lexer)
    requires CString(s) && off < |s| && Ends(lex)
    ensures ParseValue(s, off, depth, lex).off == |s| <==> NameDue(s, off, depth, lex)
    decreases |s| - off, 0
  {
    if s[off] == OPEN_BRACKET && depth < NESTING_LIMIT && s[SkipWs(s, off + 1)] != CLOSE_BRACKET {
      ItemsEnd(s, SkipWs(s, off + 1), depth + 1, lex);
    } else if s[off] == OPEN_BRACE && depth < NESTING_LIMIT && s[SkipWs(s, off + 1)] != CLOSE_BRACE {
      MembersEnd(s, SkipWs(s, off + 1), depth + 1, lex);
    }
  }

  lemma {:induction false} ItemsEnd(s: Bytes, off: nat, depth: nat, lex: Lexer)
    requires CString(s) && off < |s| && Ends(lex)
    ensures ParseItems(s, off, depth, lex).off == |s| <==> NameDueInItems(s, off, depth, lex)
    decreases |s| - off, 1
  {
    hide NameDue, ParseValue;
    var v := SkipWs(s, off);
    var r := ParseValue(s, v, depth, lex);
    ValueEnds(s, v, depth, lex);
    if r.Parsed? && s[SkipWs(s, r.off)] == COMMA {
      ItemsEnd(s, SkipWs(s, r.off) + 1, depth, lex);
    }
  }

  lemma {:induction false} MembersEnd(s: Bytes, off: nat, depth: nat, lex: Lexer)
    requires CString(s) && off < |s| && Ends(lex)
    ensures ParseMembers(s, off, depth, lex).off == |s| <==> NameDueInMembers(s, off, depth, lex)
    decreases |s| - off, 1
  {
    hide NameDue, ParseValue, SkipWs;
    var name := SkipWs(s, off);
    var key := lex.readString(s, name);
    if key.Parsed? && s[SkipWs(s, key.off)] == COLON {
      var v := SkipWs(s, SkipWs(s, key.off) + 1);
      var r := ParseValue(s, v, depth, lex);
      ValueEnds(s, v, depth, lex);
      if r.Parsed? && s[SkipWs(s, r.off)] == COMMA {
        MembersEnd(s, SkipWs(s, r.off) + 1, depth, lex);
      }
    }
  }

  /** A parse leaves the offset past the terminator exactly if the text ends inside an object where a member
      name has to come. */
  lemma PassesTheEndIff(s: Bytes, requireEnd: bool, strtod: Strtod)
    requires CString(s)
    ensures WellBehaved(CJson(strtod))
    ensures ParseDocument(s, requireEnd, CJson(strtod)).off == |s| <==>
            NameDue(s, SkipWs(s, SkipBom(s)), 0, CJson(strtod))
  {
    CJsonEnds(strtod);
    ValueEnds(s, SkipWs(s, SkipBom(s)), 0, CJson(strtod));
  }

  /** The last byte that is not white space, or NUL. */
  function LastSolid(s: Bytes): byte {
    if s == [] then NUL else if s[|s| - 1] > 0x20 then s[|s| - 1] else LastSolid(s[..|s| - 1])
  }

  lemma {:induction false} LastSolidIs(s: Bytes, q: nat)
    requires q < |s| && s[q] > 0x20 && forall i :: q < i < |s| ==> s[i] <= 0x20
    ensures LastSolid(s) == s[q]
    decreases |s|
  {
    if q < |s| - 1 {
      LastSolidIs(s[..|s| - 1], q);
    }
  }

  lemma {:induction false} SkipsWhite(s: Bytes, off: nat)
    requires off < |s|
    ensures forall i :: off <= i < SkipWs(s, off) ==> s[i] <= 0x20
    decreases |s| - off
  {
    if s[off] <= 0x20 && off + 1 < |s| {
      SkipsWhite(s, off + 1);
    }
  }

  /** `off` is behind a brace or a comma, with nothing but white space between. */
  ghost predicate BehindBreak(s: Bytes, off: nat) {
    exists q: nat :: q < off <= |s| && (s[q] == OPEN_BRACE || s[q] == COMMA) && forall i :: q < i < off ==> s[i] <= 0x20
  }

  lemma NameAtEnd(s: Bytes, off: nat)
    requires CString(s) && off < |s| && BehindBreak(s, off) && SkipWs(s, off) == |s| - 1
    ensures LastSolid(s) in {OPEN_BRACE, COMMA}
  {
    var q: nat :| q < off <= |s| && (s[q] == OPEN_BRACE || s[q] == COMMA) && forall i :: q < i < off ==> s[i] <= 0x20;
    SkipsWhite(s, off);
    LastSolidIs(s, q);
  }

  lemma BehindSkip(s: Bytes, q: nat)
    requires q + 1 < |s| && (s[q] == OPEN_BRACE || s[q] == COMMA)
    ensures BehindBreak(s, q + 1) && BehindBreak(s, SkipWs(s, q + 1))
  {
    SkipsWhite(s, q + 1);
  }

  lemma {:induction false} NameDueLast(s: Bytes, off: nat, depth: nat, lex: Lexer)
    requires CString(s) && off < |s| && WellBehaved(lex) && NameDue(s, off, depth, lex)
    ensures LastSolid(s) in {OPEN_BRACE, COMMA}
    decreases |s| - off, 0
  {
    hide LastSolid, ParseValue, BehindBreak, WellBehaved;
    if s[off] == OPEN_BRACKET {
      NameDueLastInItems(s, SkipWs(s, off + 1), depth + 1, lex);
    } else {
      BehindSkip(s, off);
      NameDueLastInMembers(s, SkipWs(s, off + 1), depth + 1, lex);
    }
  }

  lemma {:induction false} NameDueLastInItems(s: Bytes, off: nat, depth: nat, lex: Lexer)
    requires CString(s) && off < |s| && WellBehaved(lex) && NameDueInItems(s, off, depth, lex)
    ensures LastSolid(s) in {OPEN_BRACE, COMMA}
    decreases |s| - off, 1
  {
    hide LastSolid, ParseValue, NameDue, WellBehaved;
    var v := SkipWs(s, off);
    var r := ParseValue(s, v, depth, lex);
    if r.Failed? {
      NameDueLast(s, v, depth, lex);
    } else {
      NameDueLastInItems(s, SkipWs(s, r.off) + 1, depth, lex);
    }
  }

  lemma {:induction false} NameDueLastInMembers(s: Bytes, off: nat, depth: nat, lex: Lexer)
    requires CString(s) && off < |s| && WellBehaved(lex) && NameDueInMembers(s, off, depth, lex) && BehindBreak(s, off)
    ensures LastSolid(s) in {OPEN_BRACE, COMMA}
    decreases |s| - off, 1
  {
    hide LastSolid, ParseValue, NameDue, BehindBreak;
    var name := SkipWs(s, off);
    if name == |s| - 1 {
      NameAtEnd(s, off);
    } else {
      var v := SkipWs(s, SkipWs(s, lex.readString(s, name).off) + 1);
      var r := ParseValue(s, v, depth, lex);
      if r.Failed? {
        NameDueLast(s, v, depth, lex);
      } else {
        BehindSkip(s, SkipWs(s, r.off));
        NameDueLastInMembers(s, SkipWs(s, r.off) + 1, depth, lex);
      }
    }
  }

  /** Parsing any C string stops. If it succeeds it stops in front of the end, if it fails at most one past
      the terminator, and past it exactly if the text ends inside an object where a member name has to come. What a
      caller can check: that does not happen on a text whose last byte that is not white space is neither the
      brace that opens an object nor a comma. */
  lemma ParsingStaysInBuffer(s: Bytes, requireEnd: bool, strtod: Strtod)
    requires CString(s)
    ensures WellBehaved(CJson(strtod))
    ensures var r := ParseDocument(s, requireEnd, CJson(strtod));
            var due := NameDue(s, SkipWs(s, SkipBom(s)), 0, CJson(strtod));
            && (if r.Failed? && due then r.off == |s| else r.off < |s|)
            && (due ==> r.Failed?) && (LastSolid(s) !in {OPEN_BRACE, COMMA} ==> r.off < |s|)
  {
    hide LastSolid, NameDue;
    PassesTheEndIff(s, requireEnd, strtod);
    if NameDue(s, SkipWs(s, SkipBom(s)), 0, CJson(strtod)) {
      NameDueLast(s, SkipWs(s, SkipBom(s)), 0, CJson(strtod));
    }
  }

  /** A failed parse can leave the offset one past the terminator: the text "{". */
  lemma FailureCanPassTheEnd(strtod: Strtod)
    ensures WellBehaved(CJson(strtod)) && ParseDocument([OPEN_BRACE, NUL], false, CJson(strtod)) == Failed(2)
  {
    var s := [OPEN_BRACE, NUL];
    CJsonIsWellBehaved(strtod);
    assert SkipWs(s, 0) == 0 && SkipWs(s, 1) == 1;
    assert ParseString(s, 1) == Failed(2);
    assert ParseMembers(s, 1, 1, CJson(strtod)) == Failed(2);
  }
}
