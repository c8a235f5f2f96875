/** `cJSON_Minify`: the in-place removal of white space and comments, as a function of the text. */
module JsonMinify {
  import opened Bytes
  import opened Json
  import opened JsonOnto

  /** The minified text, or `Overrun` if the read pointer passes the terminator. */
  datatype Minified = Overrun | Minified(text: Bytes)

  const CARRIAGE_RETURN: byte := 0x0D
  const SLASH: byte := 0x2F
  const STAR: byte := 0x2A

  predicate WhiteSpace(c: byte) {
    c == SPACE || c == TAB || c == CARRIAGE_RETURN || c == NEWLINE
  }

  function Prepend(w: Bytes, r: Minified): Minified {
    match r
    case Overrun => Overrun
    case Minified(text) => Minified(w + text)
  }

  /** What is left of `t` at the end of the line. */
  function LineEnd(t: Bytes): (r: Bytes)
    ensures |r| <= |t|
  {
    if t == [] || t[0] == NUL || t[0] == NEWLINE then t else LineEnd(t[1..])
  }

  /** What is left of `t` after the end of a block comment; nothing if the comment does not end. */
  function BlockEnd(t: Bytes): (r: Bytes)
    ensures |r| < |t| || r == []
  {
    if t == [] || t[0] == NUL then []
    else if t[0] == STAR && |t| > 1 && t[1] == SLASH then t[2..]
    else BlockEnd(t[1..])
  }

  /** What `cJSON_Minify` makes of the text `t`, which includes its terminator. */
  function Minify(t: Bytes): Minified
    decreases |t|, 1
  {
    if t == [] then Overrun
    else if t[0] == NUL then Minified([])
    else if WhiteSpace(t[0]) then Minify(t[1..])
    else if t[0] == SLASH && |t| > 1 && t[1] == SLASH then Minify(LineEnd(t[1..]))
    else if t[0] == SLASH && |t| > 1 && t[1] == STAR then Minify(BlockEnd(t))
    else if t[0] == QUOTE then Prepend([QUOTE], MinifyString(t[1..]))
    else Prepend([t[0]], Minify(t[1..]))
  }

  /** The same from inside a string literal. */
  function MinifyString(t: Bytes): Minified
    decreases |t|, 0
  {
    if t == [] || t[0] == NUL then Overrun
    else if t[0] == QUOTE then Prepend([QUOTE], Minify(t[1..]))
    else if t[0] != BACKSLASH then Prepend([t[0]], MinifyString(t[1..]))
    else if |t| < 2 || t[1] == NUL then Overrun
    else Prepend([BACKSLASH, t[1]], MinifyString(t[2..]))
  }

  lemma PrependTwice(a: Bytes, b: Bytes, r: Minified)
    ensures Prepend(a, Prepend(b, r)) == Prepend(a + b, r)
  {
    if r.Minified? {
      assert a + (b + r.text) == (a + b) + r.text;
    }
  }

  /** White space disappears. */
  lemma {:induction false} BlanksVanish(w: Bytes, k: Bytes)
    requires forall i :: 0 <= i < |w| ==> WhiteSpace(w[i])
    ensures Minify(w + k) == Minify(k)
    decreases |w|
  {
    if w == [] {
      assert w + k == k;
    } else {
      assert (w + k)[1..] == w[1..] + k;
      BlanksVanish(w[1..], k);
    }
  }

  lemma WhenVanishes(fmt: bool, w: Bytes, k: Bytes)
    requires forall i :: 0 <= i < |w| ==> WhiteSpace(w[i])
    ensures Minify(WhenOnto(fmt, w, k)) == Minify(k)
  {
    BlanksVanish(w, k);
  }

  predicate Solid(c: byte) {
    c != NUL && !WhiteSpace(c) && c != SLASH && c != QUOTE
  }

  /** Bytes that mean nothing to the minifier are copied. */
  lemma {:induction false} SolidIsCopied(w: Bytes, k: Bytes)
    requires forall i :: 0 <= i < |w| ==> Solid(w[i])
    ensures Minify(w + k) == Prepend(w, Minify(k))
    decreases |w|
  {
    if w == [] {
      assert w + k == k;
      if Minify(k).Minified? {
        assert w + Minify(k).text == Minify(k).text;
      }
    } else {
      assert (w + k)[1..] == w[1..] + k;
      SolidIsCopied(w[1..], k);
      PrependTwice([w[0]], w[1..], Minify(k));
      assert [w[0]] + w[1..] == w;
    }
  }

  lemma CopyOne(c: byte, k: Bytes)
    requires Solid(c)
    ensures Minify([c] + k) == Prepend([c], Minify(k))
  {
    SolidIsCopied([c], k);
  }

  /** An escaped byte is copied whole. */
  lemma EscapeIsCopied(c: byte, k: Bytes)
    requires c != NUL
    ensures MinifyString(EscapeByte(c) + k) == Prepend(EscapeByte(c), MinifyString(k))
  {
    var x := EscapeByte(c);
    var t := x + k;
    if |x| == 1 {
      assert t[1..] == k;
    } else if |x| == 2 {
      assert t[2..] == k && x == [BACKSLASH, x[1]];
    } else {
      var r := MinifyString(k);
      assert t[2..] == [x[2]] + ([x[3]] + ([x[4]] + ([x[5]] + k)));
      DigitIsCopied(x[5], k);
      DigitIsCopied(x[4], [x[5]] + k);
      DigitIsCopied(x[3], [x[4]] + ([x[5]] + k));
      DigitIsCopied(x[2], [x[3]] + ([x[4]] + ([x[5]] + k)));
      PrependTwice([x[4]], [x[5]], r);
      PrependTwice([x[3]], [x[4]] + [x[5]], r);
      PrependTwice([x[2]], [x[3]] + ([x[4]] + [x[5]]), r);
      PrependTwice([BACKSLASH, LETTER_U], [x[2]] + ([x[3]] + ([x[4]] + [x[5]])), r);
      assert [BACKSLASH, LETTER_U] + ([x[2]] + ([x[3]] + ([x[4]] + [x[5]]))) == x;
    }
  }

  lemma DigitIsCopied(c: byte, k: Bytes)
    requires c != NUL && c != QUOTE && c != BACKSLASH
    ensures MinifyString([c] + k) == Prepend([c], MinifyString(k))
  {
    assert ([c] + k)[1..] == k;
  }

  lemma {:induction false} EscapedIsCopied(t: Bytes, k: Bytes)
    requires NulFree(t)
    ensures MinifyString(EscapeOnto(t, [QUOTE] + k)) == Prepend(Escape(t) + [QUOTE], Minify(k))
    decreases |t|
  {
    hide EscapeByte;
    if t == [] {
      assert ([QUOTE] + k)[1..] == k;
      assert Escape(t) + [QUOTE] == [QUOTE];
    } else {
      EscapedIsCopied(t[1..], k);
      EscapeIsCopied(t[0], EscapeOnto(t[1..], [QUOTE] + k));
      PrependTwice(EscapeByte(t[0]), Escape(t[1..]) + [QUOTE], Minify(k));
      assert EscapeByte(t[0]) + (Escape(t[1..]) + [QUOTE]) == Escape(t) + [QUOTE];
    }
  }

  /** String literals are copied, escapes and all. */
  lemma StringIsCopied(t: Bytes, k: Bytes)
    requires NulFree(t)
    ensures Minify(StringOnto(t, k)) == Prepend(PrintString(t), Minify(k))
  {
    hide EscapeOnto, Escape;
    var body := EscapeOnto(t, [QUOTE] + k);
    assert ([QUOTE] + body)[1..] == body;
    EscapedIsCopied(t, k);
    PrependTwice([QUOTE], Escape(t) + [QUOTE], Minify(k));
    assert [QUOTE] + (Escape(t) + [QUOTE]) == PrintString(t);
  }

  /** The minifier turns the text of a tree, formatted or not, into the unformatted text. */
  lemma {:induction false} ValueMinifies(v: Value, fmt: bool, d: nat, k: Bytes)
    requires Printable(v)
    ensures Minify(Onto(v, fmt, d, k)) == Prepend(Print(v, false, d), Minify(k))
    decreases v, 2
  {
    hide Minify, EscapeOnto, Escape;
    match v {
      case Null =>
        SolidIsCopied(NULL_TEXT, k);
      case False =>
        SolidIsCopied(FALSE_TEXT, k);
      case True =>
        SolidIsCopied(TRUE_TEXT, k);
      case Number(t) =>
        SolidIsCopied(t, k);
      case String(t) =>
        StringIsCopied(t, k);
      case Array(items) =>
        ArrayMinifies(items, fmt, d, k);
      case Object(members) =>
        ObjectMinifies(members, fmt, d, k);
    }
  }

  lemma {:induction false} ArrayMinifies(items: Items, fmt: bool, d: nat, k: Bytes)
    requires PrintableItems(items)
    ensures Minify(Onto(Array(items), fmt, d, k)) == Prepend(Print(Array(items), false, d), Minify(k))
    decreases items, 1
  {
    hide Minify, ItemsOnto, PrintItems;
    var close := [CLOSE_BRACKET] + k;
    CopyOne(OPEN_BRACKET, ItemsOnto(items, fmt, d + 1, close));
    ItemsMinify(items, fmt, d + 1, close);
    CopyOne(CLOSE_BRACKET, k);
    var w := PrintItems(items, false, d + 1);
    PrependTwice(w, [CLOSE_BRACKET], Minify(k));
    PrependTwice([OPEN_BRACKET], w + [CLOSE_BRACKET], Minify(k));
    assert [OPEN_BRACKET] + (w + [CLOSE_BRACKET]) == [OPEN_BRACKET] + w + [CLOSE_BRACKET];
  }

  lemma {:induction false} ItemsMinify(items: Items, fmt: bool, d: nat, k: Bytes)
    requires PrintableItems(items)
    ensures Minify(ItemsOnto(items, fmt, d, k)) == Prepend(PrintItems(items, false, d), Minify(k))
    decreases items, 0
  {
    hide Minify, Onto, Print;
    PrependNothing(Minify(k));
    if items.Item? {
      var w, more := Print(items.head, false, d), PrintItems(items.tail, false, d);
      ValueMinifies(items.head, fmt, d, MoreItemsOnto(items.tail, fmt, d, k));
      if items.tail.Item? {
        var text := ItemsOnto(items.tail, fmt, d, k);
        CopyOne(COMMA, WhenOnto(fmt, [SPACE], text));
        WhenVanishes(fmt, [SPACE], text);
        ItemsMinify(items.tail, fmt, d, k);
        PrependTwice([COMMA], more, Minify(k));
        PrependTwice(w, [COMMA] + more, Minify(k));
        assert [COMMA] + When(false, [SPACE]) + more == [COMMA] + more;
      } else {
        assert w + [] == w;
      }
    }
  }

  lemma PrependNothing(r: Minified)
    ensures Prepend([], r) == r
  {
    if r.Minified? {
      assert [] + r.text == r.text;
    }
  }

  lemma {:induction false} ObjectMinifies(members: Members, fmt: bool, d: nat, k: Bytes)
    requires PrintableMembers(members)
    ensures Minify(Onto(Object(members), fmt, d, k)) == Prepend(Print(Object(members), false, d), Minify(k))
    decreases members, 1
  {
    hide Minify, MembersOnto, PrintMembers;
    var end := [CLOSE_BRACE] + k;
    var close := WhenOnto(fmt, Tabs(d), end);
    var body := MembersOnto(members, fmt, d + 1, close);
    CopyOne(OPEN_BRACE, WhenOnto(fmt, [NEWLINE], body));
    WhenVanishes(fmt, [NEWLINE], body);
    MembersMinify(members, fmt, d + 1, close);
    WhenVanishes(fmt, Tabs(d), end);
    CopyOne(CLOSE_BRACE, k);
    var w := PrintMembers(members, false, d + 1);
    PrependTwice(w, [CLOSE_BRACE], Minify(k));
    PrependTwice([OPEN_BRACE], w + [CLOSE_BRACE], Minify(k));
    assert [OPEN_BRACE] + (w + [CLOSE_BRACE]) == [OPEN_BRACE] + [] + w + [] + [CLOSE_BRACE];
  }

  lemma {:induction false} MembersMinify(members: Members, fmt: bool, d: nat, k: Bytes)
    requires PrintableMembers(members)
    ensures Minify(MembersOnto(members, fmt, d, k)) == Prepend(PrintMembers(members, false, d), Minify(k))
    decreases members, 0
  {
    hide Minify, Onto, Print, StringOnto, PrintString;
    PrependNothing(Minify(k));
    if members.Member? {
      var key, w := PrintString(members.key), Print(members.value, false, d);
      var more := MoreMembersOnto(members.rest, fmt, d, k);
      var value := Onto(members.value, fmt, d, more);
      WhenVanishes(fmt, Tabs(d), MemberOnto(members, fmt, d, k));
      StringIsCopied(members.key, [COLON] + WhenOnto(fmt, [TAB], value));
      CopyOne(COLON, WhenOnto(fmt, [TAB], value));
      WhenVanishes(fmt, [TAB], value);
      ValueMinifies(members.value, fmt, d, more);
      MoreMinifies(members.rest, fmt, d, k);
      var tail := (if members.rest.Member? then [COMMA] else []) + PrintMembers(members.rest, false, d);
      PrependTwice(w, tail, Minify(k));
      PrependTwice([COLON], w + tail, Minify(k));
      PrependTwice(key, [COLON] + (w + tail), Minify(k));
      MemberText(key, w, members.rest.Member?, PrintMembers(members.rest, false, d));
    }
  }

  lemma MemberText(key: Bytes, w: Bytes, comma: bool, rest: Bytes)
    ensures [] + key + [COLON] + [] + w + (if comma then [COMMA] else []) + [] + rest
         == key + ([COLON] + (w + ((if comma then [COMMA] else []) + rest)))
  {
  }

  lemma {:induction false} MoreMinifies(rest: Members, fmt: bool, d: nat, k: Bytes)
    requires PrintableMembers(rest)
    ensures Minify(MoreMembersOnto(rest, fmt, d, k))
         == Prepend((if rest.Member? then [COMMA] else []) + PrintMembers(rest, false, d), Minify(k))
    decreases rest, 1
  {
    hide Minify, MembersOnto, PrintMembers;
    var text := MembersOnto(rest, fmt, d, k);
    WhenVanishes(fmt, [NEWLINE], text);
    MembersMinify(rest, fmt, d, k);
    var w := PrintMembers(rest, false, d);
    if rest.Member? {
      CopyOne(COMMA, WhenOnto(fmt, [NEWLINE], text));
      PrependTwice([COMMA], w, Minify(k));
    } else {
      assert [] + w == w;
    }
  }

  /** Minifying what `cJSON_Print` gives yields what `cJSON_PrintUnformatted` gives, byte for byte; text
      that is already unformatted does not change. */
  lemma MinifyOfPrint(v: Value, fmt: bool)
    requires Printable(v)
    ensures Minify(Print(v, fmt, 0) + [NUL]) == Minified(Print(v, false, 0))
  {
    hide Onto, Print;
    OntoIs(v, fmt, 0, [NUL]);
    ValueMinifies(v, fmt, 0, [NUL]);
    assert Minify([NUL]) == Minified([]);
    assert Print(v, false, 0) + [] == Print(v, false, 0);
  }
}
