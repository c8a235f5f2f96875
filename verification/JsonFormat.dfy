/** The layout of formatted output, as a pass over the unformatted text: what `cJSON_Print` adds to what
    `cJSON_PrintUnformatted` gives. */
module JsonFormat {
  import opened Bytes
  import opened Json
  import opened JsonOnto

  function Indent(n: nat): Bytes {
    seq(n, _ => 0x09)
  }

  /** The text laid out, with the brackets and braces of `open` around it; an object is true. Behind an opening brace
      comes a line end, and so does it in front of a closing brace unless the object is empty. Every line starts with
      as many tabs as brackets and braces are open. A comma is followed by a line end in an object and by a space in
      an array, a colon by a tab. `first` says that an opening brace has just been passed. */
  function Lay(t: Bytes, open: seq<bool>, first: bool): Bytes
    decreases |t|
  {
    if t == [] then []
    else
      var c, rest := t[0], t[1..];
      var outer := if open == [] then [] else open[..|open| - 1];
      if c == 0x7D then (if first then [] else [0x0A]) + Indent(|outer|) + [c] + Lay(rest, outer, false)
      else if first then Indent(|open|) + LayFrom(t, open)
      else LayFrom(t, open)
  }

  /** The same where neither a closing brace nor a new line comes first. */
  function LayFrom(t: Bytes, open: seq<bool>): Bytes
    requires t != []
    decreases |t|, 0
  {
    var c, rest := t[0], t[1..];
    if c == 0x22 then [c] + LayString(rest, open)
    else if c == 0x7B then [c, 0x0A] + Lay(rest, open + [true], true)
    else if c == 0x5B then [c] + Lay(rest, open + [false], false)
    else if c == 0x5D then [c] + Lay(rest, if open == [] then [] else open[..|open| - 1], false)
    else if c == 0x2C then
      if open != [] && open[|open| - 1] then [c, 0x0A] + Indent(|open|) + Lay(rest, open, false)
      else [c, 0x20] + Lay(rest, open, false)
    else if c == 0x3A then [c, 0x09] + Lay(rest, open, false)
    else [c] + Lay(rest, open, false)
  }

  /** Nothing is added inside a string literal. */
  function LayString(t: Bytes, open: seq<bool>): Bytes
    decreases |t|
  {
    if t == [] then []
    else if t[0] == 0x22 then [t[0]] + Lay(t[1..], open, false)
    else if t[0] == 0x5C && |t| > 1 then [t[0], t[1]] + LayString(t[2..], open)
    else [t[0]] + LayString(t[1..], open)
  }

  predicate Ordinary(c: byte) {
    c !in {0x22, 0x7B, 0x7D, 0x5B, 0x5D, 0x2C, 0x3A}
  }

  lemma {:induction false} OrdinaryIsLaid(w: Bytes, k: Bytes, open: seq<bool>)
    requires forall i :: 0 <= i < |w| ==> Ordinary(w[i])
    ensures Lay(w + k, open, false) == w + Lay(k, open, false)
    decreases |w|
  {
    if w == [] {
      assert w + k == k && w + Lay(k, open, false) == Lay(k, open, false);
    } else {
      assert (w + k)[1..] == w[1..] + k;
      OrdinaryIsLaid(w[1..], k, open);
      assert [w[0]] + (w[1..] + Lay(k, open, false)) == w + Lay(k, open, false);
    }
  }

  lemma EscapeByteIsLaid(c: byte, k: Bytes, open: seq<bool>)
    ensures LayString(EscapeByte(c) + k, open) == EscapeByte(c) + LayString(k, open)
  {
    hide Lay;
    var x := EscapeByte(c);
    var t := x + k;
    if |x| == 1 {
      assert t[1..] == k;
    } else if |x| == 2 {
      assert t[2..] == k && x == [t[0], t[1]];
    } else {
      SixAreLaid(x, k, open);
    }
  }

  lemma SixAreLaid(x: Bytes, k: Bytes, open: seq<bool>)
    requires |x| == 6 && x[0] == 0x5C && forall i :: 2 <= i < 6 ==> x[i] != 0x22 && x[i] != 0x5C
    ensures LayString(x + k, open) == x + LayString(k, open)
  {
    hide Lay;
    var t, r := x + k, LayString(k, open);
    assert t[0] == x[0] && t[1] == x[1];
    assert t[2..] == [x[2]] + ([x[3]] + ([x[4]] + ([x[5]] + k)));
    DigitIsLaid(x[5], k, open);
    DigitIsLaid(x[4], [x[5]] + k, open);
    DigitIsLaid(x[3], [x[4]] + ([x[5]] + k), open);
    DigitIsLaid(x[2], [x[3]] + ([x[4]] + ([x[5]] + k)), open);
    assert [x[0], x[1]] + ([x[2]] + ([x[3]] + ([x[4]] + ([x[5]] + r)))) == x + r;
  }

  lemma DigitIsLaid(c: byte, k: Bytes, open: seq<bool>)
    requires c != 0x22 && c != 0x5C
    ensures LayString([c] + k, open) == [c] + LayString(k, open)
  {
    assert ([c] + k)[1..] == k;
  }

  lemma {:induction false} EscapedIsLaid(t: Bytes, k: Bytes, open: seq<bool>)
    ensures LayString(EscapeOnto(t, [QUOTE] + k), open) == Escape(t) + [QUOTE] + Lay(k, open, false)
    decreases |t|
  {
    hide EscapeByte, Lay;
    if t == [] {
      assert ([QUOTE] + k)[1..] == k;
    } else {
      EscapedIsLaid(t[1..], k, open);
      EscapeByteIsLaid(t[0], EscapeOnto(t[1..], [QUOTE] + k), open);
    }
  }

  lemma StringIsLaid(t: Bytes, k: Bytes, open: seq<bool>)
    ensures Lay(StringOnto(t, k), open, false) == PrintString(t) + Lay(k, open, false)
    ensures Lay(StringOnto(t, k), open, true) == Indent(|open|) + Lay(StringOnto(t, k), open, false)
  {
    hide EscapeOnto, Escape, LayString;
    var body := EscapeOnto(t, [QUOTE] + k);
    assert ([QUOTE] + body)[1..] == body;
    EscapedIsLaid(t, k, open);
  }

  lemma OneIsLaid(c: byte, k: Bytes, open: seq<bool>)
    requires c != 0x22 && c != 0x7D
    ensures Lay([c] + k, open, false) ==
            if c == 0x7B then [c, 0x0A] + Lay(k, open + [true], true)
            else if c == 0x5B then [c] + Lay(k, open + [false], false)
            else if c == 0x5D then [c] + Lay(k, if open == [] then [] else open[..|open| - 1], false)
            else if c == 0x2C then
              if open != [] && open[|open| - 1] then [c, 0x0A] + Indent(|open|) + Lay(k, open, false)
              else [c, 0x20] + Lay(k, open, false)
            else if c == 0x3A then [c, 0x09] + Lay(k, open, false)
            else [c] + Lay(k, open, false)
  {
    assert ([c] + k)[1..] == k;
  }

  lemma CloseIsLaid(k: Bytes, outer: seq<bool>, first: bool)
    ensures Lay([CLOSE_BRACE] + k, outer + [true], first) ==
            (if first then [] else [0x0A]) + Indent(|outer|) + [CLOSE_BRACE] + Lay(k, outer, false)
  {
    assert ([CLOSE_BRACE] + k)[1..] == k && (outer + [true])[..|outer|] == outer;
  }

  /** Laying out the unformatted text of a tree gives its formatted text. */
  lemma {:induction false} ValueIsLaid(v: Value, d: nat, k: Bytes, open: seq<bool>)
    requires Printable(v)
    ensures Lay(Onto(v, false, d, k), open, false) == Print(v, true, |open|) + Lay(k, open, false)
    decreases v, 2
  {
    hide Lay, EscapeOnto, Escape;
    match v {
      case Null => OrdinaryIsLaid(NULL_TEXT, k, open);
      case False => OrdinaryIsLaid(FALSE_TEXT, k, open);
      case True => OrdinaryIsLaid(TRUE_TEXT, k, open);
      case Number(t) => OrdinaryIsLaid(t, k, open);
      case String(t) => StringIsLaid(t, k, open);
      case Array(items) => ArrayIsLaid(items, d, k, open);
      case Object(members) => ObjectIsLaid(members, d, k, open);
    }
  }

  lemma {:induction false} ArrayIsLaid(items: Items, d: nat, k: Bytes, open: seq<bool>)
    requires PrintableItems(items)
    ensures Lay(Onto(Array(items), false, d, k), open, false) == Print(Array(items), true, |open|) + Lay(k, open, false)
    decreases items, 1
  {
    hide Lay, ItemsOnto, PrintItems;
    var inner, close := open + [false], [CLOSE_BRACKET] + k;
    OneIsLaid(OPEN_BRACKET, ItemsOnto(items, false, d + 1, close), open);
    ItemsAreLaid(items, d + 1, close, inner);
    OneIsLaid(CLOSE_BRACKET, k, inner);
    assert inner[..|inner| - 1] == open;
    ArrayPieces(PrintItems(items, true, |inner|), Lay(k, open, false));
  }

  lemma ArrayPieces(items: Bytes, rest: Bytes)
    ensures [OPEN_BRACKET] + (items + ([CLOSE_BRACKET] + rest)) == [OPEN_BRACKET] + items + [CLOSE_BRACKET] + rest
  {
  }

  lemma {:induction false} ItemsAreLaid(items: Items, d: nat, k: Bytes, open: seq<bool>)
    requires PrintableItems(items) && open != [] && !open[|open| - 1]
    ensures Lay(ItemsOnto(items, false, d, k), open, false) == PrintItems(items, true, |open|) + Lay(k, open, false)
    decreases items, 0
  {
    hide Lay, Onto, Print;
    if items.Item? {
      ValueIsLaid(items.head, d, MoreItemsOnto(items.tail, false, d, k), open);
      if items.tail.Item? {
        OneIsLaid(COMMA, ItemsOnto(items.tail, false, d, k), open);
        ItemsAreLaid(items.tail, d, k, open);
        assert [COMMA] + [SPACE] == [COMMA, 0x20];
      }
    }
  }

  lemma {:induction false} ObjectIsLaid(members: Members, d: nat, k: Bytes, open: seq<bool>)
    requires PrintableMembers(members)
    ensures Lay(Onto(Object(members), false, d, k), open, false)
         == Print(Object(members), true, |open|) + Lay(k, open, false)
    decreases members, 2
  {
    hide Lay, MemberOnto, PrintMembers;
    var inner, close := open + [true], [CLOSE_BRACE] + k;
    var body := MembersOnto(members, false, d + 1, close);
    OneIsLaid(OPEN_BRACE, body, open);
    CloseIsLaid(k, open, true);
    if members.Member? {
      KeyComesFirst(members, d + 1, close, inner);
      MembersAreLaid(members, d + 1, k, open);
    } else {
      NothingPrinted(|inner|);
    }
    IndentIsTabs(|open|);
    ObjectPieces(PrintMembers(members, true, |inner|), |open|, Lay(k, open, false));
  }

  lemma NothingPrinted(n: nat)
    ensures PrintMembers(NoMember, true, n) == []
  {
  }

  lemma IndentIsTabs(n: nat)
    ensures Indent(n) == Tabs(n)
  {
  }

  lemma ObjectPieces(m: Bytes, n: nat, rest: Bytes)
    ensures [OPEN_BRACE, 0x0A] + (m + (Indent(n) + [CLOSE_BRACE] + rest))
         == [OPEN_BRACE] + [NEWLINE] + m + Tabs(n) + [CLOSE_BRACE] + rest
    ensures [OPEN_BRACE, 0x0A] + ([] + Indent(n) + [CLOSE_BRACE] + rest)
         == [OPEN_BRACE] + [NEWLINE] + [] + Tabs(n) + [CLOSE_BRACE] + rest
  {
    IndentIsTabs(n);
  }

  lemma KeyComesFirst(members: Members, d: nat, k: Bytes, open: seq<bool>)
    requires members.Member?
    ensures Lay(MemberOnto(members, false, d, k), open, true)
         == Indent(|open|) + Lay(MemberOnto(members, false, d, k), open, false)
  {
    hide Lay, StringOnto;
    var value := Onto(members.value, false, d, MoreMembersOnto(members.rest, false, d, k));
    StringIsLaid(members.key, [COLON] + value, open);
  }

  lemma {:induction false} MemberIsLaid(members: Members, d: nat, k: Bytes, open: seq<bool>)
    requires members.Member? && PrintableMembers(members)
    ensures Lay(MemberOnto(members, false, d, k), open, false)
         == PrintString(members.key) + ([COLON, 0x09] + (Print(members.value, true, |open|)
            + Lay(MoreMembersOnto(members.rest, false, d, k), open, false)))
    decreases members, 0
  {
    hide Lay, Onto, Print, StringOnto, PrintString, MoreMembersOnto;
    var more := MoreMembersOnto(members.rest, false, d, k);
    var value := Onto(members.value, false, d, more);
    StringIsLaid(members.key, [COLON] + value, open);
    OneIsLaid(COLON, value, open);
    ValueIsLaid(members.value, d, more, open);
  }

  lemma MoreIsLaid(rest: Members, d: nat, k: Bytes, outer: seq<bool>)
    ensures var open, close := outer + [true], [CLOSE_BRACE] + k;
            && (rest.Member? ==>
                  Lay(MoreMembersOnto(rest, false, d, close), open, false)
                  == [COMMA] + [0x0A] + (Indent(|open|) + Lay(MemberOnto(rest, false, d, close), open, false)))
            && (rest.NoMember? ==>
                  Lay(MoreMembersOnto(rest, false, d, close), open, false)
                  == [] + [0x0A] + ([] + (Indent(|outer|) + [CLOSE_BRACE] + Lay(k, outer, false))))
  {
    hide Lay, MemberOnto, Indent;
    var open, close := outer + [true], [CLOSE_BRACE] + k;
    if rest.Member? {
      var laid := Lay(MemberOnto(rest, false, d, close), open, false);
      OneIsLaid(COMMA, MemberOnto(rest, false, d, close), open);
      assert [COMMA, 0x0A] + Indent(|open|) + laid == [COMMA] + [0x0A] + (Indent(|open|) + laid);
    } else {
      CloseIsLaid(k, outer, false);
    }
  }

  /** The members of an object and what closes it, from the first key on. */
  lemma {:induction false} MembersAreLaid(members: Members, d: nat, k: Bytes, outer: seq<bool>)
    requires members.Member? && PrintableMembers(members)
    ensures Indent(|outer| + 1) + Lay(MemberOnto(members, false, d, [CLOSE_BRACE] + k), outer + [true], false)
         == PrintMembers(members, true, |outer| + 1) + (Indent(|outer|) + [CLOSE_BRACE] + Lay(k, outer, false))
    decreases members, 1
  {
    hide Lay, Print, PrintString, Indent, MemberOnto, MoreMembersOnto, Tabs;
    var n := |outer| + 1;
    var end := Indent(|outer|) + [CLOSE_BRACE] + Lay(k, outer, false);
    var key, value := PrintString(members.key), Print(members.value, true, n);
    MemberIsLaid(members, d, [CLOSE_BRACE] + k, outer + [true]);
    MoreIsLaid(members.rest, d, k, outer);
    IndentIsTabs(n);
    if members.rest.Member? {
      MembersAreLaid(members.rest, d, k, outer);
      MemberPieces(Tabs(n), key, value, [COMMA], PrintMembers(members.rest, true, n), end);
    } else {
      MemberPieces(Tabs(n), key, value, [], [], end);
    }
  }

  lemma MemberPieces(tabs: Bytes, key: Bytes, value: Bytes, comma: Bytes, rest: Bytes, end: Bytes)
    ensures tabs + key + [COLON] + [TAB] + value + comma + [NEWLINE] + rest + end
         == tabs + (key + ([COLON, 0x09] + (value + (comma + [0x0A] + (rest + end)))))
  {
  }

  /** Formatted output is the unformatted output laid out. */
  lemma FormattedIsLaid(v: Value)
    requires Printable(v)
    ensures Print(v, true, 0) == Lay(Print(v, false, 0), [], false)
  {
    hide Onto, Print;
    OntoIs(v, false, 0, []);
    ValueIsLaid(v, 0, [], []);
    assert Print(v, false, 0) + [] == Print(v, false, 0);
    assert Print(v, true, 0) + [] == Print(v, true, 0);
  }
}
