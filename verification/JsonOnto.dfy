/** The printed text in front of a given continuation. This is the printer read from left to right, the
    way the parser and the minifier meet its text. */
module JsonOnto {
  import opened Bytes
  import opened Json

  function EscapeOnto(s: Bytes, k: Bytes): (r: Bytes)
    ensures |r| >= |k|
  {
    if s == [] then k else EscapeByte(s[0]) + EscapeOnto(s[1..], k)
  }

  function StringOnto(s: Bytes, k: Bytes): (r: Bytes)
    ensures |r| >= |k| + 2
  {
    [QUOTE] + EscapeOnto(s, [QUOTE] + k)
  }

  function WhenOnto(fmt: bool, t: Bytes, k: Bytes): Bytes {
    if fmt then t + k else k
  }

  function Onto(v: Value, fmt: bool, d: nat, k: Bytes): Bytes
    decreases v, 0
  {
    match v
    case Null => NULL_TEXT + k
    case False => FALSE_TEXT + k
    case True => TRUE_TEXT + k
    case Number(t) => t + k
    case String(s) => StringOnto(s, k)
    case Array(items) => [OPEN_BRACKET] + ItemsOnto(items, fmt, d + 1, [CLOSE_BRACKET] + k)
    case Object(members) =>
      var close := WhenOnto(fmt, Tabs(d), [CLOSE_BRACE] + k);
      [OPEN_BRACE] + WhenOnto(fmt, [NEWLINE], MembersOnto(members, fmt, d + 1, close))
  }

  function ItemsOnto(items: Items, fmt: bool, d: nat, k: Bytes): Bytes
    decreases items, 0
  {
    match items
    case NoItem => k
    case Item(head, tail) => Onto(head, fmt, d, MoreItemsOnto(tail, fmt, d, k))
  }

  /** The rest of an array after an element: a comma and more elements, or nothing. */
  function MoreItemsOnto(tail: Items, fmt: bool, d: nat, k: Bytes): Bytes
    decreases tail, 1
  {
    if tail.Item? then [COMMA] + WhenOnto(fmt, [SPACE], ItemsOnto(tail, fmt, d, k)) else k
  }

  function MembersOnto(members: Members, fmt: bool, d: nat, k: Bytes): Bytes
    decreases members, 1
  {
    match members
    case NoMember => k
    case Member(key, value, rest) => WhenOnto(fmt, Tabs(d), MemberOnto(members, fmt, d, k))
  }

  /** A member from its key on. */
  function MemberOnto(members: Members, fmt: bool, d: nat, k: Bytes): Bytes
    requires members.Member?
    decreases members, 0
  {
    var value := Onto(members.value, fmt, d, MoreMembersOnto(members.rest, fmt, d, k));
    StringOnto(members.key, [COLON] + WhenOnto(fmt, [TAB], value))
  }

  /** The rest of an object after a member's value. */
  function MoreMembersOnto(rest: Members, fmt: bool, d: nat, k: Bytes): Bytes
    decreases rest, 2
  {
    var line := WhenOnto(fmt, [NEWLINE], MembersOnto(rest, fmt, d, k));
    if rest.Member? then [COMMA] + line else line
  }

  lemma {:induction false} EscapeOntoIs(s: Bytes, k: Bytes)
    ensures EscapeOnto(s, k) == Escape(s) + k
    decreases |s|
  {
    if s != [] {
      EscapeOntoIs(s[1..], k);
    }
  }

  lemma StringOntoIs(s: Bytes, k: Bytes)
    ensures StringOnto(s, k) == PrintString(s) + k
  {
    EscapeOntoIs(s, [QUOTE] + k);
  }

  lemma WhenOntoIs(fmt: bool, t: Bytes, k: Bytes)
    ensures WhenOnto(fmt, t, k) == When(fmt, t) + k
  {
  }

  lemma Assoc(a: Bytes, b: Bytes, c: Bytes)
    ensures (a + b) + c == a + (b + c)
  {
  }

  /** The text in front of `k` is the printed text followed by `k`. */
  lemma {:induction false} OntoIs(v: Value, fmt: bool, d: nat, k: Bytes)
    ensures Onto(v, fmt, d, k) == Print(v, fmt, d) + k
    decreases v, 1
  {
    match v {
      case Array(items) =>
        ItemsOntoIs(items, fmt, d + 1, [CLOSE_BRACKET] + k);
        Assoc([OPEN_BRACKET], PrintItems(items, fmt, d + 1), [CLOSE_BRACKET] + k);
        Assoc([OPEN_BRACKET] + PrintItems(items, fmt, d + 1), [CLOSE_BRACKET], k);
      case Object(members) =>
        ObjectOntoIs(members, fmt, d, k);
      case String(s) =>
        StringOntoIs(s, k);
      case _ =>
    }
  }

  lemma {:induction false} ItemsOntoIs(items: Items, fmt: bool, d: nat, k: Bytes)
    ensures ItemsOnto(items, fmt, d, k) == PrintItems(items, fmt, d) + k
    decreases items, 1
  {
    if items.Item? {
      var head, tail := Print(items.head, fmt, d), items.tail;
      OntoIs(items.head, fmt, d, MoreItemsOnto(tail, fmt, d, k));
      if tail.Item? {
        var more := PrintItems(tail, fmt, d);
        ItemsOntoIs(tail, fmt, d, k);
        WhenOntoIs(fmt, [SPACE], more + k);
        Assoc([COMMA], When(fmt, [SPACE]), more + k);
        Assoc([COMMA] + When(fmt, [SPACE]), more, k);
        Assoc(head, [COMMA] + When(fmt, [SPACE]) + more, k);
      }
    }
  }

  lemma {:induction false} ObjectOntoIs(members: Members, fmt: bool, d: nat, k: Bytes)
    ensures Onto(Object(members), fmt, d, k) == Print(Object(members), fmt, d) + k
    decreases members, 2
  {
    var open, body, tabs := [OPEN_BRACE] + When(fmt, [NEWLINE]), PrintMembers(members, fmt, d + 1), When(fmt, Tabs(d));
    WhenOntoIs(fmt, Tabs(d), [CLOSE_BRACE] + k);
    MembersOntoIs(members, fmt, d + 1, tabs + ([CLOSE_BRACE] + k));
    WhenOntoIs(fmt, [NEWLINE], body + (tabs + ([CLOSE_BRACE] + k)));
    Assoc([OPEN_BRACE], When(fmt, [NEWLINE]), body + (tabs + ([CLOSE_BRACE] + k)));
    Assoc(open, body, tabs + ([CLOSE_BRACE] + k));
    Assoc(open + body, tabs, [CLOSE_BRACE] + k);
    Assoc(open + body + tabs, [CLOSE_BRACE], k);
  }

  lemma {:induction false} MembersOntoIs(members: Members, fmt: bool, d: nat, k: Bytes)
    ensures MembersOnto(members, fmt, d, k) == PrintMembers(members, fmt, d) + k
    decreases members, 1
  {
    if members.Member? {
      var rest := PrintMembers(members.rest, fmt, d);
      var comma := if members.rest.Member? then [COMMA] else [];
      var a := When(fmt, Tabs(d));
      var b := a + PrintString(members.key);
      var c := b + [COLON];
      var e := c + When(fmt, [TAB]);
      var f := e + Print(members.value, fmt, d);
      var g := f + comma;
      var h := g + When(fmt, [NEWLINE]);
      MembersOntoIs(members.rest, fmt, d, k);
      WhenOntoIs(fmt, [NEWLINE], rest + k);
      Assoc(h, rest, k);
      Assoc(g, When(fmt, [NEWLINE]), rest + k);
      var line := When(fmt, [NEWLINE]) + (rest + k);
      Assoc(f, comma, line);
      assert MoreMembersOnto(members.rest, fmt, d, k) == comma + line;
      OntoIs(members.value, fmt, d, comma + line);
      var value := Print(members.value, fmt, d) + (comma + line);
      Assoc(e, Print(members.value, fmt, d), comma + line);
      WhenOntoIs(fmt, [TAB], value);
      Assoc(c, When(fmt, [TAB]), value);
      Assoc(b, [COLON], When(fmt, [TAB]) + value);
      StringOntoIs(members.key, [COLON] + (When(fmt, [TAB]) + value));
      Assoc(a, PrintString(members.key), [COLON] + (When(fmt, [TAB]) + value));
      WhenOntoIs(fmt, Tabs(d), MemberOnto(members, fmt, d, k));
    }
  }
}
