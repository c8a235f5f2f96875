/** Printed text is a C string: no terminator inside. */
module JsonNulFree {
  import opened Bytes
  import opened Json

  lemma NulFreeConcat(a: Bytes, b: Bytes)
    requires NulFree(a) && NulFree(b)
    ensures NulFree(a + b)
  {
  }

  lemma {:induction false} EscapeIsNulFree(t: Bytes)
    ensures NulFree(Escape(t)) || NUL in t
    decreases |t|
  {
    if t != [] && NulFree(t) {
      assert NulFree(EscapeByte(t[0]));
      EscapeIsNulFree(t[1..]);
      NulFreeConcat(EscapeByte(t[0]), Escape(t[1..]));
    }
  }

  lemma StringIsNulFree(t: Bytes)
    requires NulFree(t)
    ensures NulFree(PrintString(t))
  {
    EscapeIsNulFree(t);
    NulFreeConcat([QUOTE], Escape(t));
    NulFreeConcat([QUOTE] + Escape(t), [QUOTE]);
  }

  /** Printed text contains no terminator. */
  lemma {:induction false} PrintIsNulFree(v: Value, fmt: bool, d: nat)
    requires Printable(v)
    ensures NulFree(Print(v, fmt, d))
    decreases v, 0
  {
    match v {
      case String(t) =>
        StringIsNulFree(t);
      case Array(items) =>
        ItemsAreNulFree(items, fmt, d + 1);
        NulFreeConcat([OPEN_BRACKET], PrintItems(items, fmt, d + 1));
        NulFreeConcat([OPEN_BRACKET] + PrintItems(items, fmt, d + 1), [CLOSE_BRACKET]);
      case Object(members) =>
        var a := [OPEN_BRACE] + When(fmt, [NEWLINE]);
        var b := a + PrintMembers(members, fmt, d + 1);
        MembersAreNulFree(members, fmt, d + 1);
        NulFreeConcat(a, PrintMembers(members, fmt, d + 1));
        NulFreeConcat(b, When(fmt, Tabs(d)));
        NulFreeConcat(b + When(fmt, Tabs(d)), [CLOSE_BRACE]);
      case _ =>
    }
  }

  lemma {:induction false} ItemsAreNulFree(items: Items, fmt: bool, d: nat)
    requires PrintableItems(items)
    ensures NulFree(PrintItems(items, fmt, d))
    decreases items, 1
  {
    if items.Item? {
      PrintIsNulFree(items.head, fmt, d);
      if items.tail.Item? {
        ItemsAreNulFree(items.tail, fmt, d);
        NulFreeConcat([COMMA] + When(fmt, [SPACE]), PrintItems(items.tail, fmt, d));
        NulFreeConcat(Print(items.head, fmt, d), [COMMA] + When(fmt, [SPACE]) + PrintItems(items.tail, fmt, d));
      }
    }
  }

  lemma {:induction false} MembersAreNulFree(members: Members, fmt: bool, d: nat)
    requires PrintableMembers(members)
    ensures NulFree(PrintMembers(members, fmt, d))
    decreases members, 1
  {
    if members.Member? {
      var a := When(fmt, Tabs(d)) + PrintString(members.key);
      var b := a + [COLON] + When(fmt, [TAB]);
      var c := b + Print(members.value, fmt, d);
      var e := c + (if members.rest.Member? then [COMMA] else []) + When(fmt, [NEWLINE]);
      StringIsNulFree(members.key);
      NulFreeConcat(When(fmt, Tabs(d)), PrintString(members.key));
      PrintIsNulFree(members.value, fmt, d);
      NulFreeConcat(b, Print(members.value, fmt, d));
      MembersAreNulFree(members.rest, fmt, d);
      NulFreeConcat(e, PrintMembers(members.rest, fmt, d));
    }
  }
}
