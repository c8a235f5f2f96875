/** The cJSON printer on its `printbuffer`: methods that grow and fill the buffer, proved against the
    printed text as a function. */
module JsonWriter {
  import opened Bytes
  import opened Json
  import opened JsonNulFree

  const INT_MAX: nat := 0x7FFF_FFFF

  /** A print buffer: the allocated block and the offset printing has reached. `plan` holds the allocator's
      coming answers; when it is used up every request is granted. */
  datatype State = State(buffer: Bytes, offset: nat, plan: seq<bool>)

  ghost predicate Sound(s: State) {
    |s.buffer| <= INT_MAX && (s.offset < |s.buffer| || s.offset == 0 == |s.buffer|)
  }

  /** How large the buffer can become. */
  ghost function Capacity(s: State, noalloc: bool): nat {
    if noalloc then |s.buffer| else INT_MAX
  }

  /** The text in front of the offset. */
  function Text(s: State): Bytes {
    if s.offset <= |s.buffer| then s.buffer[..s.offset] else []
  }

  /** `ensure` has made room for `needed` bytes and one more, or could not. */
  ghost predicate Ensured(s: State, noalloc: bool, needed: nat, ok: bool, s': State) {
    && (ok ==> Sound(s') && s'.offset == s.offset && Text(s') == Text(s)
               && s.offset + needed + 1 <= |s'.buffer| && Capacity(s', noalloc) == Capacity(s, noalloc))
    && (s.plan == [] ==> s'.plan == [] && (ok <==> s.offset + needed + 1 <= Capacity(s, noalloc)))
  }

  /** `t` has been appended, with `slack` bytes more asked for than it has. */
  ghost predicate Appended(s: State, noalloc: bool, t: Bytes, slack: nat, ok: bool, s': State) {
    && (ok ==> Sound(s') && s'.offset == s.offset + |t| && Text(s') == Text(s) + t
               && Capacity(s', noalloc) == Capacity(s, noalloc))
    && (s.plan == [] ==> s'.plan == [] && (ok <==> s.offset + |t| + slack + 1 <= Capacity(s, noalloc)))
  }

  /** `t` and a terminator have been written from the offset on, which may have moved on inside `t`.
      Printing succeeds exactly when there is room for the text and two bytes more. */
  ghost predicate Printed(s: State, noalloc: bool, t: Bytes, ok: bool, s': State) {
    && (ok ==> Sound(s') && s.offset <= s'.offset <= s.offset + |t| < |s'.buffer|
               && s'.buffer[..s.offset + |t|] == Text(s) + t && s'.buffer[s.offset + |t|] == NUL
               && Capacity(s', noalloc) == Capacity(s, noalloc))
    && (s.plan == [] ==> s'.plan == [] && (ok <==> s.offset + |t| + 2 <= Capacity(s, noalloc)))
  }

  lemma AppendedTwice(s: State, noalloc: bool, t: Bytes, k: nat, s1: State, t': Bytes, k': nat, ok: bool, s2: State)
    requires Sound(s) && Appended(s, noalloc, t, k, true, s1) && Appended(s1, noalloc, t', k', ok, s2) && k <= |t'| + k'
    ensures Appended(s, noalloc, t + t', k', ok, s2)
  {
    assert Text(s) + t + t' == Text(s) + (t + t');
  }

  lemma AppendFails(s: State, noalloc: bool, t: Bytes, k: nat, s1: State, t': Bytes, k': nat)
    requires Appended(s, noalloc, t, k, false, s1) && k <= |t'| + k'
    ensures Appended(s, noalloc, t + t', k', false, s1)
  {
  }

  lemma PrintedAfter(s: State, noalloc: bool, t: Bytes, k: nat, s1: State, t': Bytes, ok: bool, s2: State)
    requires Sound(s) && Appended(s, noalloc, t, k, true, s1) && Printed(s1, noalloc, t', ok, s2) && k <= |t'| + 1
    ensures Printed(s, noalloc, t + t', ok, s2)
  {
    assert Text(s) + t + t' == Text(s) + (t + t');
  }

  lemma PrintFails(s: State, noalloc: bool, t: Bytes, k: nat, s1: State, t': Bytes)
    requires Appended(s, noalloc, t, k, false, s1) && k <= |t'| + 1
    ensures Printed(s, noalloc, t + t', false, s1)
  {
  }

  /** A step fails after others have succeeded. */
  lemma FailsWhole(s: State, noalloc: bool, t: Bytes, k: nat, s1: State, t': Bytes, k': nat, s2: State, rest: Bytes)
    requires Appended(s, noalloc, t, k, true, s1) && Appended(s1, noalloc, t', k', false, s2)
    requires k <= |t'| + k' && k' <= |rest| + 1
    ensures Printed(s, noalloc, t + (t' + rest), false, s2)
  {
  }

  /** What `update_offset` finds after a print, and what the two amount to. */
  lemma PrintedIsAppended(s: State, noalloc: bool, t: Bytes, ok: bool, s1: State)
    requires Sound(s) && NulFree(t) && Printed(s, noalloc, t, ok, s1)
    ensures Appended(s, noalloc, t, 1, ok, if ok then s1.(offset := s.offset + |t|) else s1)
    ensures ok ==> s1.offset <= s.offset + |t| < |s1.buffer| && s1.buffer[s.offset + |t|] == NUL
    ensures ok ==> forall i :: s1.offset <= i < s.offset + |t| ==> s1.buffer[i] != NUL
  {
    if ok {
      forall i | s1.offset <= i < s.offset + |t| ensures s1.buffer[i] != NUL {
        assert s1.buffer[..s.offset + |t|][i] == (Text(s) + t)[i] == t[i - s.offset];
      }
    }
  }

  /** The first line of an object. */
  function OpenText(format: bool): Bytes {
    if format then [OPEN_BRACE, NEWLINE] else [OPEN_BRACE]
  }

  lemma Regroup(a: Bytes, b: Bytes, c: Bytes)
    ensures a + (b + c) == (a + b) + c && a + [] == a
  {
  }

  /** How many bytes escaping adds for one byte. */
  function Extra(c: byte): nat {
    if c == QUOTE || c == BACKSLASH || c == 0x08 || c == 0x0C || c == 0x0A || c == 0x0D || c == 0x09 then 1
    else if c < 0x20 then 5
    else 0
  }

  function Extras(t: Bytes): nat {
    if t == [] then 0 else Extra(t[0]) + Extras(t[1..])
  }

  /** The size the first pass of `print_string_ptr` computes is the size of the escaped text. */
  lemma {:induction false} EstimateIsExact(t: Bytes)
    ensures |Escape(t)| == |t| + Extras(t)
    ensures Extras(t) == 0 ==> Escape(t) == t
    decreases |t|
  {
    if t != [] {
      EstimateIsExact(t[1..]);
      assert |EscapeByte(t[0])| == 1 + Extra(t[0]);
      assert Extra(t[0]) == 0 ==> EscapeByte(t[0]) == [t[0]];
      assert [t[0]] + t[1..] == t;
    }
  }

  /** The first pass of `print_string_ptr`. */
  method CountExtras(t: Bytes) returns (extra: nat)
    ensures extra == Extras(t)
  {
    extra := 0;
    var i := 0;
    assert t[0..] == t;
    while i < |t|
      invariant 0 <= i <= |t| && extra + Extras(t[i..]) == Extras(t)
    {
      assert t[i..][1..] == t[i + 1..];
      if t[i] in {QUOTE, BACKSLASH, 0x08, 0x0C, 0x0A, 0x0D, 0x09} {
        extra := extra + 1;
      } else if t[i] < 0x20 {
        extra := extra + 5;
      }
      i := i + 1;
    }
  }

  class PrintBuffer {
    var buffer: Bytes
    var offset: nat
    var depth: nat
    var plan: seq<bool>
    const noalloc: bool
    const format: bool

    function Snap(): State
      reads this
    {
      State(buffer, offset, plan)
    }

    constructor (block: Bytes, noalloc: bool, format: bool, plan: seq<bool>)
      requires |block| <= INT_MAX
      ensures Sound(Snap()) && buffer == block && offset == depth == 0 && this.plan == plan && this.noalloc == noalloc
      ensures this.format == format
    {
      buffer, offset, depth, this.plan, this.noalloc, this.format := block, 0, 0, plan, noalloc, format;
    }

    /** `ensure` */
    method Ensure(needed: nat) returns (ok: bool)
      requires Sound(Snap())
      modifies this`buffer, this`plan
      ensures Ensured(old(Snap()), noalloc, needed, ok, Snap())
      ensures var total, size := needed + offset + 1, |old(buffer)|;
              ok ==> |buffer| == if total <= size then size else if total <= INT_MAX / 2 then 2 * total else INT_MAX
    {
      if |buffer| > 0 && offset >= |buffer| {
        return false;
      }
      if needed > INT_MAX {
        return false;
      }
      var total := needed + offset + 1;
      if total <= |buffer| {
        return true;
      }
      if noalloc {
        return false;
      }
      var newsize := total * 2;
      if total > INT_MAX / 2 {
        if total > INT_MAX {
          return false;
        }
        newsize := INT_MAX;
      }
      ok := Reallocate(newsize);
    }

    /** `realloc`: what was in the block stays, if the request is granted. */
    method Reallocate(size: nat) returns (ok: bool)
      requires Sound(Snap()) && size > |buffer|
      modifies this`buffer, this`plan
      ensures old(plan) == [] ==> plan == [] && ok
      ensures ok ==> |buffer| == size && buffer[..|old(buffer)|] == old(buffer)
    {
      ok := Ask();
      if ok {
        buffer := buffer + seq(size - |buffer|, _ => 0);
      }
    }

    /** The allocator's next answer. */
    method Ask() returns (ok: bool)
      modifies this`plan
      ensures old(plan) == [] ==> plan == [] && ok
    {
      ok := true;
      if plan != [] {
        ok, plan := plan[0], plan[1..];
      }
    }

    /** A piece of text: room for it and `slack` more bytes, the bytes, a terminator if the source writes one, and
        the step over them. */
    method Append(t: Bytes, slack: nat, ended: bool) returns (ok: bool)
      requires Sound(Snap()) && (ended ==> slack > 0)
      modifies this`buffer, this`plan, this`offset
      ensures Appended(old(Snap()), noalloc, t, slack, ok, Snap())
      ensures ok ==> Sound(Snap()) && (ended ==> offset < |buffer| && buffer[offset] == NUL)
    {
      ok := Ensure(|t| + slack);
      if ok {
        buffer := Overlay(buffer, offset, t);
        if ended {
          buffer := buffer[offset + |t| := NUL];
        }
        offset := offset + |t|;
      }
    }

    /** The last piece of a value, with a terminator behind it; the offset stays in front of it. */
    method Finish(t: Bytes) returns (ok: bool)
      requires Sound(Snap())
      modifies this`buffer, this`plan
      ensures Printed(old(Snap()), noalloc, t, ok, Snap())
    {
      ok := Ensure(|t| + 1);
      if ok {
        buffer := Overlay(buffer, offset, t + [NUL]);
      }
    }

    /** `update_offset`: the offset moves to the end of the text at it. */
    method UpdateOffset(ghost end: nat)
      requires offset <= end < |buffer| && buffer[end] == NUL && forall i :: offset <= i < end ==> buffer[i] != NUL
      modifies this`offset
      ensures offset == end
    {
      while buffer[offset] != NUL
        invariant old(offset) <= offset <= end
        decreases end - offset
      {
        offset := offset + 1;
      }
    }

    /** `print_string_ptr` */
    method WriteString(t: Bytes) returns (ok: bool)
      requires Sound(Snap())
      modifies this`buffer, this`plan
      ensures Printed(old(Snap()), noalloc, PrintString(t), ok, Snap())
    {
      hide Escape, Extras;
      EstimateIsExact(t);
      var extra := CountExtras(t);
      ok := Ensure(|t| + extra + 3);
      if ok {
        FillString(t, extra);
      }
    }

    /** The copy of a string that needs no escapes, or the loop for one that does. */
    method FillString(t: Bytes, extra: nat)
      requires |Escape(t)| == |t| + extra && (extra == 0 ==> Escape(t) == t) && offset + |t| + extra + 4 <= |buffer|
      modifies this`buffer
      ensures |buffer| == |old(buffer)| && buffer[..offset + |PrintString(t)|] == old(buffer[..offset]) + PrintString(t)
      ensures buffer[offset + |PrintString(t)|] == NUL
    {
      hide Escape;
      ghost var end := offset + |t| + extra + 1;
      if extra == 0 {
        var text := [QUOTE] + t + [QUOTE, NUL];
        buffer := Overlay(buffer, offset, text);
        assert text == PrintString(t) + [NUL];
      } else {
        EscapeLoop(t);
        ghost var w := buffer[..end];
        buffer := buffer[offset + |t| + extra + 1 := QUOTE];
        buffer := buffer[offset + |t| + extra + 2 := NUL];
        assert buffer[..end + 1] == w + [QUOTE];
        assert old(buffer[..offset]) + [QUOTE] + Escape(t) + [QUOTE] == old(buffer[..offset]) + PrintString(t);
      }
    }

    /** The loop that copies a string, escaping as it goes. */
    method EscapeLoop(t: Bytes)
      requires offset + |Escape(t)| + 2 < |buffer|
      modifies this`buffer
      ensures |buffer| == |old(buffer)|
      ensures buffer[..offset + 1 + |Escape(t)|] == old(buffer[..offset]) + [QUOTE] + Escape(t)
    {
      hide EscapeByte;
      buffer := buffer[offset := QUOTE];
      ghost var start := buffer[..offset] + [QUOTE];
      var i, out := 0, offset + 1;
      assert t[0..] == t && start + Escape(t) == buffer[..out] + Escape(t);
      while i < |t|
        invariant 0 <= i <= |t| && offset < out && |buffer| == |old(buffer)|
        invariant out + |Escape(t[i..])| == offset + 1 + |Escape(t)|
        invariant buffer[..out] + Escape(t[i..]) == start + Escape(t)
      {
        var x := EscapeByte(t[i]);
        assert t[i..][1..] == t[i + 1..];
        assert Escape(t[i..]) == x + Escape(t[i + 1..]);
        ghost var before := buffer[..out];
        buffer := Overlay(buffer, out, x);
        assert buffer[..out + |x|] == before + x;
        assert (before + x) + Escape(t[i + 1..]) == before + (x + Escape(t[i + 1..]));
        i, out := i + 1, out + |x|;
      }
      assert buffer[..out] + [] == buffer[..out];
    }

    /** A key, and the step over it. */
    method AppendString(t: Bytes) returns (ok: bool)
      requires Sound(Snap()) && NulFree(t)
      modifies this`buffer, this`plan, this`offset
      ensures Appended(old(Snap()), noalloc, PrintString(t), 1, ok, Snap())
      ensures ok ==> Sound(Snap())
    {
      hide Printed, Appended, PrintString;
      StringIsNulFree(t);
      ghost var s := Snap();
      ok := WriteString(t);
      PrintedIsAppended(s, noalloc, PrintString(t), ok, Snap());
      if ok {
        UpdateOffset(s.offset + |PrintString(t)|);
      }
    }

    /** A value, and the step over it. */
    method AppendValue(v: Value) returns (ok: bool)
      requires Sound(Snap()) && Printable(v)
      modifies this
      ensures Appended(old(Snap()), noalloc, Print(v, format, old(depth)), 1, ok, Snap())
      ensures ok ==> Sound(Snap())
      ensures ok ==> depth == old(depth) && offset < |buffer| && buffer[offset] == NUL
      decreases v, 2
    {
      hide Printed, Appended, Print, Printable;
      PrintIsNulFree(v, format, depth);
      ghost var s, t := Snap(), Print(v, format, depth);
      ok := WriteValue(v);
      PrintedIsAppended(s, noalloc, t, ok, Snap());
      if ok {
        UpdateOffset(s.offset + |t|);
      }
    }

    /** `print_value` */
    method WriteValue(v: Value) returns (ok: bool)
      requires Sound(Snap()) && Printable(v)
      modifies this
      ensures Printed(old(Snap()), noalloc, Print(v, format, old(depth)), ok, Snap())
      ensures ok ==> depth == old(depth)
      decreases v, 1
    {
      hide Printed, PrintItems, PrintMembers, NumberText;
      match v {
        case Null =>
          ok := Finish(NULL_TEXT);
        case False =>
          ok := Finish(FALSE_TEXT);
        case True =>
          ok := Finish(TRUE_TEXT);
        case Number(t) =>
          ok := Finish(t);
        case String(t) =>
          ok := WriteString(t);
        case Array(items) =>
          ok := WriteArray(items);
        case Object(members) =>
          ok := WriteObject(members);
      }
    }

    /** `print_array` */
    method WriteArray(items: Items) returns (ok: bool)
      requires Sound(Snap()) && PrintableItems(items)
      modifies this
      ensures Printed(old(Snap()), noalloc, Print(Array(items), format, old(depth)), ok, Snap())
      ensures ok ==> depth == old(depth)
      decreases items, 1
    {
      hide Printed, Appended, Print, PrintItems, PrintableItems;
      ghost var s, d := Snap(), depth + 1;
      ghost var all, close := PrintItems(items, format, d), [CLOSE_BRACKET];
      ArrayText(items, format, depth);
      ok := Append([OPEN_BRACKET], 0, false);
      if !ok {
        PrintFails(s, noalloc, [OPEN_BRACKET], 0, Snap(), all + close);
        return;
      }
      depth := depth + 1;
      var p := items;
      ghost var done, k := [OPEN_BRACKET], 0;
      while p.Item?
        invariant Sound(Snap()) && Appended(s, noalloc, done, k, true, Snap()) && k <= 1
        invariant done + (PrintItems(p, format, d) + close) == [OPEN_BRACKET] + (all + close)
        invariant depth == d && PrintableItems(p) && (p == items || p < items)
        decreases p
      {
        ghost var s1, text, rest := Snap(), ItemText(p, format, d), PrintItems(p.tail, format, d);
        ItemsText(p, format, d);
        assert (text + rest) + close == text + (rest + close);
        ok := AppendItem(p);
        if !ok {
          FailsWhole(s, noalloc, done, k, s1, text, 1, Snap(), rest + close);
          return;
        }
        AppendedTwice(s, noalloc, done, k, s1, text, 1, true, Snap());
        assert done + (text + (rest + close)) == (done + text) + (rest + close);
        done, k := done + text, 1;
        p := p.tail;
      }
      NoItemsText(format, d);
      assert [] + close == close;
      ghost var s1 := Snap();
      ok := Finish([CLOSE_BRACKET]);
      PrintedAfter(s, noalloc, done, k, s1, close, ok, Snap());
      depth := depth - 1;
    }

    /** One turn of the loop of `print_array`. */
    method AppendItem(p: Items) returns (ok: bool)
      requires Sound(Snap()) && p.Item? && Printable(p.head)
      modifies this
      ensures Appended(old(Snap()), noalloc, ItemText(p, format, old(depth)), 1, ok, Snap())
      ensures ok ==> Sound(Snap())
      ensures ok ==> depth == old(depth)
      decreases p, 0
    {
      hide Appended, Print, Printable;
      ghost var s, text := Snap(), Print(p.head, format, depth);
      assert text + [] == text;
      var comma := if format then [COMMA, SPACE] else [COMMA];
      assert comma == [COMMA] + When(format, [SPACE]);
      ok := AppendValue(p.head);
      if p.tail.Item? {
        ghost var s1 := Snap();
        if ok {
          ok := Append(comma, 1, true);
          AppendedTwice(s, noalloc, text, 1, s1, comma, 1, ok, Snap());
        } else {
          AppendFails(s, noalloc, text, 1, s1, comma, 1);
        }
      }
    }

    /** `print_object` up to its closing line. */
    method AppendOpening(members: Members) returns (ok: bool)
      requires Sound(Snap()) && PrintableMembers(members)
      modifies this
      ensures var text := OpenText(format) + PrintMembers(members, format, old(depth) + 1);
              Appended(old(Snap()), noalloc, text, 1, ok, Snap())
      ensures ok ==> Sound(Snap()) && depth == old(depth) + 1
      decreases members, 2
    {
      hide Appended, PrintMembers, PrintableMembers;
      var open := if format then [OPEN_BRACE, NEWLINE] else [OPEN_BRACE];
      ghost var s, all := Snap(), PrintMembers(members, format, depth + 1);
      ok := Append(open, 1, false);
      ghost var s1 := Snap();
      if !ok {
        AppendFails(s, noalloc, open, 1, s1, all, 1);
        return;
      }
      depth := depth + 1;
      ok := AppendMembers(members);
      if members.Member? {
        AppendedTwice(s, noalloc, open, 1, s1, all, 1, ok, Snap());
      } else {
        NoMembersText(format, depth);
        Regroup(open, [], []);
      }
    }

    /** `print_object` */
    method WriteObject(members: Members) returns (ok: bool)
      requires Sound(Snap()) && PrintableMembers(members)
      modifies this
      ensures Printed(old(Snap()), noalloc, Print(Object(members), format, old(depth)), ok, Snap())
      ensures ok ==> depth == old(depth)
      decreases members, 3
    {
      hide Printed, Appended, Print, PrintMembers, PrintableMembers, Tabs;
      ghost var s, open := Snap(), OpenText(format);
      ghost var all, close := PrintMembers(members, format, depth + 1), When(format, Tabs(depth)) + [CLOSE_BRACE];
      ObjectText(members, format, depth, open, close);
      Regroup(open, all, close);
      ok := AppendOpening(members);
      ghost var s2 := Snap();
      if !ok {
        PrintFails(s, noalloc, open + all, 1, s2, close);
        return;
      }
      var tabs := [];
      if format {
        tabs := Indent(depth - 1);
      }
      ok := Finish(tabs + [CLOSE_BRACE]);
      PrintedAfter(s, noalloc, open + all, 1, s2, close, ok, Snap());
      depth := depth - 1;
    }

    /** The loop of `print_object`. */
    method AppendMembers(members: Members) returns (ok: bool)
      requires Sound(Snap()) && PrintableMembers(members)
      modifies this
      ensures if members.Member?
              then Appended(old(Snap()), noalloc, PrintMembers(members, format, old(depth)), 1, ok, Snap())
              else ok && Snap() == old(Snap())
      ensures ok ==> Sound(Snap()) && depth == old(depth)
      decreases members, 1
    {
      hide Appended, Print, PrintMembers, PrintableMembers, MemberText, Tabs;
      ghost var s, all := Snap(), PrintMembers(members, format, depth);
      var p := members;
      ghost var done := [];
      ok := true;
      assert [] + all == all;
      while p.Member?
        invariant Sound(Snap())
        invariant if p == members then done == [] && Snap() == s else Appended(s, noalloc, done, 1, true, Snap())
        invariant ok && done + PrintMembers(p, format, depth) == all && (p != members ==> members.Member?)
        invariant depth == old(depth) && PrintableMembers(p) && (p == members || p < members)
        decreases p
      {
        ghost var s1, text, rest := Snap(), MemberText(p, format, depth), PrintMembers(p.rest, format, depth);
        MembersText(p, format, depth);
        assert done + (text + rest) == (done + text) + rest;
        ok := AppendMember(p);
        if p != members {
          AppendedTwice(s, noalloc, done, 1, s1, text, 1, ok, Snap());
        } else {
          assert done + text == text;
        }
        if !ok {
          AppendFails(s, noalloc, done + text, 1, Snap(), rest, 1);
          return;
        }
        done := done + text;
        p := p.rest;
      }
      NoMembersText(format, depth);
      assert done + [] == done;
    }

    /** One turn of the loop of `print_object`. */
    method AppendMember(p: Members) returns (ok: bool)
      requires Sound(Snap()) && p.Member? && NulFree(p.key) && Printable(p.value)
      modifies this
      ensures Appended(old(Snap()), noalloc, MemberText(p, format, old(depth)), 1, ok, Snap())
      ensures ok ==> Sound(Snap())
      ensures ok ==> depth == old(depth)
      decreases p, 0
    {
      hide Appended, Print, Printable, NulFree, PrintString, Tabs, KeyText;
      ghost var s, d := Snap(), depth;
      ghost var key, colon := KeyText(p, format, d), [COLON] + When(format, [TAB]);
      ghost var text, comma := Print(p.value, format, d), CommaText(p, format);
      assert colon == if format then [COLON, TAB] else [COLON];
      ok := AppendKey(p);
      ghost var s1 := Snap();
      if !ok {
        AppendFails(s, noalloc, key, 1, s1, colon + (text + comma), 1);
        return;
      }
      ok := Append(if format then [COLON, TAB] else [COLON], 0, false);
      ghost var s2 := Snap();
      if !ok {
        AppendFails(s1, noalloc, colon, 0, s2, text + comma, 1);
        AppendedTwice(s, noalloc, key, 1, s1, colon + (text + comma), 1, false, s2);
        return;
      }
      ok := AppendValue(p.value);
      ghost var s3 := Snap();
      if !ok {
        AppendFails(s2, noalloc, text, 1, s3, comma, 1);
      } else {
        var end := if p.rest.Member? then [COMMA] else [];
        end := end + if format then [NEWLINE] else [];
        ok := Append(end, 1, true);
        AppendedTwice(s2, noalloc, text, 1, s3, comma, 1, ok, Snap());
      }
      AppendedTwice(s1, noalloc, colon, 0, s2, text + comma, 1, ok, Snap());
      AppendedTwice(s, noalloc, key, 1, s1, colon + (text + comma), 1, ok, Snap());
    }

    /** The indent of a member, in formatted output, and its key. */
    method AppendKey(p: Members) returns (ok: bool)
      requires Sound(Snap()) && p.Member? && NulFree(p.key)
      modifies this`buffer, this`plan, this`offset
      ensures Appended(old(Snap()), noalloc, KeyText(p, format, depth), 1, ok, Snap())
      ensures ok ==> Sound(Snap())
    {
      hide Appended, PrintString, NulFree;
      ghost var s, key := Snap(), PrintString(p.key);
      assert [] + key == key;
      if format {
        var tabs := Indent(depth);
        ok := Append(tabs, 0, false);
        ghost var s1 := Snap();
        if !ok {
          AppendFails(s, noalloc, tabs, 0, s1, key, 1);
          return;
        }
        ok := AppendString(p.key);
        AppendedTwice(s, noalloc, tabs, 0, s1, key, 1, ok, Snap());
      } else {
        ok := AppendString(p.key);
      }
    }
  }

  /** The loop that writes an indent. */
  method Indent(n: nat) returns (tabs: Bytes)
    ensures tabs == Tabs(n)
  {
    tabs := [];
    for i := 0 to n
      invariant tabs == Tabs(i)
    {
      tabs := tabs + [TAB];
    }
  }

  function ItemText(p: Items, fmt: bool, d: nat): Bytes
    requires p.Item?
  {
    Print(p.head, fmt, d) + if p.tail.Item? then [COMMA] + When(fmt, [SPACE]) else []
  }

  lemma ItemsText(p: Items, fmt: bool, d: nat)
    requires p.Item?
    ensures PrintItems(p, fmt, d) == ItemText(p, fmt, d) + PrintItems(p.tail, fmt, d)
    ensures PrintableItems(p) ==> PrintableItems(p.tail) && Printable(p.head)
  {
    hide Print;
    var w := Print(p.head, fmt, d);
    if p.tail.Item? {
      var comma := [COMMA] + When(fmt, [SPACE]);
      assert w + (comma + PrintItems(p.tail, fmt, d)) == (w + comma) + PrintItems(p.tail, fmt, d);
    }
  }

  lemma NoItemsText(fmt: bool, d: nat)
    ensures PrintItems(NoItem, fmt, d) == []
  {
  }

  lemma ArrayText(items: Items, fmt: bool, d: nat)
    ensures Print(Array(items), fmt, d) == [OPEN_BRACKET] + (PrintItems(items, fmt, d + 1) + [CLOSE_BRACKET])
  {
    hide PrintItems;
  }

  function KeyText(p: Members, fmt: bool, d: nat): Bytes
    requires p.Member?
  {
    When(fmt, Tabs(d)) + PrintString(p.key)
  }

  function CommaText(p: Members, fmt: bool): Bytes
    requires p.Member?
  {
    (if p.rest.Member? then [COMMA] else []) + When(fmt, [NEWLINE])
  }

  function MemberText(p: Members, fmt: bool, d: nat): Bytes
    requires p.Member?
  {
    KeyText(p, fmt, d) + ([COLON] + When(fmt, [TAB]) + (Print(p.value, fmt, d) + CommaText(p, fmt)))
  }

  lemma MembersText(p: Members, fmt: bool, d: nat)
    requires p.Member?
    ensures PrintMembers(p, fmt, d) == MemberText(p, fmt, d) + PrintMembers(p.rest, fmt, d)
    ensures PrintableMembers(p) ==> PrintableMembers(p.rest) && Printable(p.value) && NulFree(p.key)
  {
    hide Print, PrintString;
    MemberPieces(When(fmt, Tabs(d)), PrintString(p.key), [COLON], When(fmt, [TAB]), Print(p.value, fmt, d),
                 if p.rest.Member? then [COMMA] else [], When(fmt, [NEWLINE]), PrintMembers(p.rest, fmt, d));
  }

  lemma MemberPieces(a: Bytes, b: Bytes, c: Bytes, d: Bytes, e: Bytes, f: Bytes, g: Bytes, h: Bytes)
    ensures a + b + c + d + e + f + g + h == ((a + b) + (c + d + (e + (f + g)))) + h
  {
  }

  lemma NoMembersText(fmt: bool, d: nat)
    ensures PrintMembers(NoMember, fmt, d) == []
  {
  }

  lemma ObjectText(members: Members, fmt: bool, d: nat, open: Bytes, close: Bytes)
    requires open == [OPEN_BRACE] + When(fmt, [NEWLINE]) && close == When(fmt, Tabs(d)) + [CLOSE_BRACE]
    ensures Print(Object(members), fmt, d) == open + (PrintMembers(members, fmt, d + 1) + close)
  {
    hide PrintMembers;
  }

  /** The end of `print`: the block cut off behind the terminator, or a copy of that part with one written. */
  method Shrunk(buffer: Bytes, offset: nat, realloc: bool) returns (text: Bytes)
    requires offset < |buffer| && buffer[offset] == NUL
    ensures text == buffer[..offset] + [NUL]
  {
    text := buffer[..offset + 1];
    if !realloc {
      text := text[offset := NUL];
    }
  }

  /** `print`: what `cJSON_Print` and `cJSON_PrintUnformatted` return, with `realloc` or by copying. Asked for are
      the first block, the larger ones, and at the end a block of the size of the text and its terminator. With an
      allocator that grants every request they succeed exactly when the text and two bytes more fit in an `int`. */
  method PrintText(v: Value, format: bool, realloc: bool, plan: seq<bool>) returns (ok: bool, text: Bytes)
    requires Printable(v)
    ensures ok ==> text == Print(v, format, 0) + [NUL]
    ensures plan == [] ==> (ok <==> |Print(v, format, 0)| + 2 <= INT_MAX)
  {
    hide Print, Printable;
    text := [];
    var p := new PrintBuffer(seq(256, _ => 0), false, format, plan);
    ok := p.Ask();
    if !ok {
      return;
    }
    ok := p.AppendValue(v);
    if !ok {
      return;
    }
    ok := p.Ask();
    if ok {
      text := Shrunk(p.buffer, p.offset, realloc);
    }
  }

  /** `cJSON_PrintPreallocated` succeeds exactly when the caller's buffer has room for the text, its
      terminator and one byte more. */
  method PrintPreallocated(v: Value, block: Bytes, format: bool) returns (ok: bool, result: Bytes)
    requires Printable(v) && |block| <= INT_MAX
    ensures ok <==> |Print(v, format, 0)| + 2 <= |block|
    ensures ok ==> |result| == |block| && Print(v, format, 0) + [NUL] <= result
  {
    hide Print, Printable;
    var p := new PrintBuffer(block, true, format, []);
    ok := p.WriteValue(v);
    result := p.buffer;
    if ok {
      assert result[..|Print(v, format, 0)|] == Print(v, format, 0);
    }
  }
}
