/** JSON trees as cJSON holds them, and the text cJSON_Print and cJSON_PrintUnformatted give for them. */
module Json {
  import opened Bytes

  /** The children of an array, as the `next` chain links them. */
  datatype Items = NoItem | Item(head: Value, tail: Items)

  /** The children of an object; every child has a `string`. */
  datatype Members = NoMember | Member(key: Bytes, value: Value, rest: Members)

  /** Numbers are the text `print_number` gives for them. */
  datatype Value =
    | Null | False | True | Number(text: Bytes) | String(text: Bytes)
    | Array(items: Items) | Object(members: Members)

  const NUL: byte := 0x00
  const TAB: byte := 0x09
  const NEWLINE: byte := 0x0A
  const SPACE: byte := 0x20
  const QUOTE: byte := 0x22
  const COMMA: byte := 0x2C
  const COLON: byte := 0x3A
  const BACKSLASH: byte := 0x5C
  const LETTER_U: byte := 0x75
  const OPEN_BRACKET: byte := 0x5B
  const CLOSE_BRACKET: byte := 0x5D
  const OPEN_BRACE: byte := 0x7B
  const CLOSE_BRACE: byte := 0x7D

  const NULL_TEXT: Bytes := [0x6E, 0x75, 0x6C, 0x6C]
  const FALSE_TEXT: Bytes := [0x66, 0x61, 0x6C, 0x73, 0x65]
  const TRUE_TEXT: Bytes := [0x74, 0x72, 0x75, 0x65]

  const NESTING_LIMIT: nat := 1000

  /** Bytes `parse_number` collects: digits, signs, exponent and point. */
  predicate NumberByte(c: byte) {
    0x30 <= c <= 0x39 || c == 0x2B || c == 0x2D || c == 0x65 || c == 0x45 || c == 0x2E
  }

  /** A number text that `parse_value` recognises and `parse_number` collects whole. */
  predicate NumberText(t: Bytes) {
    0 < |t| <= 63 && (t[0] == 0x2D || 0x30 <= t[0] <= 0x39) && forall i :: 0 <= i < |t| ==> NumberByte(t[i])
  }

  predicate NulFree(s: Bytes) {
    NUL !in s
  }

  /** Trees that can come out of the printer: C strings and number texts. */
  predicate Printable(v: Value) {
    match v
    case Number(t) => NumberText(t)
    case String(s) => NulFree(s)
    case Array(items) => PrintableItems(items)
    case Object(members) => PrintableMembers(members)
    case _ => true
  }

  predicate PrintableItems(items: Items) {
    items.Item? ==> Printable(items.head) && PrintableItems(items.tail)
  }

  predicate PrintableMembers(members: Members) {
    members.Member? ==> NulFree(members.key) && Printable(members.value) && PrintableMembers(members.rest)
  }

  /** How many arrays and objects are open at the deepest point. */
  function Height(v: Value): nat {
    match v
    case Array(items) => 1 + ItemsHeight(items)
    case Object(members) => 1 + MembersHeight(members)
    case _ => 0
  }

  function Max(a: nat, b: nat): nat {
    if a < b then b else a
  }

  function ItemsHeight(items: Items): nat {
    match items
    case NoItem => 0
    case Item(head, tail) => Max(Height(head), ItemsHeight(tail))
  }

  function MembersHeight(members: Members): nat {
    match members
    case NoMember => 0
    case Member(_, value, rest) => Max(Height(value), MembersHeight(rest))
  }

  /** The last two of the four digits `sprintf("u%04x")` writes for a control character. */
  function HexTens(c: byte): byte
    requires c < 0x20
  {
    if c < 0x10 then 0x30 else 0x31
  }

  function HexOnes(c: byte): byte
    requires c < 0x20
  {
    var n := if c < 0x10 then c else c - 0x10;
    if n < 10 then 0x30 + n else 0x57 + n
  }

  /** What `print_string_ptr` writes for one byte. */
  function EscapeByte(c: byte): (r: Bytes)
    ensures |r| > 0
  {
    if c == BACKSLASH || c == QUOTE then [BACKSLASH, c]
    else if c == 0x08 then [BACKSLASH, 0x62]
    else if c == 0x0C then [BACKSLASH, 0x66]
    else if c == 0x0A then [BACKSLASH, 0x6E]
    else if c == 0x0D then [BACKSLASH, 0x72]
    else if c == 0x09 then [BACKSLASH, 0x74]
    else if c < 0x20 then [BACKSLASH, LETTER_U, 0x30, 0x30, HexTens(c), HexOnes(c)]
    else [c]
  }

  function Escape(s: Bytes): Bytes {
    if s == [] then [] else EscapeByte(s[0]) + Escape(s[1..])
  }

  function PrintString(s: Bytes): Bytes {
    [QUOTE] + Escape(s) + [QUOTE]
  }

  function Tabs(n: nat): (r: Bytes)
    ensures |r| == n && forall i :: 0 <= i < n ==> r[i] == TAB
  {
    seq(n, _ => TAB)
  }

  /** Text that appears only in formatted output. */
  function When(fmt: bool, t: Bytes): Bytes {
    if fmt then t else []
  }

  /** `print_value` at nesting depth `depth`. */
  function Print(v: Value, fmt: bool, depth: nat): Bytes {
    match v
    case Null => NULL_TEXT
    case False => FALSE_TEXT
    case True => TRUE_TEXT
    case Number(t) => t
    case String(s) => PrintString(s)
    case Array(items) => [OPEN_BRACKET] + PrintItems(items, fmt, depth + 1) + [CLOSE_BRACKET]
    case Object(members) =>
      [OPEN_BRACE] + When(fmt, [NEWLINE]) + PrintMembers(members, fmt, depth + 1)
      + When(fmt, Tabs(depth)) + [CLOSE_BRACE]
  }

  /** The loop of `print_array`. */
  function PrintItems(items: Items, fmt: bool, depth: nat): Bytes {
    match items
    case NoItem => []
    case Item(head, tail) =>
      Print(head, fmt, depth) +
      (if tail.Item? then [COMMA] + When(fmt, [SPACE]) + PrintItems(tail, fmt, depth) else [])
  }

  /** The loop of `print_object`. */
  function PrintMembers(members: Members, fmt: bool, depth: nat): Bytes {
    match members
    case NoMember => []
    case Member(key, value, rest) =>
      When(fmt, Tabs(depth)) + PrintString(key) + [COLON] + When(fmt, [TAB]) + Print(value, fmt, depth) +
      (if rest.Member? then [COMMA] else []) + When(fmt, [NEWLINE]) + PrintMembers(rest, fmt, depth)
  }
}
