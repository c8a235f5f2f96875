/** String literals: the scan for the closing quote, the escape decoder, UTF-16 escapes and UTF-8. */
module JsonString {
  import opened Bytes
  import opened Json

  /** Outcome of the first pass of `parse_string`: the index of the closing quote and the number of
      escape sequences passed. */
  datatype Scan = Unterminated | Closed(end: nat, skipped: nat)

  function ScanString(s: Bytes, t: nat): (r: Scan)
    requires t <= |s|
    ensures r.Closed? ==> t <= r.end < |s| && s[r.end] == QUOTE && r.skipped <= r.end - t
    decreases |s| - t
  {
    if t == |s| then Unterminated
    else if s[t] == QUOTE then Closed(t, 0)
    else if s[t] != BACKSLASH then ScanString(s, t + 1)
    else if t + 1 >= |s| then Unterminated
    else match ScanString(s, t + 2)
      case Unterminated => Unterminated
      case Closed(end, skipped) => Closed(end, skipped + 1)
  }

  /** Value of a hexadecimal digit. */
  function HexValue(c: byte): (r: Option)
    ensures r.Some? ==> 0 <= r.value < 16
  {
    if 0x30 <= c <= 0x39 then Some(c as int - 0x30)
    else if 0x41 <= c <= 0x46 then Some(c as int - 0x41 + 10)
    else if 0x61 <= c <= 0x66 then Some(c as int - 0x61 + 10)
    else None
  }

  datatype Option = None | Some(value: int)

  /** `parse_hex4`: 0 when one of the four is not a digit. */
  function Hex4(a: byte, b: byte, c: byte, d: byte): (r: nat)
    ensures r < 0x1_0000
  {
    match (HexValue(a), HexValue(b), HexValue(c), HexValue(d))
    case (Some(w), Some(x), Some(y), Some(z)) => ((w * 16 + x) * 16 + y) * 16 + z
    case _ => 0
  }

  function Hex4At(s: Bytes, i: nat): (r: nat)
    requires i + 4 <= |s|
    ensures r < 0x1_0000
  {
    Hex4(s[i], s[i + 1], s[i + 2], s[i + 3])
  }

  /** UTF-8 of a code point, section 3 of RFC 3629. */
  function Utf8(cp: nat): (r: Bytes)
    requires cp < 0x11_0000
    ensures 1 <= |r| <= 4
    ensures cp < 0x1_0000 ==> |r| <= 3
  {
    if cp < 0x80 then [cp as byte]
    else if cp < 0x800 then [(0xC0 + cp / 0x40) as byte, (0x80 + cp % 0x40) as byte]
    else if cp < 0x1_0000 then
      [(0xE0 + cp / 0x40 / 0x40) as byte, (0x80 + cp / 0x40 % 0x40) as byte, (0x80 + cp % 0x40) as byte]
    else
      [(0xF0 + cp / 0x40 / 0x40 / 0x40) as byte, (0x80 + cp / 0x40 / 0x40 % 0x40) as byte,
       (0x80 + cp / 0x40 % 0x40) as byte, (0x80 + cp % 0x40) as byte]
  }

  datatype Literal = BadLiteral | Literal(len: nat, bytes: Bytes)

  predicate HighSurrogate(u: nat) {
    0xD800 <= u <= 0xDBFF
  }

  predicate LowSurrogate(u: nat) {
    0xDC00 <= u <= 0xDFFF
  }

  /** Code point of a surrogate pair. */
  function Combine(high: nat, low: nat): (cp: nat)
    requires HighSurrogate(high) && LowSurrogate(low)
    ensures 0x1_0000 <= cp < 0x11_0000
  {
    0x1_0000 + high % 0x400 * 0x400 + low % 0x400
  }

  /** `utf16_literal_to_utf8` for the escape at `p` in a literal that ends at `e`. */
  function DecodeUtf16(s: Bytes, p: nat, e: nat): (r: Literal)
    requires p <= e < |s|
    ensures r.Literal? ==> r.len in {6, 12} && p + r.len <= e && 1 <= |r.bytes| && 2 * |r.bytes| <= r.len
  {
    if e - p < 6 then BadLiteral
    else
      var first := Hex4At(s, p + 2);
      if LowSurrogate(first) then BadLiteral
      else if !HighSurrogate(first) then Literal(6, Utf8(first))
      else if e - (p + 6) < 6 || s[p + 6] != BACKSLASH || s[p + 7] != LETTER_U then BadLiteral
      else
        var second := Hex4At(s, p + 8);
        if LowSurrogate(second) then Literal(12, Utf8(Combine(first, second))) else BadLiteral
  }

  /** The one-letter escapes. */
  function SimpleEscape(c: byte): Option {
    if c == 0x62 then Some(0x08)
    else if c == 0x66 then Some(0x0C)
    else if c == 0x6E then Some(0x0A)
    else if c == 0x72 then Some(0x0D)
    else if c == 0x74 then Some(0x09)
    else if c == QUOTE || c == BACKSLASH || c == 0x2F then Some(c as int)
    else None
  }

  datatype Decoding = Decoded(out: Bytes) | BadEscape(at: nat)

  /** One turn of the decode loop: how far it moves and what it writes, or failure. */
  function DecodeOne(s: Bytes, p: nat, e: nat): (r: Literal)
    requires p < e < |s|
    ensures r.Literal? ==> 1 <= r.len && 1 <= |r.bytes| && (p + r.len <= e || (p + 1 == e && r.len == 2))
  {
    if s[p] != BACKSLASH then Literal(1, [s[p]])
    else if s[p + 1] == LETTER_U then DecodeUtf16(s, p, e)
    else match SimpleEscape(s[p + 1])
      case Some(c) => Literal(2, [c as byte])
      case None => BadLiteral
  }

  /** How one turn of the decode loop reads the literal. */
  type Turn = (Bytes, nat, nat) -> Literal

  /** The decode loop of `parse_string` from `p` up to the closing quote at `e`. */
  function DecodeWith(turn: Turn, s: Bytes, p: nat, e: nat): Decoding
    decreases e - p
  {
    if p >= e then Decoded([])
    else match turn(s, p, e)
      case BadLiteral => BadEscape(p)
      case Literal(len, bytes) =>
        if len == 0 then BadEscape(p)
        else match DecodeWith(turn, s, p + len, e)
          case BadEscape(at) => BadEscape(at)
          case Decoded(out) => Decoded(bytes + out)
  }

  /** The turn the source makes. */
  function SourceTurn(s: Bytes, p: nat, e: nat): Literal {
    if p < e < |s| then DecodeOne(s, p, e) else BadLiteral
  }

  function Decode(s: Bytes, p: nat, e: nat): Decoding {
    DecodeWith(SourceTurn, s, p, e)
  }

  /** The scan and the decoder may disagree on where escapes start, but wherever the decoder stands the
      scan has a token boundary there or one byte on, and among any `q - t` bytes at most every second
      one starts an escape. */
  lemma NextBoundary(s: Bytes, t: nat, q: nat) returns (t': nat)
    requires t <= q + 1 && t <= |s| && ScanString(s, t).Closed? && q <= ScanString(s, t).end
    ensures q <= t' <= q + 1 && t' <= |s| && ScanString(s, t').Closed? && ScanString(s, t').end == ScanString(s, t).end
    ensures ScanString(s, t).skipped <= ScanString(s, t').skipped + if t <= q then (q - t + 1) / 2 else 0
    decreases q + 1 - t
  {
    if t >= q {
      t' := t;
    } else if s[t] == BACKSLASH {
      t' := NextBoundary(s, t + 2, q);
    } else {
      t' := NextBoundary(s, t + 1, q);
    }
  }

  /** The decoder has written no more than the scan has allowed for, with the decoder at `p` and a scan
      boundary at `t`. */
  ghost predicate WithinEstimate(s: Bytes, start: nat, p: nat, t: nat, written: nat) {
    && start <= p <= t <= p + 1 && t <= |s|
    && ScanString(s, start).Closed? && ScanString(s, t).Closed? && ScanString(s, t).end == ScanString(s, start).end
    && written + ScanString(s, start).skipped <= p - start + ScanString(s, t).skipped
  }

  /** Each turn of the decode loop keeps within the estimate, also when malformed digits have put the
      two passes out of step. */
  lemma TurnWithinEstimate(s: Bytes, start: nat, p: nat, t: nat, written: nat) returns (t': nat)
    requires start <= |s| && WithinEstimate(s, start, p, t, written) && p < ScanString(s, start).end
    requires DecodeOne(s, p, ScanString(s, start).end).Literal?
    ensures var e, r := ScanString(s, start).end, DecodeOne(s, p, ScanString(s, start).end);
            && written + |r.bytes| + ScanString(s, start).skipped <= e - start
            && (p + r.len <= e ==> WithinEstimate(s, start, p + r.len, t', written + |r.bytes|))
  {
    var e := ScanString(s, start).end;
    var r := DecodeOne(s, p, e);
    t' := p + 1;
    if s[p] == BACKSLASH && p + r.len <= e {
      t' := NextBoundary(s, t, p + r.len);
    }
  }
}
