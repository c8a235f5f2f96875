/** What string literals mean: section 7 of RFC 8259 for escapes and surrogate pairs, sections 3 and 4 of
    RFC 3629 for UTF-8. */
module JsonUnicode {
  import opened Bytes
  import opened Json
  import opened JsonString

  /** A Unicode scalar value: any code point but the surrogates. */
  predicate Scalar(cp: nat) {
    cp < 0xD800 || 0xE000 <= cp < 0x11_0000
  }

  predicate Tail(c: byte) {
    0x80 <= c <= 0xBF
  }

  /** The grammar of section 4 of RFC 3629, with the value of the sequence. */
  function Utf8Read(b: Bytes): Option {
    if |b| == 1 && b[0] < 0x80 then Some(b[0] as int)
    else if |b| == 2 && 0xC2 <= b[0] <= 0xDF && Tail(b[1]) then
      Some((b[0] as int - 0xC0) * 0x40 + (b[1] as int - 0x80))
    else if |b| == 3 && 0xE0 <= b[0] <= 0xEF && Tail(b[1]) && Tail(b[2]) && (b[0] == 0xE0 ==> b[1] >= 0xA0)
        && (b[0] == 0xED ==> b[1] <= 0x9F) then
      Some((b[0] as int - 0xE0) * 0x1000 + (b[1] as int - 0x80) * 0x40 + (b[2] as int - 0x80))
    else if |b| == 4 && 0xF0 <= b[0] <= 0xF4 && Tail(b[1]) && Tail(b[2]) && Tail(b[3])
        && (b[0] == 0xF0 ==> b[1] >= 0x90) && (b[0] == 0xF4 ==> b[1] <= 0x8F) then
      Some((b[0] as int - 0xF0) * 0x4_0000 + (b[1] as int - 0x80) * 0x1000 + (b[2] as int - 0x80) * 0x40 +
          (b[3] as int - 0x80))
    else None
  }

  /** The encoder gives the one well-formed sequence of a scalar value, and no well-formed sequence for a
      surrogate. */
  lemma Utf8Encodes(cp: nat)
    requires cp < 0x11_0000
    ensures Utf8Read(Utf8(cp)) == if Scalar(cp) then Some(cp) else None
  {
  }

  lemma Sextet(q: nat, r: nat)
    requires r < 0x40
    ensures (q * 0x40 + r) / 0x40 == q && (q * 0x40 + r) % 0x40 == r
  {
  }

  lemma Utf8IsUnique(b: Bytes)
    requires Utf8Read(b).Some?
    ensures 0 <= Utf8Read(b).value < 0x11_0000 && Utf8(Utf8Read(b).value) == b
  {
    if |b| == 2 {
      Sextet(b[0] as int - 0xC0, b[1] as int - 0x80);
    } else if |b| == 3 {
      var q := (b[0] as int - 0xE0) * 0x40 + (b[1] as int - 0x80);
      Sextet(b[0] as int - 0xE0, b[1] as int - 0x80);
      Sextet(q, b[2] as int - 0x80);
      assert Utf8Read(b).value == q * 0x40 + (b[2] as int - 0x80);
    } else if |b| == 4 {
      var q := (b[0] as int - 0xF0) * 0x40 + (b[1] as int - 0x80);
      var r := q * 0x40 + (b[2] as int - 0x80);
      Sextet(b[0] as int - 0xF0, b[1] as int - 0x80);
      Sextet(q, b[2] as int - 0x80);
      Sextet(r, b[3] as int - 0x80);
      assert Utf8Read(b).value == r * 0x40 + (b[3] as int - 0x80);
    }
  }

  function High(cp: nat): nat
    requires 0x1_0000 <= cp < 0x11_0000
  {
    0xD800 + (cp - 0x1_0000) / 0x400
  }

  function Low(cp: nat): nat
    requires 0x1_0000 <= cp < 0x11_0000
  {
    0xDC00 + (cp - 0x1_0000) % 0x400
  }

  /** The surrogate formula of the decoder inverts the split of a supplementary code point. */
  lemma SurrogatesCombine(cp: nat)
    requires 0x1_0000 <= cp < 0x11_0000
    ensures HighSurrogate(High(cp)) && LowSurrogate(Low(cp)) && Combine(High(cp), Low(cp)) == cp
  {
  }

  lemma SurrogatesSplit(high: nat, low: nat)
    requires HighSurrogate(high) && LowSurrogate(low)
    ensures High(Combine(high, low)) == high && Low(Combine(high, low)) == low
  {
  }

  /** `c` is a hexadecimal digit of value `v`, in either case. */
  predicate Digit(c: byte, v: nat) {
    if v < 10 then c as int == 0x30 + v else v < 16 && (c as int == 0x41 + v - 10 || c as int == 0x61 + v - 10)
  }

  /** An escape for the UTF-16 code unit `u` stands at `p`, in front of `e`. */
  predicate Unit(s: Bytes, p: nat, e: nat, u: nat) {
    && p + 6 <= e < |s| && s[p] == BACKSLASH && s[p + 1] == LETTER_U && u < 0x1_0000
    && Digit(s[p + 2], u / 0x1000) && Digit(s[p + 3], u / 0x100 % 16) && Digit(s[p + 4], u / 16 % 16)
    && Digit(s[p + 5], u % 16)
  }

  lemma DigitIsRead(c: byte, v: nat)
    requires Digit(c, v)
    ensures HexValue(c) == Some(v)
  {
  }

  lemma UnitIsRead(s: Bytes, p: nat, e: nat, u: nat)
    requires Unit(s, p, e, u)
    ensures p + 6 <= e < |s| && s[p] == BACKSLASH && s[p + 1] == LETTER_U && Hex4At(s, p + 2) == u
  {
    hide Digit, HexValue;
    DigitIsRead(s[p + 2], u / 0x1000);
    DigitIsRead(s[p + 3], u / 0x100 % 16);
    DigitIsRead(s[p + 4], u / 16 % 16);
    DigitIsRead(s[p + 5], u % 16);
    assert u == ((u / 0x1000 * 16 + u / 0x100 % 16) * 16 + u / 16 % 16) * 16 + u % 16;
  }

  predicate HexDigit(c: byte) {
    0x30 <= c <= 0x39 || 0x41 <= c <= 0x46 || 0x61 <= c <= 0x66
  }

  /** What the decoder takes a string literal to consist of: bytes that stand for themselves, one-letter escapes and
      escaped scalar values; and, beyond RFC 8259, escapes `\u` whose four digits are not all hexadecimal, and a
      backslash in front of the closing quote, which such digits can leave behind. */
  datatype Piece = Plain(c: byte) | Short(letter: byte) | Escaped(cp: nat) | Garbled | Dangling

  /** The piece stands at `p`, in front of `e`. */
  predicate Spelled(s: Bytes, p: nat, e: nat, piece: Piece) {
    p + Width(piece) <= e < |s| &&
    match piece
    case Plain(c) => s[p] == c && c != 0x5C
    case Short(letter) =>
      && s[p] == 0x5C && s[p + 1] == letter
      && letter in {0x62, 0x66, 0x6E, 0x72, 0x74, 0x22, 0x5C, 0x2F}
    case Escaped(cp) =>
      && Scalar(cp)
      && if cp < 0x1_0000 then Unit(s, p, e, cp) else Unit(s, p, e, High(cp)) && Unit(s, p + 6, e, Low(cp))
    case Garbled =>
      && s[p] == 0x5C && s[p + 1] == 0x75
      && !(HexDigit(s[p + 2]) && HexDigit(s[p + 3]) && HexDigit(s[p + 4]) && HexDigit(s[p + 5]))
    case Dangling => p + 1 == e && s[p] == 0x5C && s[e] == 0x22
  }

  function Width(piece: Piece): (n: nat)
    ensures n > 0
  {
    match piece
    case Plain(_) => 1
    case Short(_) => 2
    case Escaped(cp) => if cp < 0x1_0000 then 6 else 12
    case Garbled => 6
    case Dangling => 1
  }

  /** The bytes a piece stands for. */
  function Meaning(piece: Piece): Bytes {
    match piece
    case Plain(c) => [c]
    case Short(letter) =>
      if letter == 0x62 then [0x08] else if letter == 0x66 then [0x0C] else if letter == 0x6E then [0x0A]
      else if letter == 0x72 then [0x0D] else if letter == 0x74 then [0x09] else [letter]
    case Escaped(cp) => if cp < 0x11_0000 then Utf8(cp) else []
    case Garbled => [0x00]
    case Dangling => [0x22]
  }

  predicate SpelledAll(s: Bytes, p: nat, e: nat, pieces: seq<Piece>)
    decreases |pieces|
  {
    if pieces == [] then p == e < |s|
    else Spelled(s, p, e, pieces[0]) && SpelledAll(s, p + Width(pieces[0]), e, pieces[1..])
  }

  function MeaningAll(pieces: seq<Piece>): Bytes {
    if pieces == [] then [] else Meaning(pieces[0]) + MeaningAll(pieces[1..])
  }

  /** One turn of the decoder reads one piece. */
  lemma TurnReads(s: Bytes, p: nat, e: nat, piece: Piece)
    requires Spelled(s, p, e, piece)
    ensures SourceTurn(s, p, e) == Literal(if piece == Dangling then 2 else Width(piece), Meaning(piece))
  {
    hide Hex4At, Utf8, Unit, High, Low, Combine, SourceTurn, HexDigit;
    match piece {
      case Plain(_) =>
        PlainTurn(s, p, e);
      case Short(_) =>
        ShortTurn(s, p, e);
      case Escaped(cp) =>
        if cp < 0x1_0000 {
          OneUnitTurn(s, p, e, cp);
        } else {
          TwoUnitTurn(s, p, e, cp);
        }
      case Garbled =>
        GarbledTurn(s, p, e);
      case Dangling =>
        DanglingTurn(s, p, e);
    }
  }

  lemma GarbledTurn(s: Bytes, p: nat, e: nat)
    requires Spelled(s, p, e, Garbled)
    ensures SourceTurn(s, p, e) == Literal(6, [0x00])
  {
    hide Combine;
  }

  lemma DanglingTurn(s: Bytes, p: nat, e: nat)
    requires p + 1 == e < |s| && s[p] == 0x5C && s[e] == 0x22
    ensures SourceTurn(s, p, e) == Literal(2, [0x22])
  {
    hide Hex4At, Utf8, Combine;
  }

  lemma PlainTurn(s: Bytes, p: nat, e: nat)
    requires p + 1 <= e < |s| && s[p] != BACKSLASH
    ensures SourceTurn(s, p, e) == Literal(1, [s[p]])
  {
  }

  lemma ShortTurn(s: Bytes, p: nat, e: nat)
    requires p + 2 <= e < |s| && s[p] == BACKSLASH && s[p + 1] in {0x62, 0x66, 0x6E, 0x72, 0x74, QUOTE, BACKSLASH, 0x2F}
    ensures SourceTurn(s, p, e) == Literal(2, Meaning(Short(s[p + 1])))
  {
    hide Hex4At, Utf8, Combine;
  }

  lemma OneUnitTurn(s: Bytes, p: nat, e: nat, cp: nat)
    requires Scalar(cp) && cp < 0x1_0000 && Unit(s, p, e, cp)
    ensures SourceTurn(s, p, e) == Literal(6, Utf8(cp))
  {
    hide Hex4At, Utf8, Unit, Combine;
    UnitIsRead(s, p, e, cp);
  }

  lemma TwoUnitTurn(s: Bytes, p: nat, e: nat, cp: nat)
    requires Scalar(cp) && cp >= 0x1_0000 && Unit(s, p, e, High(cp)) && Unit(s, p + 6, e, Low(cp))
    ensures SourceTurn(s, p, e) == Literal(12, Utf8(cp))
  {
    hide Hex4At, Utf8, Unit, High, Low, Combine;
    UnitIsRead(s, p, e, High(cp));
    UnitIsRead(s, p + 6, e, Low(cp));
    SurrogatesCombine(cp);
  }

  /** A literal decodes to the bytes of its pieces: every escaped scalar value comes out as its UTF-8. */
  lemma {:induction false} DecodeReads(s: Bytes, p: nat, e: nat, pieces: seq<Piece>)
    requires SpelledAll(s, p, e, pieces)
    ensures Decode(s, p, e) == Decoded(MeaningAll(pieces))
    decreases |pieces|
  {
    if pieces != [] {
      hide SourceTurn, Spelled;
      TurnReads(s, p, e, pieces[0]);
      DecodeReads(s, p + Width(pieces[0]), e, pieces[1..]);
      Inside(s, p, e, pieces[0]);
      AtTheEnd(s, e);
    }
  }

  lemma AtTheEnd(s: Bytes, e: nat)
    ensures Decode(s, e, e) == Decode(s, e + 1, e) == Decoded([])
  {
  }

  lemma Inside(s: Bytes, p: nat, e: nat, piece: Piece)
    requires Spelled(s, p, e, piece)
    ensures p + Width(piece) <= e < |s| && (piece == Dangling ==> p + 1 == e)
  {
  }

  /** The code unit that four hexadecimal digits stand for. */
  lemma DigitsAreUnit(s: Bytes, p: nat, e: nat)
    requires p + 6 <= e < |s| && s[p] == 0x5C && s[p + 1] == 0x75
    requires HexDigit(s[p + 2]) && HexDigit(s[p + 3]) && HexDigit(s[p + 4]) && HexDigit(s[p + 5])
    ensures Unit(s, p, e, Hex4At(s, p + 2))
  {
    hide Digit, HexValue, HexDigit;
    DigitValue(s[p + 2]);
    DigitValue(s[p + 3]);
    DigitValue(s[p + 4]);
    DigitValue(s[p + 5]);
    FourDigits(HexValue(s[p + 2]).value, HexValue(s[p + 3]).value, HexValue(s[p + 4]).value, HexValue(s[p + 5]).value);
  }

  lemma DigitValue(c: byte)
    requires HexDigit(c)
    ensures HexValue(c).Some? && Digit(c, HexValue(c).value)
  {
  }

  lemma FourDigits(w: nat, x: nat, y: nat, z: nat)
    requires w < 16 && x < 16 && y < 16 && z < 16
    ensures var u := ((w * 16 + x) * 16 + y) * 16 + z;
            u < 0x1_0000 && u / 0x1000 == w && u / 0x100 % 16 == x && u / 16 % 16 == y && u % 16 == z
  {
  }

  /** Whatever a turn of the decoder takes is one of the pieces. */
  lemma TurnSpells(s: Bytes, p: nat, e: nat) returns (piece: Piece)
    requires p < e < |s| && s[e] == 0x22 && SourceTurn(s, p, e).Literal?
    ensures Spelled(s, p, e, piece)
  {
    if s[p] != 0x5C {
      piece := Plain(s[p]);
    } else if p + 1 == e {
      piece := Dangling;
    } else if s[p + 1] != 0x75 {
      piece := Short(s[p + 1]);
    } else {
      piece := EscapeSpells(s, p, e);
    }
  }

  lemma EscapeSpells(s: Bytes, p: nat, e: nat) returns (piece: Piece)
    requires p < e < |s| && s[p] == 0x5C && s[p + 1] == 0x75 && SourceTurn(s, p, e).Literal?
    ensures Spelled(s, p, e, piece)
  {
    hide Hex4At, Utf8, Unit, Combine, HexDigit, High, Low;
    if !(HexDigit(s[p + 2]) && HexDigit(s[p + 3]) && HexDigit(s[p + 4]) && HexDigit(s[p + 5])) {
      return Garbled;
    }
    var u := Hex4At(s, p + 2);
    DigitsAreUnit(s, p, e);
    if HighSurrogate(u) {
      var low := Hex4At(s, p + 8);
      NulIsNoSurrogate(s, p + 6, e);
      DigitsAreUnit(s, p + 6, e);
      SurrogatesSplit(u, low);
      piece := Escaped(Combine(u, low));
    } else {
      piece := Escaped(u);
    }
  }

  lemma NulIsNoSurrogate(s: Bytes, p: nat, e: nat)
    requires p + 6 <= e < |s| && Hex4At(s, p + 2) != 0
    ensures HexDigit(s[p + 2]) && HexDigit(s[p + 3]) && HexDigit(s[p + 4]) && HexDigit(s[p + 5])
  {
  }

  /** Whatever the decoder takes is a sequence of pieces, and comes out as their bytes. Nothing else is taken. */
  lemma {:induction false} DecodeSpells(s: Bytes, p: nat, e: nat) returns (pieces: seq<Piece>)
    requires p <= e < |s| && s[e] == 0x22 && Decode(s, p, e).Decoded?
    ensures SpelledAll(s, p, e, pieces) && Decode(s, p, e) == Decoded(MeaningAll(pieces))
    decreases e - p
  {
    hide SourceTurn, Spelled;
    pieces := [];
    if p < e {
      var piece := TurnSpells(s, p, e);
      TurnReads(s, p, e, piece);
      Inside(s, p, e, piece);
      var rest := DecodeSpells(s, p + Width(piece), e);
      pieces := [piece] + rest;
      AtTheEnd(s, e);
      assert pieces[1..] == rest;
    }
  }

  /** A piece that RFC 8259 allows. */
  predicate Strict(piece: Piece) {
    match piece
    case Plain(c) => c >= 0x20 && c != 0x22
    case Short(_) => true
    case Escaped(_) => true
    case _ => false
  }

  /** What the printer writes for a byte is a spelling of it that RFC 8259 allows, with lower-case digits. */
  lemma EscapeIsSpelled(c: byte, k: Bytes) returns (piece: Piece)
    requires c != 0 && k != []
    ensures Spelled(EscapeByte(c) + k, 0, |EscapeByte(c)|, piece) && Width(piece) == |EscapeByte(c)|
    ensures Strict(piece) && Meaning(piece) == [c]
    ensures |EscapeByte(c)| == 6 ==> forall i :: 0 <= i < 6 ==> !(0x41 <= EscapeByte(c)[i] <= 0x46)
  {
    var x := EscapeByte(c);
    if |x| == 1 {
      piece := Plain(c);
    } else if |x| == 2 {
      piece := Short(x[1]);
    } else {
      piece := Escaped(c as nat);
      ControlIsUnit(c, k);
    }
  }

  lemma ControlIsUnit(c: byte, k: Bytes)
    requires c != 0 && k != [] && |EscapeByte(c)| == 6
    ensures Unit(EscapeByte(c) + k, 0, 6, c as nat) && c < 0x20
  {
    var s := EscapeByte(c) + k;
    assert s[0] == 0x5C && s[1] == 0x75 && s[2] == s[3] == 0x30 && s[4] == HexTens(c) && s[5] == HexOnes(c);
  }

  /** No spelling that RFC 8259 allows is shorter than what the printer writes. */
  lemma EscapeIsShortest(s: Bytes, p: nat, e: nat, piece: Piece, c: byte)
    requires Spelled(s, p, e, piece) && Strict(piece) && Meaning(piece) == [c]
    ensures |EscapeByte(c)| <= Width(piece)
  {
    hide Unit, Utf8, High, Low;
  }

  /** How many backslashes stand directly in front of `q`, not looking further back than `t`. */
  function Backslashes(s: Bytes, t: nat, q: nat): nat
    requires q <= |s|
  {
    if t < q && s[q - 1] == 0x5C then 1 + Backslashes(s, t, q - 1) else 0
  }

  predicate Odd(n: nat) {
    n % 2 == 1
  }

  /** The quote at `e` is the first one from `t` on with an even number of backslashes in front of it. */
  predicate Closes(s: Bytes, t: nat, e: nat) {
    && t <= e < |s| && s[e] == 0x22 && !Odd(Backslashes(s, t, e))
    && forall q :: t <= q < e && s[q] == 0x22 ==> Odd(Backslashes(s, t, q))
  }

  lemma {:induction false} BackslashesFrom(s: Bytes, t: nat, q: nat)
    requires t + 2 <= q <= |s| && s[t] == 0x5C
    ensures Odd(Backslashes(s, t, q)) == Odd(Backslashes(s, t + 2, q))
    decreases q
  {
    if q == t + 2 {
      assert Backslashes(s, t, t + 1) == 1;
    } else if s[q - 1] == 0x5C {
      BackslashesFrom(s, t, q - 1);
    }
  }

  lemma {:induction false} BackslashesPast(s: Bytes, t: nat, q: nat)
    requires t + 1 <= q <= |s| && s[t] != 0x5C
    ensures Backslashes(s, t, q) == Backslashes(s, t + 1, q)
    decreases q
  {
    if q > t + 1 && s[q - 1] == 0x5C {
      BackslashesPast(s, t, q - 1);
    }
  }

  /** The scan stops at the quote that closes the literal, if there is one. */
  lemma {:induction false} ScanCloses(s: Bytes, t: nat, e: nat)
    requires t <= |s|
    ensures ScanString(s, t).Closed? && ScanString(s, t).end == e <==> Closes(s, t, e)
    decreases |s| - t
  {
    if t < |s| {
      if s[t] == 0x22 {
        assert Closes(s, t, t);
      } else if s[t] != 0x5C {
        ScanCloses(s, t + 1, e);
        forall q: nat | t + 1 <= q < |s| ensures Backslashes(s, t, q) == Backslashes(s, t + 1, q) {
          BackslashesPast(s, t, q);
        }
      } else if t + 1 < |s| {
        ScanCloses(s, t + 2, e);
        assert Backslashes(s, t, t + 1) == 1;
        forall q: nat | t + 2 <= q < |s| ensures Odd(Backslashes(s, t, q)) == Odd(Backslashes(s, t + 2, q)) {
          BackslashesFrom(s, t, q);
        }
      }
    }
  }

  /** A surrogate that is not the first half of a pair is refused: a low one, or a high one that no
      low one follows. */
  lemma LoneSurrogateIsRefused(s: Bytes, p: nat, e: nat, u: nat)
    requires Unit(s, p, e, u) && (HighSurrogate(u) || LowSurrogate(u))
    ensures SourceTurn(s, p, e).Literal? <==>
            HighSurrogate(u) && p + 12 <= e && s[p + 6] == BACKSLASH && s[p + 7] == LETTER_U
                && LowSurrogate(Hex4At(s, p + 8))
  {
    hide Hex4At, Utf8, Unit, Combine;
    UnitIsRead(s, p, e, u);
  }

  /** Digits that are not hexadecimal are not refused: the escape is read as U+0000. */
  lemma BadDigitsAreNul(s: Bytes, p: nat, e: nat)
    requires p + 6 <= e < |s| && s[p] == BACKSLASH && s[p + 1] == LETTER_U
    requires exists i :: p + 2 <= i < p + 6 && HexValue(s[i]).None?
    ensures SourceTurn(s, p, e) == Literal(6, [NUL])
  {
  }
}
