/** `parse_string` on its buffers: the scan for the closing quote, the allocation it leads to, and the
    decode loop that fills it. */
module JsonText {
  import opened Bytes
  import opened Json
  import opened JsonString

  /** `parse_hex4` */
  method ParseHex4(s: Bytes, at: nat) returns (h: nat)
    requires at + 4 <= |s|
    ensures h == Hex4At(s, at)
  {
    h := 0;
    var i := 0;
    while i < 4
      invariant 0 <= i <= 4
      invariant forall j :: at <= j < at + i ==> HexValue(s[j]).Some?
      invariant i == 1 ==> h == HexValue(s[at]).value * 16
      invariant i == 2 ==> h == (HexValue(s[at]).value * 16 + HexValue(s[at + 1]).value) * 16
      invariant i == 3 ==>
                h == ((HexValue(s[at]).value * 16 + HexValue(s[at + 1]).value) * 16 + HexValue(s[at + 2]).value) * 16
      invariant i == 4 ==> h == Hex4At(s, at)
      invariant i == 0 ==> h == 0
    {
      var c := s[at + i];
      if 0x30 <= c <= 0x39 {
        h := h + (c as int - 0x30);
      } else if 0x41 <= c <= 0x46 {
        h := h + (10 + c as int - 0x41);
      } else if 0x61 <= c <= 0x66 {
        h := h + (10 + c as int - 0x61);
      } else {
        assert HexValue(s[at + i]).None?;
        return 0;
      }
      if i < 3 {
        h := h * 16;
      }
      i := i + 1;
    }
  }

  /** The loop that writes the continuation bytes of a code point, last one first. */
  method WriteTail(codepoint: nat, output: array<byte>, n: nat, len: nat) returns (cp: nat)
    requires codepoint < 0x11_0000 && len == |Utf8(codepoint)| && n + len <= output.Length
    modifies output
    ensures cp == Shifted(codepoint, len - 1)
    ensures forall j :: n < j < n + len ==> output[j] == Utf8(codepoint)[j - n]
    ensures forall i :: 0 <= i < output.Length && !(n < i < n + len) ==> output[i] == old(output[i])
  {
    ghost var w := Utf8(codepoint);
    cp := codepoint;
    var pos := len - 1;
    assert cp == Shifted(codepoint, 0);
    hide Utf8, Shifted;
    while pos > 0
      invariant 0 <= pos < len == |w|
      invariant cp == Shifted(codepoint, len - 1 - pos)
      invariant forall j :: n + pos < j < n + len ==> output[j] == w[j - n]
      invariant forall i :: 0 <= i < output.Length && !(n < i < n + len) ==> output[i] == old(output[i])
    {
      ContinuationByte(codepoint, pos);
      output[n + pos] := (0x80 + cp % 0x40) as byte;
      cp := cp / 0x40;
      pos := pos - 1;
    }
  }

  /** A code point written as UTF-8. */
  method WriteUtf8(codepoint: nat, output: array<byte>, n: nat) returns (len: nat)
    requires codepoint < 0x11_0000 && n + |Utf8(codepoint)| <= output.Length
    modifies output
    ensures len == |Utf8(codepoint)| && output[..] == Overlay(old(output[..]), n, Utf8(codepoint))
  {
    var mark: nat := 0;
    if codepoint < 0x80 {
      len := 1;
    } else if codepoint < 0x800 {
      len, mark := 2, 0xC0;
    } else if codepoint < 0x1_0000 {
      len, mark := 3, 0xE0;
    } else {
      len, mark := 4, 0xF0;
    }
    assert len == |Utf8(codepoint)|;
    FirstByte(codepoint);
    hide Utf8, Shifted;
    var cp := WriteTail(codepoint, output, n, len);
    output[n] := (mark + cp) as byte;
  }

  /** The code point after `k` shifts by six bits. */
  function Shifted(cp: nat, k: nat): (r: nat)
    ensures r <= cp
  {
    if k == 0 then cp else Shifted(cp, k - 1) / 0x40
  }

  lemma ContinuationByte(cp: nat, pos: nat)
    requires cp < 0x11_0000 && 0 < pos < |Utf8(cp)|
    ensures Utf8(cp)[pos] as int == 0x80 + Shifted(cp, |Utf8(cp)| - 1 - pos) % 0x40
    ensures Shifted(cp, |Utf8(cp)| - pos) == Shifted(cp, |Utf8(cp)| - 1 - pos) / 0x40
  {
    assert Shifted(cp, 1) == cp / 0x40 && Shifted(cp, 2) == Shifted(cp, 1) / 0x40
        && Shifted(cp, 3) == Shifted(cp, 2) / 0x40;
  }

  lemma FirstByte(cp: nat)
    requires cp < 0x11_0000
    ensures Utf8(cp)[0] as int
         == (if cp < 0x80 then 0 else if cp < 0x800 then 0xC0 else if cp < 0x1_0000 then 0xE0 else 0xF0) +
             Shifted(cp, |Utf8(cp)| - 1)
  {
    assert Shifted(cp, 1) == cp / 0x40 && Shifted(cp, 2) == Shifted(cp, 1) / 0x40
        && Shifted(cp, 3) == Shifted(cp, 2) / 0x40;
  }

  /** `utf16_literal_to_utf8`; a length of 0 is failure. */
  method Utf16LiteralToUtf8(s: Bytes, p: nat, e: nat, output: array<byte>, n: nat) returns (len: nat, written: nat)
    requires p <= e < |s|
    requires DecodeUtf16(s, p, e).Literal? ==> n + |DecodeUtf16(s, p, e).bytes| <= output.Length
    modifies output
    ensures DecodeUtf16(s, p, e).BadLiteral? ==> len == 0 && output[..] == old(output[..])
    ensures DecodeUtf16(s, p, e).Literal? ==>
            WroteLiteral(DecodeUtf16(s, p, e), len, written, old(output[..]), n, output[..])
  {
    hide Hex4At, Utf8;
    len, written := 0, 0;
    if e - p < 6 {
      return;
    }
    var first := ParseHex4(s, p + 2);
    if 0xDC00 <= first <= 0xDFFF {
      return;
    }
    var codepoint := first;
    var length := 6;
    if 0xD800 <= first <= 0xDBFF {
      length := 12;
      if e - (p + 6) < 6 || s[p + 6] != BACKSLASH || s[p + 7] != LETTER_U {
        return;
      }
      var second := ParseHex4(s, p + 8);
      if second < 0xDC00 || second > 0xDFFF {
        return;
      }
      codepoint := 0x1_0000 + first % 0x400 * 0x400 + second % 0x400;
    }
    written := WriteUtf8(codepoint, output, n);
    len := length;
  }

  /** A turn of the decoder moved by `len` and wrote its bytes at `n`. */
  ghost predicate WroteLiteral(r: Literal, len: nat, written: nat, before: Bytes, n: nat, after: Bytes)
    requires r.Literal? && n + |r.bytes| <= |before|
  {
    len == r.len && written == |r.bytes| && after == Overlay(before, n, r.bytes)
  }

  /** The body of the decode loop. */
  method DecodeTurn(s: Bytes, p: nat, e: nat, output: array<byte>, n: nat) returns (len: nat, written: nat)
    requires p < e < |s|
    requires DecodeOne(s, p, e).Literal? ==> n + |DecodeOne(s, p, e).bytes| <= output.Length
    modifies output
    ensures DecodeOne(s, p, e).BadLiteral? ==> len == 0
    ensures DecodeOne(s, p, e).Literal? ==>
            WroteLiteral(DecodeOne(s, p, e), len, written, old(output[..]), n, output[..])
  {
    hide DecodeUtf16;
    len, written := 2, 1;
    var c := s[p];
    if c != BACKSLASH {
      len := 1;
    } else if s[p + 1] == LETTER_U {
      len, written := Utf16LiteralToUtf8(s, p, e, output, n);
      return;
    } else if s[p + 1] == 0x62 {
      c := 0x08;
    } else if s[p + 1] == 0x66 {
      c := 0x0C;
    } else if s[p + 1] == 0x6E {
      c := 0x0A;
    } else if s[p + 1] == 0x72 {
      c := 0x0D;
    } else if s[p + 1] == 0x74 {
      c := 0x09;
    } else if s[p + 1] == QUOTE || s[p + 1] == BACKSLASH || s[p + 1] == 0x2F {
      c := s[p + 1];
    } else {
      return 0, 0;
    }
    assert DecodeOne(s, p, e) == Literal(len, [c]);
    output[n] := c;
    assert output[..] == Overlay(old(output[..]), n, [c]);
  }

  /** The decoder at `p`, with `out` written so far, is on its way to `r`. */
  ghost predicate Decodes(s: Bytes, p: nat, e: nat, out: Bytes, r: Decoding) {
    match Decode(s, p, e)
    case BadEscape(at) => r == BadEscape(at)
    case Decoded(rest) => r == Decoded(out + rest)
  }

  lemma DecodesStep(s: Bytes, p: nat, e: nat, out: Bytes, r: Decoding)
    requires p < e < |s| && Decodes(s, p, e, out, r)
    ensures DecodeOne(s, p, e).BadLiteral? ==> r == BadEscape(p)
    ensures DecodeOne(s, p, e).Literal? ==> Decodes(s, p + DecodeOne(s, p, e).len, e, out + DecodeOne(s, p, e).bytes, r)
  {
    hide DecodeOne;
    var turn := DecodeOne(s, p, e);
    assert SourceTurn(s, p, e) == turn;
    if turn.Literal? && Decode(s, p + turn.len, e).Decoded? {
      var rest := Decode(s, p + turn.len, e).out;
      assert (out + turn.bytes) + rest == out + (turn.bytes + rest);
    }
  }

  /** The decode loop: it never writes past the estimate of the scan, so it stays inside an array with
      one byte more than that. */
  method DecodeLoop(s: Bytes, start: nat, e: nat, output: array<byte>) returns (ok: bool, p: nat, n: nat)
    requires start <= |s| && ScanString(s, start).Closed? && ScanString(s, start).end == e
    requires output.Length == e - start + 1 - ScanString(s, start).skipped + 1
    modifies output
    ensures n < output.Length
    ensures if ok then Decode(s, start, e) == Decoded(output[..n]) else Decode(s, start, e) == BadEscape(p)
  {
    ghost var skipped, r := ScanString(s, start).skipped, Decode(s, start, e);
    hide ScanString, DecodeOne;
    ghost var t := start;
    p, n := start, 0;
    while p < e
      invariant n + skipped <= e - start && n < output.Length
      invariant p <= e ==> WithinEstimate(s, start, p, t, n)
      invariant Decodes(s, p, e, output[..n], r)
      decreases e - p
    {
      DecodesStep(s, p, e, output[..n], r);
      ghost var before, one := output[..], DecodeOne(s, p, e);
      if one.Literal? {
        t := TurnWithinEstimate(s, start, p, t, n);
      }
      var len, written := DecodeTurn(s, p, e, output, n);
      if len == 0 {
        return false, p, n;
      }
      assert output[..n + written] == before[..n] + one.bytes;
      p, n := p + len, n + written;
    }
    assert output[..n] + [] == output[..n];
    ok := true;
  }

  /** The scan for the closing quote: where it is and how many escapes precede it. */
  method ScanLoop(s: Bytes, start: nat) returns (ok: bool, e: nat, skipped: nat)
    requires start <= |s|
    ensures ScanString(s, start) == if ok then Closed(e, skipped) else Unterminated
  {
    e, skipped := start, 0;
    while e < |s| && s[e] != QUOTE
      invariant start <= e <= |s|
      invariant Ahead(skipped, ScanString(s, e)) == ScanString(s, start)
      decreases |s| - e
    {
      if s[e] == BACKSLASH {
        if e + 1 >= |s| {
          return false, e, skipped;
        }
        skipped := skipped + 1;
        e := e + 1;
      }
      e := e + 1;
    }
    ok := e < |s|;
  }

  function Ahead(n: nat, r: Scan): Scan {
    if r.Closed? then Closed(r.end, r.skipped + n) else r
  }
}
