/** `cJSON_Minify` on the buffer itself: the write pointer follows the read pointer through the same text. */
module JsonMinifyInPlace {
  import opened Bytes
  import opened Json
  import opened JsonMinify
  import opened JsonMinifyClosed

  /** The text `s`, with a terminator at `z`, has been read up to `rd` and rewritten in `b` up to `into`; `rest`
      is what is still to come and `whole` the whole result. */
  ghost predicate Going(b: Bytes, s: Bytes, z: nat, rd: nat, into: nat, rest: Minified, whole: Minified) {
    && into <= rd <= z < |s| == |b| && s[z] == NUL && (forall i :: into <= i < |s| ==> b[i] == s[i])
    && Prepend(b[..into], rest) == whole
  }

  lemma CopyStep(b: Bytes, s: Bytes, z: nat, rd: nat, into: nat, rest: Minified, whole: Minified)
    requires rd < |s| && s[rd] != NUL && Going(b, s, z, rd, into, Prepend([s[rd]], rest), whole)
    ensures b[rd] == s[rd] && Going(b[into := s[rd]], s, z, rd + 1, into + 1, rest, whole)
  {
    assert b[into := s[rd]][..into + 1] == b[..into] + [s[rd]];
    PrependTwice(b[..into], [s[rd]], rest);
  }

  lemma SplitPrepend(c: byte, d: byte, rest: Minified)
    ensures Prepend([c, d], rest) == Prepend([c], Prepend([d], rest))
  {
    PrependTwice([c], [d], rest);
    assert [c] + [d] == [c, d];
  }

  lemma SkipStep(b: Bytes, s: Bytes, z: nat, rd: nat, into: nat, rest: Minified, whole: Minified, rd': nat)
    requires Going(b, s, z, rd, into, rest, whole) && rd <= rd' <= z
    ensures Going(b, s, z, rd', into, rest, whole)
  {
  }

  /** What the state says about the byte under the read pointer. */
  lemma Inside(b: Bytes, s: Bytes, z: nat, rd: nat, into: nat, rest: Minified, whole: Minified)
    requires Going(b, s, z, rd, into, rest, whole)
    ensures rd <= z < |s| == |b| && b[rd] == s[rd] && (s[rd] != NUL ==> rd < z)
  {
  }

  /** The read pointer would pass the terminator. */
  lemma Leaves(b: Bytes, s: Bytes, z: nat, rd: nat, into: nat, whole: Minified)
    requires Going(b, s, z, rd, into, Overrun, whole)
    ensures whole == Overrun
  {
  }

  lemma Finish(b: Bytes, s: Bytes, z: nat, rd: nat, into: nat, whole: Minified)
    requires Going(b, s, z, rd, into, Minified([]), whole)
    ensures whole.Minified? && |whole.text| == into < |b| && b[into := NUL] == Overlay(s, 0, whole.text + [NUL])
  {
    var r := whole.text;
    assert b[..into] + [] == b[..into];
    assert Overlay(s, 0, r + [NUL]) == r + [NUL] + s[into + 1..];
  }

  /** The loop over a `//` comment. */
  method SkipLine(json: array<byte>, start: nat, ghost z: nat) returns (rd: nat)
    requires start <= z < json.Length && json[z] == NUL
    ensures start <= rd <= z && (json[start] !in {NUL, NEWLINE} ==> start < rd)
    ensures json[rd..] == LineEnd(json[start..])
  {
    rd := start;
    while json[rd] != NUL && json[rd] != NEWLINE
      invariant start <= rd <= z && LineEnd(json[rd..]) == LineEnd(json[start..])
      invariant rd == start || json[start] !in {NUL, NEWLINE}
      decreases json.Length - rd
    {
      assert json[rd..][1..] == json[rd + 1..];
      rd := rd + 1;
    }
  }

  /** The loop over a block comment, and the step past its end unless the terminator comes first. */
  method SkipBlock(json: array<byte>, start: nat, ghost z: nat) returns (ends: bool, rd: nat)
    requires start <= z < json.Length && json[z] == NUL
    ensures !ends ==> BlockEnd(json[start..]) == []
    ensures ends ==> start < rd <= z && json[rd..] == BlockEnd(json[start..])
  {
    rd := start;
    while json[rd] != NUL && !(json[rd] == STAR && json[rd + 1] == SLASH)
      invariant start <= rd <= z && BlockEnd(json[rd..]) == BlockEnd(json[start..])
      decreases json.Length - rd
    {
      assert json[rd..][1..] == json[rd + 1..];
      rd := rd + 1;
    }
    ends := json[rd] != NUL;
    if ends {
      assert json[rd..][2..] == json[rd + 2..];
      rd := rd + 2;
    }
  }

  /** `*into++ = *json++` */
  method CopyByte(json: array<byte>, rd: nat, into: nat, ghost s: Bytes, ghost z: nat, ghost rest: Minified,
                  ghost whole: Minified)
    requires rd < |s| == json.Length && s[rd] != NUL
    requires Going(json[..], s, z, rd, into, Prepend([s[rd]], rest), whole)
    modifies json
    ensures Going(json[..], s, z, rd + 1, into + 1, rest, whole)
  {
    ghost var b := json[..];
    CopyStep(b, s, z, rd, into, rest, whole);
    json[into] := json[rd];
    assert json[..] == b[into := s[rd]];
  }

  /** What is to come behind a backslash. */
  ghost function Escaped(t: Bytes): Minified {
    if t == [] || t[0] == NUL then Overrun else Prepend([t[0]], MinifyString(t[1..]))
  }

  lemma LiteralStep(s: Bytes, rd: nat)
    requires rd < |s|
    ensures s[rd] == QUOTE ==> MinifyString(s[rd..]) == Prepend([s[rd]], Minify(s[rd + 1..]))
    ensures s[rd] != QUOTE && s[rd] != BACKSLASH && s[rd] != NUL ==>
            MinifyString(s[rd..]) == Prepend([s[rd]], MinifyString(s[rd + 1..]))
    ensures s[rd] == BACKSLASH ==> MinifyString(s[rd..]) == Prepend([s[rd]], Escaped(s[rd + 1..]))
    ensures s[rd] == NUL ==> MinifyString(s[rd..]) == Overrun
  {
    var t := s[rd..];
    assert t[0] == s[rd] && t[1..] == s[rd + 1..];
    if s[rd] == BACKSLASH && |t| >= 2 {
      assert t[1] == s[rd + 1] && t[2..] == s[rd + 2..] == s[rd + 1..][1..];
      SplitPrepend(BACKSLASH, t[1], MinifyString(t[2..]));
    }
  }

  lemma EscapedStep(s: Bytes, rd: nat)
    requires rd < |s|
    ensures Escaped(s[rd..]) == if s[rd] == NUL then Overrun else Prepend([s[rd]], MinifyString(s[rd + 1..]))
  {
    assert s[rd..][1..] == s[rd + 1..];
  }

  /** The loop over a string literal, from behind its opening quote to behind its closing one. */
  method CopyString(json: array<byte>, start: nat, into0: nat, ghost s: Bytes, ghost z: nat, ghost whole: Minified)
    returns (ends: bool, rd: nat, into: nat)
    requires start <= |s| == json.Length && Going(json[..], s, z, start, into0, MinifyString(s[start..]), whole)
    modifies json
    ensures !ends ==> whole == Overrun
    ensures ends ==> start < rd <= |s| && Going(json[..], s, z, rd, into, Minify(s[rd..]), whole)
  {
    hide Going, Minify, MinifyString, Prepend, Escaped;
    ends, rd, into := true, start, into0;
    Inside(json[..], s, z, rd, into, MinifyString(s[rd..]), whole);
    while json[rd] != NUL && json[rd] != QUOTE
      invariant start <= rd <= z < |s| == json.Length && json[rd] == s[rd]
      invariant Going(json[..], s, z, rd, into, MinifyString(s[rd..]), whole)
      decreases json.Length - rd
    {
      LiteralStep(s, rd);
      if json[rd] == BACKSLASH {
        CopyByte(json, rd, into, s, z, Escaped(s[rd + 1..]), whole);
        rd, into := rd + 1, into + 1;
        Inside(json[..], s, z, rd, into, Escaped(s[rd..]), whole);
        EscapedStep(s, rd);
        if json[rd] == NUL {
          Leaves(json[..], s, z, rd, into, whole);
          return false, rd, into;
        }
      }
      CopyByte(json, rd, into, s, z, MinifyString(s[rd + 1..]), whole);
      rd, into := rd + 1, into + 1;
      Inside(json[..], s, z, rd, into, MinifyString(s[rd..]), whole);
    }
    LiteralStep(s, rd);
    if json[rd] == NUL {
      Leaves(json[..], s, z, rd, into, whole);
      return false, rd, into;
    }
    CopyByte(json, rd, into, s, z, Minify(s[rd + 1..]), whole);
    rd, into := rd + 1, into + 1;
  }

  /** `cJSON_Minify` on a buffer that holds a terminated text and may be longer. The read pointer stays in front of
      the terminator exactly if every block comment and string literal of the text ends there; the method stops
      where it would pass. */
  method MinifyInPlace(json: array<byte>) returns (inside: bool)
    requires NUL in json[..]
    modifies json
    ensures inside <==> Closed(old(json[..]))
    ensures inside ==>
            && Minify(old(json[..])).Minified?
            && var r := Minify(old(json[..])).text;
               |r| < json.Length && json[..] == Overlay(old(json[..]), 0, r + [NUL])
  {
    hide ClosedFrom, Going;
    ClosedIffMinified(json[..]);
    ghost var s := json[..];
    ghost var z: nat :| z < |s| && s[z] == NUL;
    ghost var whole := Minify(s);
    var rd: nat, into: nat := 0, 0;
    Start(s, z);
    while json[rd] != NUL
      invariant rd <= z < |s| == json.Length && json[rd] == s[rd]
      invariant Going(json[..], s, z, rd, into, Minify(s[rd..]), whole)
      decreases json.Length - rd
    {
      inside, rd, into := MinifyStep(json, rd, into, s, z, whole);
      if !inside {
        return;
      }
      Inside(json[..], s, z, rd, into, Minify(s[rd..]), whole);
    }
    Finish(json[..], s, z, rd, into, whole);
    ghost var b := json[..];
    json[into] := NUL;
    assert json[..] == b[into := NUL];
    inside := true;
  }

  lemma Start(s: Bytes, z: nat)
    requires z < |s| && s[z] == NUL
    ensures Going(s, s, z, 0, 0, Minify(s[0..]), Minify(s))
  {
    assert s[0..] == s && s[..0] == [];
    PrependNothing(Minify(s));
  }

  lemma TextStep(s: Bytes, rd: nat)
    requires rd + 1 < |s| && s[rd] != NUL
    ensures WhiteSpace(s[rd]) ==> Minify(s[rd..]) == Minify(s[rd + 1..])
    ensures s[rd] == SLASH && s[rd + 1] == SLASH ==> Minify(s[rd..]) == Minify(LineEnd(s[rd..]))
    ensures s[rd] == SLASH && s[rd + 1] == STAR ==> Minify(s[rd..]) == Minify(BlockEnd(s[rd..]))
    ensures s[rd] == QUOTE ==> Minify(s[rd..]) == Prepend([s[rd]], MinifyString(s[rd + 1..]))
    ensures !WhiteSpace(s[rd]) && s[rd] != QUOTE && !(s[rd] == SLASH && s[rd + 1] in {SLASH, STAR}) ==>
            Minify(s[rd..]) == Prepend([s[rd]], Minify(s[rd + 1..]))
    ensures Minify([]) == Overrun
  {
    var t := s[rd..];
    assert t[0] == s[rd] && t[1..] == s[rd + 1..] && t[1] == s[rd + 1];
  }

  /** One turn of the main loop. */
  method MinifyStep(json: array<byte>, start: nat, into0: nat, ghost s: Bytes, ghost z: nat, ghost whole: Minified)
    returns (inside: bool, rd: nat, into: nat)
    requires start < |s| == json.Length && Going(json[..], s, z, start, into0, Minify(s[start..]), whole)
    requires s[start] != NUL
    modifies json
    ensures !inside ==> whole == Overrun
    ensures inside ==> start < rd <= |s| && Going(json[..], s, z, rd, into, Minify(s[rd..]), whole)
  {
    hide Minify, MinifyString, Prepend, LineEnd, BlockEnd;
    inside, rd, into := true, start, into0;
    Inside(json[..], s, z, rd, into, Minify(s[rd..]), whole);
    TextStep(s, rd);
    assert json[z] == NUL && forall i :: start <= i < |s| ==> json[i] == s[i];
    hide Going;
    assert json[rd..] == s[rd..];
    if WhiteSpace(json[rd]) {
      rd := rd + 1;
      SkipStep(json[..], s, z, start, into, Minify(s[rd..]), whole, rd);
    } else if json[rd] == SLASH && json[rd + 1] == SLASH {
      rd := SkipLine(json, rd, z);
      assert json[rd..] == s[rd..];
      SkipStep(json[..], s, z, start, into, Minify(s[rd..]), whole, rd);
    } else if json[rd] == SLASH && json[rd + 1] == STAR {
      inside, rd := SkipBlock(json, rd, z);
      if inside {
        assert json[rd..] == s[rd..];
        SkipStep(json[..], s, z, start, into, Minify(s[rd..]), whole, rd);
      } else {
        Leaves(json[..], s, z, start, into, whole);
      }
    } else if json[rd] == QUOTE {
      CopyByte(json, rd, into, s, z, MinifyString(s[rd + 1..]), whole);
      inside, rd, into := CopyString(json, rd + 1, into + 1, s, z, whole);
    } else {
      CopyByte(json, rd, into, s, z, Minify(s[rd + 1..]), whole);
      rd, into := rd + 1, into + 1;
    }
  }
}
