/** When `cJSON_Minify` stays inside the text: a scan of the text, byte by byte. */
module JsonMinifyClosed {
  import opened Bytes
  import opened Json
  import opened JsonMinify

  /** Where a byte stands: between tokens, behind a slash, in a line comment, in a block comment, there behind a
      star, in a string literal, there behind a backslash. */
  datatype Place = Outside | Slashed | Line | Block | Starred | Quoted | Escaping

  function Move(at: Place, c: byte): Place {
    match at
    case Outside => if c == SLASH then Slashed else if c == QUOTE then Quoted else Outside
    case Slashed => if c == SLASH then Line else if c == STAR then Starred else if c == QUOTE then Quoted else Outside
    case Line => if c == NEWLINE then Outside else Line
    case Block => if c == STAR then Starred else Block
    case Starred => if c == SLASH then Outside else if c == STAR then Starred else Block
    case Quoted => if c == QUOTE then Outside else if c == BACKSLASH then Escaping else Quoted
    case Escaping => Quoted
  }

  /** From `at` on, the terminator comes outside every string literal and block comment. */
  predicate ClosedFrom(at: Place, t: Bytes)
    decreases |t|
  {
    t != [] && if t[0] == NUL then at in {Outside, Slashed, Line} else ClosedFrom(Move(at, t[0]), t[1..])
  }

  /** Every string literal and every block comment of the text ends in front of the terminator. */
  predicate Closed(t: Bytes) {
    ClosedFrom(Outside, t)
  }

  lemma {:induction false} LineCloses(t: Bytes)
    ensures ClosedFrom(Line, t) == ClosedFrom(Outside, LineEnd(t))
    decreases |t|
  {
    if t != [] && t[0] != NUL && t[0] != NEWLINE {
      LineCloses(t[1..]);
    }
  }

  lemma {:induction false} BlockCloses(t: Bytes)
    ensures ClosedFrom(Block, t) == ClosedFrom(Outside, BlockEnd(t))
    ensures t != [] && t[0] == STAR ==> ClosedFrom(Starred, t[1..]) == ClosedFrom(Outside, BlockEnd(t))
    decreases |t|
  {
    if t != [] && t[0] != NUL {
      var u := t[1..];
      BlockCloses(u);
      if t[0] == STAR && u != [] {
        assert t[1] == u[0] && u[1..] == t[2..];
      }
    }
  }

  /** The text is minified without reading past its terminator exactly if it is closed. */
  lemma {:induction false} ClosedIffMinified(t: Bytes)
    ensures Minify(t).Minified? <==> ClosedFrom(Outside, t)
    decreases |t|, 1
  {
    if t != [] && t[0] != NUL {
      var u := t[1..];
      assert |t| > 1 ==> u[0] == t[1] && u[1..] == t[2..];
      if t[0] == QUOTE {
        LiteralCloses(u);
      } else if t[0] == SLASH && |t| > 1 && t[1] == SLASH {
        LineCloses(t[2..]);
        assert LineEnd(u) == LineEnd(t[2..]);
        ClosedIffMinified(LineEnd(u));
      } else if t[0] == SLASH && |t| > 1 && t[1] == STAR {
        BlockCloses(u);
        assert BlockEnd(t) == BlockEnd(u);
        ClosedIffMinified(BlockEnd(t));
      } else {
        ClosedIffMinified(u);
      }
    }
  }

  lemma {:induction false} LiteralCloses(t: Bytes)
    ensures MinifyString(t).Minified? <==> ClosedFrom(Quoted, t)
    decreases |t|, 0
  {
    if t != [] && t[0] != NUL {
      var u := t[1..];
      if t[0] == QUOTE {
        ClosedIffMinified(u);
      } else if t[0] != BACKSLASH {
        LiteralCloses(u);
      } else if |t| >= 2 && t[1] != NUL {
        assert u[0] == t[1] && u[1..] == t[2..];
        LiteralCloses(t[2..]);
      }
    }
  }

  /** A byte `c` at `at`, with `next` behind it, is not part of a comment and not white space between tokens. */
  predicate Stays(at: Place, c: byte, next: byte) {
    match at
    case Outside => c !in {0x20, 0x09, 0x0D, 0x0A} && !(c == 0x2F && next in {0x2F, 0x2A})
    case Slashed => c !in {0x20, 0x09, 0x0D, 0x0A, 0x2F, 0x2A}
    case Quoted => true
    case Escaping => true
    case _ => false
  }

  /** The bytes of the text that stay, up to its terminator. */
  function Kept(at: Place, t: Bytes): Bytes
    decreases |t|
  {
    if t == [] || t[0] == 0 then []
    else
      var rest := Kept(Move(at, t[0]), t[1..]);
      if Stays(at, t[0], if |t| > 1 then t[1] else 0) then [t[0]] + rest else rest
  }

  lemma {:induction false} LineKeepsNothing(t: Bytes)
    ensures Kept(Line, t) == Kept(Outside, LineEnd(t))
    decreases |t|
  {
    if t != [] && t[0] != NUL && t[0] != NEWLINE {
      LineKeepsNothing(t[1..]);
    }
  }

  lemma {:induction false} BlockKeepsNothing(t: Bytes)
    requires BlockEnd(t) != []
    ensures Kept(Block, t) == Kept(Outside, BlockEnd(t))
    ensures t[0] == STAR ==> Kept(Starred, t[1..]) == Kept(Outside, BlockEnd(t))
    decreases |t|
  {
    var u := t[1..];
    if t[0] == STAR && |t| > 1 && t[1] == SLASH {
      assert u[0] == t[1] && u[1..] == t[2..];
    } else {
      BlockKeepsNothing(u);
      assert u != [] ==> u[0] == t[1] && u[1..] == t[2..];
    }
  }

  /** Behind a slash that starts no comment the text goes on as it would without it. */
  lemma SlashPasses(t: Bytes)
    requires t == [] || t[0] !in {SLASH, STAR}
    ensures Kept(Slashed, t) == Kept(Outside, t)
  {
  }

  /** What is left of a closed text is what stays of it, byte by byte. */
  lemma {:induction false} MinifiedIsKept(t: Bytes)
    requires Closed(t)
    ensures Minify(t) == Minified(Kept(Outside, t))
    decreases |t|, 1
  {
    ClosedIffMinified(t);
    if t[0] != NUL {
      var u := t[1..];
      assert |t| > 1 ==> u[0] == t[1] && u[1..] == t[2..];
      if t[0] == QUOTE {
        LiteralIsKept(u);
      } else if t[0] == SLASH && |t| > 1 && t[1] == SLASH {
        LineCloses(t[2..]);
        assert LineEnd(u) == LineEnd(t[2..]);
        MinifiedIsKept(LineEnd(u));
        LineKeepsNothing(t[2..]);
      } else if t[0] == SLASH && |t| > 1 && t[1] == STAR {
        BlockCloses(u);
        assert BlockEnd(t) == BlockEnd(u);
        MinifiedIsKept(BlockEnd(t));
        BlockKeepsNothing(u);
      } else {
        if t[0] == SLASH {
          SlashPasses(u);
          SlashCloses(u);
        }
        MinifiedIsKept(u);
      }
    }
  }

  lemma SlashCloses(t: Bytes)
    requires t == [] || t[0] !in {SLASH, STAR}
    ensures ClosedFrom(Slashed, t) == ClosedFrom(Outside, t)
  {
  }

  lemma {:induction false} LiteralIsKept(t: Bytes)
    requires ClosedFrom(Quoted, t)
    ensures MinifyString(t) == Minified(Kept(Quoted, t))
    decreases |t|, 0
  {
    LiteralCloses(t);
    var u := t[1..];
    if t[0] == QUOTE {
      MinifiedIsKept(u);
    } else if t[0] != BACKSLASH {
      LiteralIsKept(u);
    } else {
      assert u[0] == t[1] && u[1..] == t[2..];
      LiteralIsKept(t[2..]);
      assert [BACKSLASH] + ([t[1]] + Kept(Quoted, t[2..])) == [BACKSLASH, t[1]] + Kept(Quoted, t[2..]);
    }
  }
}
