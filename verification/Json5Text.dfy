/** What the cleaner of commented JSON promises: which texts it cleans as a reader of commented JSON would,
    for every byte string and exactly. */
module Json5Text {
  import opened Json5

  // ---------------------------------------------------------------------------------------------
  // Texts as pieces
  // ---------------------------------------------------------------------------------------------

  /** A text is a sequence of pieces: the bytes and string literals of JSON, the last of which may be
      unclosed, and what decorates it: line comments, block comments, the last of which may be left
      hanging, and trailing commas. */
  datatype Piece =
    | Plain(text: seq<Byte>)
    | Literal(text: seq<Byte>)
    | Unclosed(text: seq<Byte>)
    | Line(text: seq<Byte>)
    | Block(text: seq<Byte>)
    | Hanging(text: seq<Byte>)
    | Trailing(text: seq<Byte>)
  {
    predicate Comments() {
      Line? || Block? || Hanging?
    }

    predicate Decorates() {
      Comments() || Trailing?
    }

    predicate Quoted() {
      Literal? || Unclosed?
    }

    predicate Comma() {
      (Plain? || Trailing?) && text == [COMMA]
    }

    function First(): Byte {
      if text == [] then SPACE else text[0]
    }

    /** The text between the marks that open and close the piece. */
    function Body(): (b: seq<Byte>) {
      match this
      case Literal(_) => Inner(text, 1, 1)
      case Unclosed(_) => Inner(text, 1, 0)
      case Block(_) => Inner(text, 2, 2)
      case Line(_) | Hanging(_) => Inner(text, 2, 0)
      case _ => text
    }

    /** Is the text that of such a piece? */
    predicate Shaped() {
      match this
      case Plain(_) => |text| == 1 && text[0] != QUOTE
      case Literal(_) => text == [QUOTE] + Body() + [QUOTE] && StringBody(Body())
      case Unclosed(_) => text == [QUOTE] + Body() && OpenBody(Body())
      case Line(_) => text == [SLASH, SLASH] + Body() && NoBreak(Body())
      case Block(_) => text == [SLASH, STAR] + Body() + [STAR, SLASH] && NoClose(Body())
      case Hanging(_) => text == [SLASH, STAR] + Body() && NoClose(Body())
      case Trailing(_) => text == [COMMA]
    }

    /** The piece with a decoration blanked out. */
    function Erase(): (r: seq<Byte>)
      ensures |r| == |text|
    {
      if Decorates() then Spaces(|text|) else text
    }

    /** The piece with a decoration left out. */
    function Original(): (r: seq<Byte>) {
      if Decorates() then [] else text
    }
  }

  function Inner(t: seq<Byte>, m: nat, n: nat): seq<Byte> {
    if m + n <= |t| then t[m..|t| - n] else []
  }

  function Render(ps: seq<Piece>): (r: seq<Byte>) {
    if ps == [] then [] else ps[0].text + Render(ps[1..])
  }

  function Erase(ps: seq<Piece>): (r: seq<Byte>) {
    if ps == [] then [] else ps[0].Erase() + Erase(ps[1..])
  }

  function Original(ps: seq<Piece>): (r: seq<Byte>) {
    if ps == [] then [] else ps[0].Original() + Original(ps[1..])
  }

  /** The body of a string literal: every quote in it is escaped, and no escape is left open. */
  predicate StringBody(b: seq<Byte>) {
    b == [] ||
    if b[0] == BACKSLASH then |b| > 1 && StringBody(b[2..]) else b[0] != QUOTE && StringBody(b[1..])
  }

  /** The rest of a text after a quote that is never closed. */
  predicate OpenBody(b: seq<Byte>) {
    b == [] ||
    if b[0] == BACKSLASH then |b| == 1 || OpenBody(b[2..]) else b[0] != QUOTE && OpenBody(b[1..])
  }

  /** No star with a slash after it. */
  predicate NoClose(b: seq<Byte>) {
    forall k :: 0 <= k < |b| - 1 && b[k] == STAR ==> b[k + 1] != SLASH
  }

  predicate NoBreak(b: seq<Byte>) {
    forall k :: 0 <= k < |b| ==> !IsNL(b[k])
  }

  predicate Skipped(p: Piece) {
    p.Comments() || (p.Plain? && IsWS(p.First()))
  }

  /** After white space and comments, does a closing bracket come next? */
  predicate ClosesNext(ps: seq<Piece>) {
    ps != [] && if Skipped(ps[0]) then ClosesNext(ps[1..]) else ps[0].Plain? && IsCloser(ps[0].First())
  }

  /** May the piece stand before the others? */
  predicate Placed(p: Piece, more: seq<Piece>) {
    match p
    case Plain(text) => && (text == [COMMA] ==> !ClosesNext(more))
                        && (text == [SLASH] && more != [] ==> more[0].First() != SLASH && more[0].First() != STAR)
    case Unclosed(_) | Hanging(_) => more == []
    case Line(_) => more != [] ==> more[0].Plain? && IsNL(more[0].First())
    case Trailing(_) => ClosesNext(more)
    case _ => true
  }

  predicate AllPlaced(ps: seq<Piece>) {
    ps == [] || (Placed(ps[0], ps[1..]) && AllPlaced(ps[1..]))
  }

  /** The pieces are those that a reader of commented JSON takes the text for: comments and string
      literals end where they first can, a slash that opens no comment is a plain byte, and exactly the
      trailing commas are marked as such. */
  predicate Lexed(ps: seq<Piece>) {
    (forall p :: p in ps ==> p.Shaped()) && AllPlaced(ps)
  }

  lemma LexedFirst(ps: seq<Piece>)
    requires Lexed(ps) && ps != []
    ensures ps[0].Shaped() && ps[0].text != [] && Placed(ps[0], ps[1..]) && Lexed(ps[1..])
  {
    assert ps[0] in ps && forall p :: p in ps[1..] ==> p in ps;
  }

  /** What the decorations are to become: spaces exactly, or any white space. */
  predicate Blank(exact: bool, c: Byte) {
    if exact then c == SPACE else IsWS(c)
  }

  predicate AllBlank(exact: bool, r: seq<Byte>) {
    forall k :: 0 <= k < |r| ==> Blank(exact, r[k])
  }

  predicate Fits(exact: bool, p: Piece, r: seq<Byte>) {
    if p.Decorates() then AllBlank(exact, r) else r == p.text
  }

  /** From `at` on, `r` is the text with its decorations blanked and nothing else changed. */
  predicate Cleaned(exact: bool, ps: seq<Piece>, r: seq<Byte>, at: nat)
    decreases |ps|
  {
    if ps == [] then at == |r|
    else
      var end := at + |ps[0].text|;
      end <= |r| && Fits(exact, ps[0], r[at..end]) && Cleaned(exact, ps[1..], r, end)
  }

  /** The string literals of the pieces, which start at `at`, are all met. */
  predicate AllMet(met: set<nat>, ps: seq<Piece>, at: nat)
    decreases |ps|
  {
    ps == [] || ((ps[0].Quoted() ==> at in met) && AllMet(met, ps[1..], at + |ps[0].text|))
  }

  /** What the cleaner is for: with `r` the result and `met` the places where the scanner comes to stand,
      it meets every string literal of the pieces and blanks their decorations, and changes nothing else
      of them. */
  predicate Good(exact: bool, ps: seq<Piece>, at: nat, r: seq<Byte>, met: set<nat>) {
    Cleaned(exact, ps, r, at) && AllMet(met, ps, at)
  }

  /** The places of the text where the scanner comes to stand. */
  function Met(c: Cursor): set<nat> {
    set q | 0 <= q < |c.buf| && Meets(c.buf, c.pos, q)
  }

  predicate Cleans(exact: bool, c: Cursor, at: nat, ps: seq<Piece>) {
    Good(exact, ps, at, Scan(c.buf, c.pos), Met(c))
  }

  /** What the scanner finds when it looks on from a comma. */
  datatype Found = Closer | HiddenQuote | Other

  /** It passes white space and comments, and of a slash that opens none also the byte after it: a closing
      bracket after that counts as following the comma, and a quote there is not noticed. */
  function Peek(ps: seq<Piece>): Found {
    if ps == [] then Other
    else if Skipped(ps[0]) then Peek(ps[1..])
    else if ps[0] == Plain([SLASH]) then
      if |ps| == 1 then Other else if ps[1].Quoted() then HiddenQuote else Peek(ps[2..])
    else if ps[0].Plain? && IsCloser(ps[0].First()) then Closer
    else Other
  }

  /** A star at `k` has a blank byte after it, or ends a comment that is left hanging. */
  predicate StarSpaced(exact: bool, b: seq<Byte>, hanging: bool, k: nat)
    requires k < |b|
  {
    b[k] == STAR ==> if k + 1 < |b| then Blank(exact, b[k + 1]) else hanging
  }

  /** Every star is followed by a blank byte, since the scanner steps over what follows a star. Only in a
      comment left hanging may the last byte be a star. */
  predicate StarsSpaced(exact: bool, b: seq<Byte>, hanging: bool) {
    forall k :: 0 <= k < |b| ==> StarSpaced(exact, b, hanging, k)
  }

  /** Is the piece a block comment with an unspaced star? */
  predicate Starred(exact: bool, p: Piece) {
    (p.Block? || p.Hanging?) && !StarsSpaced(exact, p.Body(), p.Hanging?)
  }

  /** The stars of block comments are spaced, and behind a comma that is not trailing the scanner finds
      neither a closing bracket nor a quote that it passes. */
  predicate Clear(exact: bool, ps: seq<Piece>) {
    ps == [] ||
    (Clear(exact, ps[1..]) &&
     !Starred(exact, ps[0]) && (ps[0] == Plain([COMMA]) ==> Peek(ps[1..]) == Other))
  }

  // ---------------------------------------------------------------------------------------------
  // Single pieces under the scanner
  // ---------------------------------------------------------------------------------------------

  lemma {:induction false} StringEndAtQuote(pre: seq<Byte>, body: seq<Byte>, rest: seq<Byte>)
    requires StringBody(body)
    ensures StringEnd(pre + body + [QUOTE] + rest, |pre|) == |pre| + |body| + 1
    decreases |body|
  {
    var v := pre + body + [QUOTE] + rest;
    if body == [] {
      assert v[|pre|] == QUOTE;
    } else {
      var n := if body[0] == BACKSLASH then 2 else 1;
      assert v[|pre|] == body[0];
      assert v == (pre + body[..n]) + body[n..] + [QUOTE] + rest;
      StringEndAtQuote(pre + body[..n], body[n..], rest);
    }
  }

  lemma {:induction false} StringEndOpen(pre: seq<Byte>, body: seq<Byte>)
    requires OpenBody(body)
    ensures StringEnd(pre + body, |pre|) >= |pre + body|
    decreases |body|
  {
    var v := pre + body;
    if body == [] {
    } else {
      assert v[|pre|] == body[0];
      if body[0] != BACKSLASH || |body| > 1 {
        var n := if body[0] == BACKSLASH then 2 else 1;
        assert v == (pre + body[..n]) + body[n..];
        StringEndOpen(pre + body[..n], body[n..]);
      }
    }
  }

  lemma {:induction false} LineRestErases(pre: seq<Byte>, body: seq<Byte>, rest: seq<Byte>)
    requires NoBreak(body) && (rest == [] || IsNL(rest[0]))
    ensures LineRest(pre + body + rest, |pre|) == Cursor(pre + Spaces(|body|) + rest, |pre| + |body|)
    decreases |body|
  {
    var v := pre + body + rest;
    if body == [] {
      assert v == pre + Spaces(0) + rest;
    } else {
      assert v[|pre|] == body[0];
      assert v[|pre| := SPACE] == (pre + [SPACE]) + body[1..] + rest;
      LineRestErases(pre + [SPACE], body[1..], rest);
      assert (pre + [SPACE]) + Spaces(|body| - 1) + rest == pre + Spaces(|body|) + rest;
    }
  }

  lemma LineErases(pre: seq<Byte>, body: seq<Byte>, rest: seq<Byte>)
    requires NoBreak(body) && (rest == [] || IsNL(rest[0]))
    ensures Comment(pre + ([SLASH, SLASH] + body) + rest, |pre| + 1)
         == Cursor(pre + Spaces(|body| + 2) + rest, |pre| + |body| + 2)
  {
    var v := pre + ([SLASH, SLASH] + body) + rest;
    assert v[|pre|] == v[|pre| + 1] == SLASH;
    assert v[|pre| := SPACE] == (pre + [SPACE]) + ([SLASH] + body) + rest;
    LineRestErases(pre + [SPACE], [SLASH] + body, rest);
    assert (pre + [SPACE]) + Spaces(1 + |body|) + rest == pre + Spaces(|body| + 2) + rest;
  }

  lemma StarsStep(exact: bool, b: seq<Byte>, hanging: bool)
    requires b != []
    ensures StarsSpaced(exact, b, hanging) <==>
              if b[0] != STAR then StarsSpaced(exact, b[1..], hanging)
              else if |b| == 1 then hanging
              else Blank(exact, b[1]) && StarsSpaced(exact, b[2..], hanging)
  {
    var n := if b[0] == STAR && |b| > 1 then 2 else 1;
    assert StarsSpaced(exact, b, hanging) ==> StarSpaced(exact, b, hanging, 0);
    if StarsSpaced(exact, b, hanging) {
      forall k | 0 <= k < |b[n..]|
        ensures StarSpaced(exact, b[n..], hanging, k)
      {
        assert StarSpaced(exact, b, hanging, n + k);
      }
    }
    if StarsSpaced(exact, b[n..], hanging) && StarSpaced(exact, b, hanging, 0) {
      forall k | 0 <= k < |b|
        ensures StarSpaced(exact, b, hanging, k)
      {
        assert k >= n ==> StarSpaced(exact, b[n..], hanging, k - n);
      }
    }
  }

  /** What the scanner makes of the first bytes of a block comment's body. */
  function Stepped(body: seq<Byte>): (r: seq<Byte>)
    requires body != []
    ensures 1 <= |r| <= |body|
  {
    if body[0] == STAR && |body| > 1 then [SPACE, body[1]] else [SPACE]
  }

  /** One turn of the loop over a block comment. */
  lemma BlockRestStep(pre: seq<Byte>, body: seq<Byte>, tail: seq<Byte>)
    requires NoClose(body) && body != [] && (body[0] == STAR && |body| == 1 ==> tail == [])
    ensures var front := Stepped(body);
            var w := (pre + front) + body[|front|..] + tail;
            var c, d := BlockRest(pre + body + tail, |pre|), BlockRest(w, |pre + front|);
            c.buf == d.buf && (c.pos == d.pos || (c.pos >= |c.buf| && d.pos >= |c.buf|))
            && NoClose(body[|front|..])
  {
    var v, front := pre + body + tail, Stepped(body);
    assert v[|pre|] == body[0] && (|body| > 1 ==> v[|pre| + 1] == body[1]);
    assert v[|pre| := SPACE] == (pre + front) + body[|front|..] + tail;
    assert forall k :: 0 <= k < |body[|front|..]| ==> body[|front|..][k] == body[k + |front|];
  }

  /** The body of a block comment with spaced stars turns blank, and the cursor stops at its end. */
  lemma {:induction false} BlockRestErases(exact: bool, pre: seq<Byte>, body: seq<Byte>, rest: seq<Byte>)
      returns (l: seq<Byte>)
    requires NoClose(body) && StarsSpaced(exact, body, false)
    ensures |l| == |body| + 2 && AllBlank(exact, l) && l[|l| - 1] == SPACE
    ensures BlockRest(pre + body + ([STAR, SLASH] + rest), |pre|) == Cursor(pre + l + rest, |pre| + |body| + 1)
    decreases |body|
  {
    var v := pre + body + ([STAR, SLASH] + rest);
    if body == [] {
      l := Spaces(2);
      assert v[|pre|] == STAR && v[|pre| + 1] == SLASH;
      assert v[|pre| := SPACE][|pre| + 1 := SPACE] == pre + l + rest;
    } else {
      var front := Stepped(body);
      StarsStep(exact, body, false);
      BlockRestStep(pre, body, [STAR, SLASH] + rest);
      var more := BlockRestErases(exact, pre + front, body[|front|..], rest);
      l := front + more;
      assert (pre + front) + more + rest == pre + l + rest;
    }
  }

  lemma {:induction false} BlockRestHangs(exact: bool, pre: seq<Byte>, body: seq<Byte>) returns (l: seq<Byte>)
    requires NoClose(body) && StarsSpaced(exact, body, true)
    ensures |l| == |body| && AllBlank(exact, l)
    ensures var c := BlockRest(pre + body + [], |pre|); c.buf == pre + l && c.pos >= |c.buf|
    decreases |body|
  {
    if body == [] {
      l := [];
      assert pre + body + [] == pre + l == pre;
    } else {
      var front := Stepped(body);
      StarsStep(exact, body, true);
      BlockRestStep(pre, body, []);
      var more := BlockRestHangs(exact, pre + front, body[|front|..]);
      l := front + more;
      assert (pre + front) + more == pre + l;
    }
  }

  /** The first star that no blank follows leaves a byte behind. */
  lemma {:induction false} BlockRestLeaves(exact: bool, pre: seq<Byte>, body: seq<Byte>, tail: seq<Byte>)
    returns (k: nat)
    requires NoClose(body) && (tail == [] || (|tail| > 1 && tail[0] == STAR && tail[1] == SLASH))
    requires !StarsSpaced(exact, body, tail == [])
    ensures |pre| <= k < |pre| + |body| + |tail| && k < |pre| + |body| + 2
    ensures var c := BlockRest(pre + body + tail, |pre|); c.pos > k && !Blank(exact, c.buf[k])
    decreases |body|
  {
    StarsStep(exact, body, tail == []);
    if body[0] == STAR && (|body| == 1 || !Blank(exact, body[1])) {
      var v := pre + body + tail;
      k := |pre| + 1;
      assert v[|pre|] == STAR && v[k] == (if |body| == 1 then tail[0] else body[1]);
      BlockRestBlanks(v[|pre| := SPACE], k + 1);
    } else {
      var front := Stepped(body);
      BlockRestStep(pre, body, tail);
      k := BlockRestLeaves(exact, pre + front, body[|front|..], tail);
    }
  }

  /** The comment is one that the scanner blanks. */
  predicate Erasable(exact: bool, p: Piece, rest: seq<Byte>) {
    && p.Comments() && p.Shaped() && !Starred(exact, p)
    && (p.Line? ==> rest == [] || IsNL(rest[0]))
    && (p.Hanging? ==> rest == [])
  }

  lemma Regroup(a: seq<Byte>, b: seq<Byte>, c: seq<Byte>, d: seq<Byte>)
    ensures a + (b + c) + d == (a + b) + c + d
  {
  }

  lemma BlankTwo(pre: seq<Byte>, more: seq<Byte>)
    ensures var w := (pre + [SPACE, SPACE]) + more;
            && ((pre + [SLASH, STAR]) + more)[|pre| := SPACE][|pre| + 1 := SPACE] == w
            && w[|pre| + 1] == SPACE && w[|pre| + 1 := SPACE] == w
  {
  }

  /** The opening of a block comment is blanked, and its star is looked at again as a blank. */
  lemma BlockOpens(pre: seq<Byte>, more: seq<Byte>)
    ensures Comment((pre + [SLASH, STAR]) + more, |pre| + 1) == BlockRest((pre + [SPACE, SPACE]) + more, |pre| + 2)
  {
    var v := (pre + [SLASH, STAR]) + more;
    assert v[|pre|] == SLASH && v[|pre| + 1] == STAR;
    BlankTwo(pre, more);
  }

  /** A block comment's text after its opening. */
  function Inside(p: Piece, rest: seq<Byte>): seq<Byte> {
    p.Body() + Tail(p, rest)
  }

  /** What follows the body of a block comment. */
  function Tail(p: Piece, rest: seq<Byte>): seq<Byte> {
    if p.Block? then [STAR, SLASH] + rest else []
  }

  lemma InsideIs(pre: seq<Byte>, p: Piece, rest: seq<Byte>)
    requires (p.Block? || (p.Hanging? && rest == [])) && p.Shaped()
    ensures pre + p.text + rest == (pre + [SLASH, STAR]) + Inside(p, rest)
  {
    var b := p.Body();
    if p.Block? {
      assert pre + ([SLASH, STAR] + b + [STAR, SLASH]) + rest == (pre + [SLASH, STAR]) + (b + ([STAR, SLASH] + rest));
    } else {
      assert pre + ([SLASH, STAR] + b) + [] == (pre + [SLASH, STAR]) + (b + []);
    }
  }

  /** A comment is blanked, and the cursor stands after it, or on its last blank, or past the text. */
  lemma CommentErases(exact: bool, pre: seq<Byte>, p: Piece, rest: seq<Byte>) returns (l: seq<Byte>)
    requires Erasable(exact, p, rest)
    ensures |l| == |p.text| && AllBlank(exact, l) && (p.Block? ==> l[|l| - 1] == SPACE)
    ensures var c := Comment(pre + p.text + rest, |pre| + 1);
            && c.buf == pre + l + rest
            && (p.Line? ==> c.pos == |pre| + |l|)
            && (p.Block? ==> c.pos == |pre| + |l| - 1)
            && (p.Hanging? ==> c.pos >= |c.buf|)
  {
    if p.Line? {
      LineErases(pre, p.Body(), rest);
      l := Spaces(|p.text|);
    } else {
      l := BlockErases(exact, pre, p, rest);
    }
  }

  lemma BlockErases(exact: bool, pre: seq<Byte>, p: Piece, rest: seq<Byte>) returns (l: seq<Byte>)
    requires Erasable(exact, p, rest) && !p.Line?
    ensures |l| == |p.text| && AllBlank(exact, l) && (p.Block? ==> l[|l| - 1] == SPACE)
    ensures var c := Comment(pre + p.text + rest, |pre| + 1);
            && c.buf == pre + l + rest
            && if p.Block? then c.pos == |pre| + |l| - 1 else c.pos >= |c.buf|
  {
    var q := pre + [SPACE, SPACE];
    InsideIs(pre, p, rest);
    BlockOpens(pre, Inside(p, rest));
    Assoc(q, p.Body(), Tail(p, rest));
    var more;
    if p.Block? {
      more := BlockRestErases(exact, q, p.Body(), rest);
    } else {
      more := BlockRestHangs(exact, q, p.Body());
      assert q + more + rest == q + more;
    }
    l := [SPACE, SPACE] + more;
    Regroup(pre, [SPACE, SPACE], more, rest);
  }

  /** A block comment with an unspaced star leaves a byte behind. */
  lemma CommentLeaves(exact: bool, pre: seq<Byte>, p: Piece, rest: seq<Byte>) returns (k: nat)
    requires (p.Block? || (p.Hanging? && rest == [])) && p.Shaped() && Starred(exact, p)
    ensures |pre| <= k < |pre| + |p.text|
    ensures var c := Comment(pre + p.text + rest, |pre| + 1); c.pos > k && !Blank(exact, c.buf[k])
  {
    var q := pre + [SPACE, SPACE];
    InsideIs(pre, p, rest);
    BlockOpens(pre, Inside(p, rest));
    Assoc(q, p.Body(), Tail(p, rest));
    k := BlockRestLeaves(exact, q, p.Body(), Tail(p, rest));
  }

  lemma Assoc(a: seq<Byte>, b: seq<Byte>, c: seq<Byte>)
    ensures a + (b + c) == (a + b) + c
  {
  }

  // ---------------------------------------------------------------------------------------------
  // Whole texts
  // ---------------------------------------------------------------------------------------------

  /** The same places from `at` on. */
  ghost predicate Agree(m: set<nat>, n: set<nat>, at: nat) {
    forall q :: q >= at ==> (q in m <==> q in n)
  }

  /** From `at` on, the scanner does the same from either cursor. */
  ghost predicate SameAhead(c: Cursor, d: Cursor, at: nat) {
    Scan(c.buf, c.pos) == Scan(d.buf, d.pos) && Agree(Met(c), Met(d), at)
  }

  lemma StepSame(v: seq<Byte>, i: nat, at: nat)
    requires i < |v| && i < at
    ensures SameAhead(Cursor(v, i), Step(v, i), at)
  {
  }

  lemma EndSame(v: seq<Byte>, i: nat, k: nat, at: nat)
    requires |v| <= i && |v| <= k && |v| <= at
    ensures SameAhead(Cursor(v, i), Cursor(v, k), at)
  {
  }

  lemma {:induction false} AllMetSame(m: set<nat>, n: set<nat>, ps: seq<Piece>, at: nat)
    requires Agree(m, n, at)
    ensures AllMet(m, ps, at) <==> AllMet(n, ps, at)
    decreases |ps|
  {
    if ps == [] {
    } else {
      AllMetSame(m, n, ps[1..], at + |ps[0].text|);
    }
  }

  /** The first piece is `l` in the result, and for the others the places in `n` count. */
  lemma Advance(exact: bool, ps: seq<Piece>, at: nat, r: seq<Byte>, m: set<nat>, n: set<nat>, l: seq<Byte>)
    requires ps != [] && |l| == |ps[0].text| && at + |l| <= |r| && r[at..at + |l|] == l
    requires Agree(m, n, at + |l|)
    ensures Good(exact, ps, at, r, m) <==>
              && Fits(exact, ps[0], l)
              && (ps[0].Quoted() ==> at in m)
              && Good(exact, ps[1..], at + |l|, r, n)
  {
    AllMetSame(m, n, ps[1..], at + |l|);
  }

  lemma FromSame(exact: bool, ps: seq<Piece>, at: nat, c: Cursor, d: Cursor, l: seq<Byte>)
    requires ps != [] && |l| == |ps[0].text| && Fits(exact, ps[0], l)
    requires SameAhead(c, d, at + |l|) && at + |l| <= |d.buf| && Scan(d.buf, d.pos)[at..at + |l|] == l
    requires ps[0].Quoted() ==> at in Met(c)
    ensures Cleans(exact, c, at, ps) <==> Cleans(exact, d, at + |l|, ps[1..])
  {
    Advance(exact, ps, at, Scan(c.buf, c.pos), Met(c), Met(d), l);
  }

  /** What stands before the cursor stays. */
  lemma ScanKeeps(v: seq<Byte>, i: nat, a: nat, b: nat)
    requires a <= b <= |v| && b <= i
    ensures Scan(v, i)[a..b] == v[a..b]
  {
    ScanBlanks(v, i);
  }

  /** The piece is one that the scanner takes as it should. */
  predicate Passable(exact: bool, p: Piece, rest: seq<Byte>) {
    && p.Shaped() && !p.Comma()
    && (p.Comments() ==> Erasable(exact, p, rest))
    && (p.Unclosed? ==> rest == [])
    && (p == Plain([SLASH]) && rest != [] ==> rest[0] != SLASH && rest[0] != STAR)
  }

  lemma Quotes(a: seq<Byte>, body: seq<Byte>, rest: seq<Byte>)
    ensures a + ([QUOTE] + body + [QUOTE]) + rest == (a + [QUOTE]) + body + [QUOTE] + rest
    ensures (a + ([QUOTE] + body + [QUOTE]) + rest)[|a|] == QUOTE
  {
  }

  lemma LiteralAt(v: seq<Byte>, at: nat, p: Piece)
    requires Here(v, at, p) && p.Literal? && p.Shaped()
    ensures Step(v, at) == Cursor(v, at + |p.text|)
  {
    var rest := v[at + |p.text|..];
    HereFirst(v, at, p);
    Quotes(v[..at], p.Body(), rest);
    StringEndAtQuote(v[..at] + [QUOTE], p.Body(), rest);
  }

  lemma UnclosedAt(v: seq<Byte>, at: nat, p: Piece)
    requires Here(v, at, p) && p.Unclosed? && p.Shaped() && at + |p.text| == |v|
    ensures Step(v, at).buf == v && Step(v, at).pos >= |v|
  {
    HereFirst(v, at, p);
    assert v == (v[..at] + [QUOTE]) + p.Body();
    StringEndOpen(v[..at] + [QUOTE], p.Body());
  }

  lemma ByteAt(v: seq<Byte>, at: nat, p: Piece)
    requires Here(v, at, p) && p.Plain? && Passable(true, p, v[at + |p.text|..])
    ensures Step(v, at) == Cursor(v, at + 1)
  {
    HereFirst(v, at, p);
    assert p.text == [p.text[0]];
    assert at + 1 < |v| ==> v[at + 1..][0] == v[at + 1];
  }

  lemma Thirds(a: seq<Byte>, b: seq<Byte>, c: seq<Byte>)
    ensures var v := a + b + c;
            && v[|a|..|a| + |b|] == b
            && (forall k :: 0 <= k < |a| ==> v[k] == a[k])
            && (forall k :: |a| + |b| <= k < |v| ==> v[k] == c[k - |a| - |b|])
  {
  }

  /** The piece stands at `at`. */
  predicate Here(v: seq<Byte>, at: nat, p: Piece) {
    at + |p.text| <= |v| && v[at..at + |p.text|] == p.text
  }

  lemma HereFirst(v: seq<Byte>, at: nat, p: Piece)
    requires Here(v, at, p) && p.text != []
    ensures at < at + |p.text| <= |v| && v[at] == p.First()
    ensures v == v[..at] + p.text + v[at + |p.text|..]
  {
    assert v[at..at + |p.text|][0] == v[at];
    assert v == v[..at] + v[at..at + |p.text|] + v[at + |p.text|..];
  }

  /** The same bytes before `at` and from `end` on. */
  ghost predicate SameBut(v: seq<Byte>, w: seq<Byte>, at: nat, end: nat) {
    |v| == |w| && forall k :: 0 <= k < |v| && (k < at || end <= k) ==> w[k] == v[k]
  }

  /** The comment at `at` has become blanks in `w`, and the cursor stands at `pos`. */
  ghost predicate Passed(exact: bool, v: seq<Byte>, at: nat, p: Piece, w: seq<Byte>, pos: nat) {
    var end := at + |p.text|;
    && at + 1 < end <= |v| && v[at] == SLASH
    && SameBut(v, w, at, end) && AllBlank(exact, w[at..end])
    && Comment(v, at + 1) == Cursor(w, pos)
    && (p.Line? ==> pos == end && (end == |w| || IsNL(w[end])))
    && (p.Block? ==> pos + 1 == end && w[pos] == SPACE)
    && (p.Hanging? ==> pos >= |w| == end)
  }

  lemma CommentStarts(p: Piece)
    requires p.Shaped() && p.Comments()
    ensures |p.text| > 1 && p.text[0] == SLASH
  {
  }

  lemma Replaced(v: seq<Byte>, at: nat, l: seq<Byte>)
    requires at + |l| <= |v|
    ensures var w, end := v[..at] + l + v[at + |l|..], at + |l|;
            SameBut(v, w, at, end) && w[at..end] == l && (l != [] ==> w[end - 1] == l[|l| - 1])
  {
    Thirds(v[..at], l, v[at + |l|..]);
  }

  /** A comment in a text, and where the cursor is after it. */
  lemma CommentAt(exact: bool, v: seq<Byte>, at: nat, p: Piece) returns (w: seq<Byte>, pos: nat)
    requires Here(v, at, p) && Erasable(exact, p, v[at + |p.text|..])
    ensures Passed(exact, v, at, p, w, pos)
  {
    CommentStarts(p);
    HereFirst(v, at, p);
    var end := at + |p.text|;
    var l := CommentErases(exact, v[..at], p, v[end..]);
    w := v[..at] + l + v[end..];
    pos := Comment(v, at + 1).pos;
    Replaced(v, at, l);
    assert end < |v| ==> v[end..][0] == v[end];
  }

  lemma CommentSame(exact: bool, v: seq<Byte>, at: nat, p: Piece, w: seq<Byte>, pos: nat)
    requires p.Comments() && Passed(exact, v, at, p, w, pos)
    ensures var end := at + |p.text|; Fits(exact, p, w[at..end]) && SameAhead(Cursor(v, at), Cursor(w, end), end)
  {
    var end := at + |p.text|;
    StepSame(v, at, end);
    if pos + 1 == end {
      StepSame(w, pos, end);
    } else if pos != end {
      EndSame(w, pos, end, end);
    }
  }

  lemma OverOther(exact: bool, v: seq<Byte>, at: nat, p: Piece)
    requires Here(v, at, p) && Passable(exact, p, v[at + |p.text|..]) && !p.Comments()
    ensures p.text != [] && SameAhead(Cursor(v, at), Cursor(v, at + |p.text|), at + |p.text|)
  {
    var end := at + |p.text|;
    if p.Unclosed? {
      UnclosedAt(v, at, p);
      StepSame(v, at, end);
      EndSame(v, Step(v, at).pos, end, end);
    } else if p.Literal? {
      LiteralAt(v, at, p);
      StepSame(v, at, end);
    } else {
      ByteAt(v, at, p);
      StepSame(v, at, end);
    }
  }

  /** In the text at large: a piece, and the scanner after it. */
  lemma OverAt(exact: bool, v: seq<Byte>, at: nat, p: Piece) returns (w: seq<Byte>)
    requires Here(v, at, p) && Passable(exact, p, v[at + |p.text|..])
    ensures var end := at + |p.text|;
            SameBut(v, w, at, end) && Fits(exact, p, w[at..end]) && SameAhead(Cursor(v, at), Cursor(w, end), end)
  {
    if p.Comments() {
      var pos;
      w, pos := CommentAt(exact, v, at, p);
      CommentSame(exact, v, at, p, w, pos);
    } else {
      w := v;
      OverOther(exact, v, at, p);
    }
  }

  lemma BeyondComment(exact: bool, v: seq<Byte>, j: nat, at: nat, p: Piece, w: seq<Byte>, pos: nat)
    requires j < at && p.Comments() && Passed(exact, v, at, p, w, pos)
    ensures var end := at + |p.text|;
            && Fits(exact, p, w[at..end]) && SameAhead(AfterComma(v, j, at), AfterComma(w, j, end), end)
  {
    assert AfterComma(v, j, at) == AfterComma(w, j, pos + 1);
    if pos >= |w| {
      EndSame(w, pos + 1, at + |p.text|, at + |p.text|);
    }
  }

  lemma BeyondCommentAt(exact: bool, v: seq<Byte>, j: nat, at: nat, p: Piece) returns (w: seq<Byte>)
    requires j < at && Here(v, at, p) && Erasable(exact, p, v[at + |p.text|..])
    ensures var end := at + |p.text|;
            && SameBut(v, w, at, end) && Fits(exact, p, w[at..end])
            && SameAhead(AfterComma(v, j, at), AfterComma(w, j, end), end)
  {
    var pos;
    w, pos := CommentAt(exact, v, at, p);
    BeyondComment(exact, v, j, at, p, w, pos);
  }

  lemma WhiteAt(exact: bool, v: seq<Byte>, j: nat, at: nat, p: Piece)
    requires j < at && Here(v, at, p) && p.Plain? && IsWS(p.First()) && p.Shaped()
    ensures var end := at + |p.text|;
            && SameBut(v, v, at, end) && Fits(exact, p, v[at..end])
            && SameAhead(AfterComma(v, j, at), AfterComma(v, j, end), end)
  {
    HereFirst(v, at, p);
    assert AfterComma(v, j, at) == AfterComma(v, j, at + 1);
  }

  /** Behind a comma: a piece that is skipped, and the lookahead after it. */
  lemma BeyondAt(exact: bool, v: seq<Byte>, j: nat, at: nat, p: Piece) returns (w: seq<Byte>)
    requires j < at && Here(v, at, p) && Skipped(p) && p.Shaped()
    requires p.Comments() ==> Erasable(exact, p, v[at + |p.text|..])
    ensures var end := at + |p.text|;
            && SameBut(v, w, at, end) && Fits(exact, p, w[at..end])
            && SameAhead(AfterComma(v, j, at), AfterComma(w, j, end), end)
  {
    if p.Comments() {
      w := BeyondCommentAt(exact, v, j, at, p);
    } else {
      w := v;
      WhiteAt(exact, v, j, at, p);
    }
  }

  /** What a lookahead has passed stays, but for the comma. */
  lemma LookKeeps(v: seq<Byte>, j: nat, i: nat, a: nat, b: nat)
    requires j < a <= b <= i && b <= |v|
    ensures var c := AfterComma(v, j, i); Scan(c.buf, c.pos)[a..b] == v[a..b]
  {
    AfterCommaBlanks(v, j, i);
    ScanBlanks(AfterComma(v, j, i).buf, AfterComma(v, j, i).pos);
  }

  lemma NotFit(exact: bool, p: Piece, r: seq<Byte>, k: nat)
    requires p.Decorates() && k < |r| && !Blank(exact, r[k])
    ensures !Fits(exact, p, r)
  {
  }

  lemma NotFirst(exact: bool, c: Cursor, at: nat, ps: seq<Piece>, k: nat)
    requires ps != [] && ps[0].Decorates()
    requires at <= k < at + |ps[0].text| && k < |c.buf| && !Blank(exact, Scan(c.buf, c.pos)[k])
    ensures !Cleans(exact, c, at, ps)
  {
    var r, end := Scan(c.buf, c.pos), at + |ps[0].text|;
    if end <= |r| {
      NotFit(exact, ps[0], r[at..end], k - at);
    }
  }

  /** From `at` on, the text is that of the pieces. */
  predicate RestIs(v: seq<Byte>, at: nat, ps: seq<Piece>)
    decreases |ps|
  {
    if ps == [] then at == |v| else Here(v, at, ps[0]) && RestIs(v, at + |ps[0].text|, ps[1..])
  }

  lemma {:induction false} RestSame(v: seq<Byte>, w: seq<Byte>, at: nat, ps: seq<Piece>)
    requires RestIs(v, at, ps) && SameBut(v, w, 0, at)
    ensures RestIs(w, at, ps)
    decreases |ps|
  {
    if ps == [] {
    } else {
      var end := at + |ps[0].text|;
      assert w[at..end] == v[at..end];
      RestSame(v, w, end, ps[1..]);
    }
  }

  lemma {:induction false} RenderRest(v: seq<Byte>, at: nat, ps: seq<Piece>)
    requires at <= |v| && v[at..] == Render(ps)
    ensures RestIs(v, at, ps)
    decreases |ps|
  {
    if ps != [] {
      var b, c := ps[0].text, Render(ps[1..]);
      assert (b + c)[..|b|] == b && (b + c)[|b|..] == c;
      assert v[at..][..|b|] == v[at..at + |b|] && v[at..][|b|..] == v[at + |b|..];
      RenderRest(v, at + |ps[0].text|, ps[1..]);
    } else {
      assert v[at..] == [];
    }
  }

  /** What comes after the first piece. */
  lemma RestNext(v: seq<Byte>, at: nat, ps: seq<Piece>)
    requires ps != [] && RestIs(v, at, ps) && Lexed(ps)
    ensures var end := at + |ps[0].text|;
            && at < end <= |v| && v[at] == ps[0].First()
            && (ps[1..] == [] ==> v[end..] == [])
            && (ps[1..] != [] ==> v[end..] != [] && v[end..][0] == ps[1].First())
  {
    LexedFirst(ps);
    var end := at + |ps[0].text|;
    HereFirst(v, at, ps[0]);
    if ps[1..] != [] {
      LexedFirst(ps[1..]);
      assert ps[1..][0] == ps[1];
      HereFirst(v, end, ps[1]);
    }
  }

  lemma CommentReady(exact: bool, v: seq<Byte>, at: nat, ps: seq<Piece>)
    requires Lexed(ps) && RestIs(v, at, ps) && ps != [] && ps[0].Comments() && !Starred(exact, ps[0])
    ensures at + |ps[0].text| <= |v| && Erasable(exact, ps[0], v[at + |ps[0].text|..])
  {
    LexedFirst(ps);
    RestNext(v, at, ps);
    assert Placed(ps[0], ps[1..]) && (ps[1..] != [] ==> ps[1..][0] == ps[1]);
  }

  lemma PieceReady(exact: bool, v: seq<Byte>, at: nat, ps: seq<Piece>)
    requires Lexed(ps) && RestIs(v, at, ps) && ps != [] && !ps[0].Comma() && !Starred(exact, ps[0])
    ensures at + |ps[0].text| <= |v| && Passable(exact, ps[0], v[at + |ps[0].text|..])
  {
    LexedFirst(ps);
    RestNext(v, at, ps);
    if ps[0].Comments() {
      CommentReady(exact, v, at, ps);
    } else {
      assert Placed(ps[0], ps[1..]) && (ps[1..] != [] ==> ps[1..][0] == ps[1]);
    }
  }

  lemma StarredLeaves(exact: bool, v: seq<Byte>, at: nat, ps: seq<Piece>) returns (k: nat)
    requires Lexed(ps) && ps != [] && Starred(exact, ps[0]) && RestIs(v, at, ps)
    ensures at <= k < at + |ps[0].text| <= |v| && v[at] == SLASH
    ensures var c := Comment(v, at + 1); c.pos > k && !Blank(exact, c.buf[k])
  {
    LexedFirst(ps);
    RestNext(v, at, ps);
    HereFirst(v, at, ps[0]);
    assert Placed(ps[0], ps[1..]);
    k := CommentLeaves(exact, v[..at], ps[0], v[at + |ps[0].text|..]);
  }

  lemma StepKeeps(v: seq<Byte>, i: nat, k: nat)
    requires i < |v| && v[i] == SLASH && k < |v| && Comment(v, i + 1).pos > k
    ensures Scan(v, i)[k] == Comment(v, i + 1).buf[k]
  {
    var c := Step(v, i);
    ScanBlanks(c.buf, c.pos);
  }

  lemma ScanStarred(exact: bool, v: seq<Byte>, at: nat, ps: seq<Piece>)
    requires Lexed(ps) && ps != [] && Starred(exact, ps[0]) && RestIs(v, at, ps)
    ensures !Cleans(exact, Cursor(v, at), at, ps) && !Clear(exact, ps)
  {
    var k := StarredLeaves(exact, v, at, ps);
    StepKeeps(v, at, k);
    NotFirst(exact, Cursor(v, at), at, ps, k);
  }

  lemma ScanParts(exact: bool, ps: seq<Piece>, at: nat, v: seq<Byte>, w: seq<Byte>)
    requires ps != [] && ps[0].text != [] && at + |ps[0].text| <= |v| == |w|
    requires var end := at + |ps[0].text|;
             Fits(exact, ps[0], w[at..end]) && SameAhead(Cursor(v, at), Cursor(w, end), end)
    ensures var end := at + |ps[0].text|;
            Cleans(exact, Cursor(v, at), at, ps) <==> Cleans(exact, Cursor(w, end), end, ps[1..])
  {
    var end := at + |ps[0].text|;
    ScanKeeps(w, end, at, end);
    HereMet(Cursor(v, at));
    FromSame(exact, ps, at, Cursor(v, at), Cursor(w, end), w[at..end]);
  }

  lemma ScanNext(exact: bool, v: seq<Byte>, at: nat, ps: seq<Piece>) returns (w: seq<Byte>)
    requires Lexed(ps) && RestIs(v, at, ps)
    requires ps != [] && !ps[0].Comma() && !Starred(exact, ps[0])
    ensures var end := at + |ps[0].text|;
            && RestIs(w, end, ps[1..])
            && (Cleans(exact, Cursor(v, at), at, ps) <==> Cleans(exact, Cursor(w, end), end, ps[1..]))
  {
    LexedFirst(ps);
    PieceReady(exact, v, at, ps);
    w := OverAt(exact, v, at, ps[0]);
    ScanParts(exact, ps, at, v, w);
    RestSame(v, w, at + |ps[0].text|, ps[1..]);
  }

  lemma HereMet(c: Cursor)
    ensures c.pos < |c.buf| ==> c.pos in Met(c)
  {
  }

  /** The exact condition, for the rest of a text from the cursor on. */
  lemma {:induction false} ScanIff(exact: bool, v: seq<Byte>, at: nat, ps: seq<Piece>)
    requires Lexed(ps) && RestIs(v, at, ps)
    ensures Cleans(exact, Cursor(v, at), at, ps) <==> Clear(exact, ps)
    decreases |ps|, 1
  {
    if ps == [] {
      ScanEnd(exact, v);
    } else if Starred(exact, ps[0]) {
      ScanStarred(exact, v, at, ps);
    } else if ps[0].Comma() {
      CommaIff(exact, v, at, ps);
    } else {
      ScanOn(exact, v, at, ps);
    }
  }

  lemma ScanEnd(exact: bool, v: seq<Byte>)
    ensures Cleans(exact, Cursor(v, |v|), |v|, []) && Clear(exact, [])
  {
  }

  lemma {:induction false} ScanOn(exact: bool, v: seq<Byte>, at: nat, ps: seq<Piece>)
    requires Lexed(ps) && RestIs(v, at, ps) && ps != [] && !ps[0].Comma() && !Starred(exact, ps[0])
    ensures Cleans(exact, Cursor(v, at), at, ps) <==> Clear(exact, ps)
    decreases |ps|, 0
  {
    ClearMore(exact, ps);
    var w := ScanNext(exact, v, at, ps);
    ScanIff(exact, w, at + |ps[0].text|, ps[1..]);
  }

  lemma ClearMore(exact: bool, ps: seq<Piece>)
    requires Lexed(ps) && ps != [] && !ps[0].Comma() && !Starred(exact, ps[0])
    ensures Lexed(ps[1..]) && (Clear(exact, ps) <==> Clear(exact, ps[1..]))
  {
    LexedFirst(ps);
  }

  lemma CommaParts(exact: bool, v: seq<Byte>, at: nat, ps: seq<Piece>)
    requires ps != [] && ps[0].Comma() && at < |v| && v[at] == COMMA
    ensures var d := AfterComma(v, at, at + 1);
            Cleans(exact, Cursor(v, at), at, ps) <==>
              Fits(exact, ps[0], [Scan(d.buf, d.pos)[at]]) && Cleans(exact, d, at + 1, ps[1..])
  {
    var d := Step(v, at);
    StepSame(v, at, at + 1);
    var r := Scan(d.buf, d.pos);
    assert r[at..at + 1] == [r[at]];
    Advance(exact, ps, at, r, Met(Cursor(v, at)), Met(d), [r[at]]);
  }

  lemma {:induction false} CommaIff(exact: bool, v: seq<Byte>, at: nat, ps: seq<Piece>)
    requires Lexed(ps) && RestIs(v, at, ps) && ps != [] && ps[0].Comma()
    ensures Cleans(exact, Cursor(v, at), at, ps) <==> Clear(exact, ps)
    decreases |ps|, 0
  {
    LexedFirst(ps);
    RestNext(v, at, ps);
    CommaParts(exact, v, at, ps);
    LookIff(exact, v, at, at + 1, ps[1..]);
    ClosesFound(ps[1..]);
  }

  lemma {:induction false} ClosesFound(ps: seq<Piece>)
    ensures ClosesNext(ps) ==> Peek(ps) == Closer
    decreases |ps|
  {
    if ps == [] || !Skipped(ps[0]) {
    } else {
      ClosesFound(ps[1..]);
    }
  }

  /** A lookahead over the pieces makes the comma `comma`, and it and the scanner after it treat the pieces
      well or not: as they should, if it finds nothing or a closing bracket that does follow the comma, and
      never if it passes a quote. */
  ghost predicate Looked(exact: bool, good: bool, comma: Byte, ps: seq<Piece>) {
    && (good ==> comma == if Peek(ps) == Closer then SPACE else COMMA)
    && (Peek(ps) == Other || ClosesNext(ps) ==> (good <==> Clear(exact, ps)))
    && (Peek(ps) == HiddenQuote ==> !good)
  }

  lemma SkipLooked(exact: bool, good: bool, comma: Byte, ps: seq<Piece>)
    requires Lexed(ps) && ps != [] && Skipped(ps[0]) && !Starred(exact, ps[0]) && Looked(exact, good, comma, ps[1..])
    ensures Looked(exact, good, comma, ps)
  {
    LexedFirst(ps);
    ClearMore(exact, ps);
  }

  lemma PairLooked(exact: bool, good: bool, comma: Byte, ps: seq<Piece>)
    requires Lexed(ps) && |ps| > 1 && ps[0] == Plain([SLASH]) && !ps[1].Quoted() && Looked(exact, good, comma, ps[2..])
    ensures Looked(exact, ps[1].Plain? && good, comma, ps)
  {
    LexedFirst(ps);
    LexedFirst(ps[1..]);
    var rest := ps[2..];
    assert ps[1..][0] == ps[1] && ps[1..][1..] == rest;
    ClosesFound(rest);
    assert ps[1].Plain? ==>
        (Clear(exact, ps) <==> Clear(exact, rest) && (ps[1] == Plain([COMMA]) ==> Peek(rest) == Other));
    assert ps[1].Trailing? ==> ClosesNext(rest);
    PlainOrTrailing(ps);
  }

  /** The lookahead behind the comma at `j`: what it makes of the comma, and when it and the scanner after
      it treat the other pieces as they should. */
  lemma {:induction false} LookIff(exact: bool, v: seq<Byte>, j: nat, at: nat, ps: seq<Piece>)
    requires Lexed(ps) && j < at && RestIs(v, at, ps) && v[j] == COMMA
    ensures var c := AfterComma(v, j, at);
            Looked(exact, Cleans(exact, c, at, ps), Scan(c.buf, c.pos)[j], ps)
    decreases |ps|, 3
  {
    if ps == [] || !(Skipped(ps[0]) || ps[0] == Plain([SLASH])) {
      LookStops(exact, v, j, at, ps);
    } else if Starred(exact, ps[0]) {
      LookStarred(exact, v, j, at, ps);
    } else if Skipped(ps[0]) {
      LookSkips(exact, v, j, at, ps);
    } else if |ps| == 1 {
      SlashLast(exact, v, j, at, ps);
    } else {
      LookPair(exact, v, j, at, ps);
    }
  }

  lemma {:induction false} LookSkips(exact: bool, v: seq<Byte>, j: nat, at: nat, ps: seq<Piece>)
    requires Lexed(ps) && j < at && RestIs(v, at, ps) && v[j] == COMMA
    requires ps != [] && Skipped(ps[0]) && !Starred(exact, ps[0])
    ensures var c := AfterComma(v, j, at);
            Looked(exact, Cleans(exact, c, at, ps), Scan(c.buf, c.pos)[j], ps)
    decreases |ps|, 2
  {
    var end := at + |ps[0].text|;
    ClearMore(exact, ps);
    var w := LookNext(exact, v, j, at, ps);
    LookIff(exact, w, j, end, ps[1..]);
    var d := AfterComma(w, j, end);
    SkipLooked(exact, Cleans(exact, d, end, ps[1..]), Scan(d.buf, d.pos)[j], ps);
  }

  lemma LookNext(exact: bool, v: seq<Byte>, j: nat, at: nat, ps: seq<Piece>) returns (w: seq<Byte>)
    requires Lexed(ps) && j < at && RestIs(v, at, ps)
    requires ps != [] && Skipped(ps[0]) && !Starred(exact, ps[0])
    ensures var end := at + |ps[0].text|;
            && RestIs(w, end, ps[1..]) && w[j] == v[j]
            && var c, d := AfterComma(v, j, at), AfterComma(w, j, end);
               && (Cleans(exact, c, at, ps) <==> Cleans(exact, d, end, ps[1..]))
               && Scan(c.buf, c.pos) == Scan(d.buf, d.pos)
  {
    w := BeyondPiece(exact, v, j, at, ps);
    LookParts(exact, ps, at, j, v, w);
    RestSame(v, w, at + |ps[0].text|, ps[1..]);
  }

  lemma BeyondPiece(exact: bool, v: seq<Byte>, j: nat, at: nat, ps: seq<Piece>) returns (w: seq<Byte>)
    requires Lexed(ps) && j < at && RestIs(v, at, ps)
    requires ps != [] && Skipped(ps[0]) && !Starred(exact, ps[0])
    ensures var end := at + |ps[0].text|;
            && end <= |v| && SameBut(v, w, at, end) && Fits(exact, ps[0], w[at..end])
            && SameAhead(AfterComma(v, j, at), AfterComma(w, j, end), end)
  {
    LexedFirst(ps);
    if ps[0].Comments() {
      CommentReady(exact, v, at, ps);
    }
    w := BeyondAt(exact, v, j, at, ps[0]);
  }

  lemma LookParts(exact: bool, ps: seq<Piece>, at: nat, j: nat, v: seq<Byte>, w: seq<Byte>)
    requires ps != [] && !ps[0].Quoted() && j < at && at + |ps[0].text| <= |v| == |w|
    requires var end := at + |ps[0].text|;
             Fits(exact, ps[0], w[at..end]) && SameAhead(AfterComma(v, j, at), AfterComma(w, j, end), end)
    ensures var end := at + |ps[0].text|;
            var c, d := AfterComma(v, j, at), AfterComma(w, j, end);
            && (Cleans(exact, c, at, ps) <==> Cleans(exact, d, end, ps[1..]))
            && Scan(c.buf, c.pos) == Scan(d.buf, d.pos)
  {
    var end := at + |ps[0].text|;
    LookKeeps(w, j, end, at, end);
    FromSame(exact, ps, at, AfterComma(v, j, at), AfterComma(w, j, end), w[at..end]);
  }

  lemma {:induction false} LookStops(exact: bool, v: seq<Byte>, j: nat, at: nat, ps: seq<Piece>)
    requires Lexed(ps) && j < at && RestIs(v, at, ps) && v[j] == COMMA
    requires ps == [] || !(Skipped(ps[0]) || ps[0] == Plain([SLASH]))
    ensures var c := AfterComma(v, j, at);
            Looked(exact, Cleans(exact, c, at, ps), Scan(c.buf, c.pos)[j], ps)
    decreases |ps|, 2
  {
    if ps != [] {
      RestNext(v, at, ps);
      LexedFirst(ps);
      assert ps[0].Plain? ==> ps[0].text == [ps[0].text[0]];
    }
    var w := if Peek(ps) == Closer then v[j := SPACE] else v;
    assert AfterComma(v, j, at) == Cursor(w, at);
    RestSame(v, w, at, ps);
    ScanBlanks(w, at);
    ScanIff(exact, w, at, ps);
  }

  lemma SlashLast(exact: bool, v: seq<Byte>, j: nat, at: nat, ps: seq<Piece>)
    requires j < at && RestIs(v, at, ps) && v[j] == COMMA && ps == [Plain([SLASH])]
    ensures var c := AfterComma(v, j, at);
            Looked(exact, Cleans(exact, c, at, ps), Scan(c.buf, c.pos)[j], ps)
  {
    RestNext(v, at, ps);
    assert ps[1..] == [] && |v| == at + 1;
    assert Comment(v, at + 1) == Cursor(v, at + 1);
    var c := Cursor(v, at + 2);
    assert AfterComma(v, j, at) == c && Scan(v, at + 2) == v;
    assert Cleaned(exact, ps[1..], v, at + 1) && AllMet(Met(c), ps[1..], at + 1);
    assert Cleaned(exact, ps, v, at) && AllMet(Met(c), ps, at);
    assert Peek(ps) == Other && !ClosesNext(ps);
    assert Clear(exact, ps[1..]);
  }

  lemma LookLeaves(v: seq<Byte>, j: nat, i: nat, k: nat)
    requires j < i < |v| && v[i] == SLASH && i <= k < |v| && Comment(v, i + 1).pos > k
    ensures var d := AfterComma(v, j, i); Scan(d.buf, d.pos)[k] == Comment(v, i + 1).buf[k]
  {
    var c := Comment(v, i + 1);
    AfterCommaBlanks(c.buf, j, c.pos + 1);
    var d := AfterComma(c.buf, j, c.pos + 1);
    ScanBlanks(d.buf, d.pos);
  }

  lemma LookStarred(exact: bool, v: seq<Byte>, j: nat, at: nat, ps: seq<Piece>)
    requires Lexed(ps) && j < at && RestIs(v, at, ps) && ps != [] && Starred(exact, ps[0])
    ensures !Cleans(exact, AfterComma(v, j, at), at, ps) && !Clear(exact, ps)
  {
    var k := StarredLeaves(exact, v, at, ps);
    LookLeaves(v, j, at, k);
    NotFirst(exact, AfterComma(v, j, at), at, ps, k);
  }

  /** A slash that opens no comment, and what follows it. */
  lemma {:induction false} LookPair(exact: bool, v: seq<Byte>, j: nat, at: nat, ps: seq<Piece>)
    requires Lexed(ps) && j < at && RestIs(v, at, ps) && v[j] == COMMA && |ps| > 1 && ps[0] == Plain([SLASH])
    ensures var c := AfterComma(v, j, at);
            Looked(exact, Cleans(exact, c, at, ps), Scan(c.buf, c.pos)[j], ps)
    decreases |ps|, 2
  {
    PairAt(v, at, ps);
    SlashSkipsOne(v, j, at);
    var c := AfterComma(v, j, at + 2);
    if ps[1].Quoted() {
      PairHides(exact, c, at, ps);
    } else {
      LookPairOn(exact, v, j, at, ps);
    }
  }

  lemma {:induction false} LookPairOn(exact: bool, v: seq<Byte>, j: nat, at: nat, ps: seq<Piece>)
    requires Lexed(ps) && j < at && RestIs(v, at, ps) && v[j] == COMMA
    requires |ps| > 1 && ps[0] == Plain([SLASH]) && !ps[1].Quoted() && at + 2 <= |v|
    ensures var c := AfterComma(v, j, at + 2);
            Looked(exact, Cleans(exact, c, at, ps), Scan(c.buf, c.pos)[j], ps)
    decreases |ps|, 1
  {
    var c := AfterComma(v, j, at + 2);
    PairNext(exact, v, j, at, ps);
    LookIff(exact, v, j, at + 2, ps[2..]);
    PairLooked(exact, Cleans(exact, c, at + 2, ps[2..]), Scan(c.buf, c.pos)[j], ps);
  }

  lemma PairNext(exact: bool, v: seq<Byte>, j: nat, at: nat, ps: seq<Piece>)
    requires Lexed(ps) && j < at && RestIs(v, at, ps) && |ps| > 1 && ps[0] == Plain([SLASH]) && !ps[1].Quoted()
    ensures RestIs(v, at + 2, ps[2..]) && Lexed(ps[2..])
    ensures var c := AfterComma(v, j, at + 2);
            Cleans(exact, c, at, ps) <==> ps[1].Plain? && Cleans(exact, c, at + 2, ps[2..])
  {
    PairAt(v, at, ps);
    PlainOrTrailing(ps);
    PairKeeps(v, j, at);
    var c := AfterComma(v, j, at + 2);
    AdvanceTwo(exact, ps, at, Scan(c.buf, c.pos), Met(c), v[at + 1]);
  }

  lemma PairHides(exact: bool, c: Cursor, at: nat, ps: seq<Piece>)
    requires |ps| > 1 && ps[0] == Plain([SLASH]) && ps[1].Quoted() && c.pos > at + 1
    ensures !Cleans(exact, c, at, ps)
  {
    assert at + 1 !in Met(c);
    assert ps[1..][0] == ps[1];
    assert !AllMet(Met(c), ps[1..], at + 1);
  }

  lemma PlainOrTrailing(ps: seq<Piece>)
    requires Lexed(ps) && |ps| > 1 && ps[0] == Plain([SLASH]) && !ps[1].Quoted()
    ensures (ps[1].Plain? || ps[1].Trailing?) && Lexed(ps[2..])
    ensures |ps[1].text| == 1 && forall exact :: Fits(exact, ps[1], ps[1].text) <==> ps[1].Plain?
  {
    LexedFirst(ps);
    LexedFirst(ps[1..]);
    assert Placed(ps[0], ps[1..]) && ps[1..][0] == ps[1] && ps[1..][1..] == ps[2..];
  }

  lemma PairAt(v: seq<Byte>, at: nat, ps: seq<Piece>)
    requires Lexed(ps) && |ps| > 1 && ps[0] == Plain([SLASH]) && RestIs(v, at, ps)
    ensures at + 1 < |v| && v[at] == SLASH && v[at + 1] == ps[1].First() && v[at + 1] != SLASH && v[at + 1] != STAR
    ensures |ps[1].text| == 1 ==> RestIs(v, at + 2, ps[2..])
  {
    LexedFirst(ps);
    LexedFirst(ps[1..]);
    assert ps[1..][0] == ps[1] && ps[1..][1..] == ps[2..];
    RestNext(v, at, ps);
    RestNext(v, at + 1, ps[1..]);
    assert Placed(ps[0], ps[1..]);
  }

  /** Behind a comma, a slash that opens no comment takes the next byte with it. */
  lemma SlashSkipsOne(v: seq<Byte>, j: nat, i: nat)
    requires j < i && i + 1 < |v| && v[i] == SLASH && v[i + 1] != SLASH && v[i + 1] != STAR
    ensures AfterComma(v, j, i) == AfterComma(v, j, i + 2)
  {
    assert Comment(v, i + 1) == Cursor(v, i + 1);
  }

  lemma PairKeeps(v: seq<Byte>, j: nat, at: nat)
    requires j < at && at + 2 <= |v|
    ensures var c := AfterComma(v, j, at + 2);
            var r := Scan(c.buf, c.pos);
            r[at..at + 1] == [v[at]] && r[at + 1..at + 2] == [v[at + 1]]
  {
    LookKeeps(v, j, at + 2, at, at + 1);
    LookKeeps(v, j, at + 2, at + 1, at + 2);
    assert v[at..at + 1] == [v[at]] && v[at + 1..at + 2] == [v[at + 1]];
  }

  lemma AdvanceTwo(exact: bool, ps: seq<Piece>, at: nat, r: seq<Byte>, m: set<nat>, x: Byte)
    requires |ps| > 1 && ps[0] == Plain([SLASH]) && !ps[1].Quoted() && |ps[1].text| == 1 && ps[1].First() == x
    requires at + 2 <= |r| && r[at..at + 1] == [SLASH] && r[at + 1..at + 2] == [x]
    requires Fits(exact, ps[1], ps[1].text) <==> ps[1].Plain?
    ensures Good(exact, ps, at, r, m) <==> ps[1].Plain? && Good(exact, ps[2..], at + 2, r, m)
  {
    assert ps[1..][0] == ps[1] && ps[1..][1..] == ps[2..];
    assert ps[1].text == [x];
    Advance(exact, ps, at, r, m, m, [SLASH]);
    Advance(exact, ps[1..], at + 1, r, m, m, [x]);
  }

  /** The exact condition. For every text in pieces: the cleaner meets every string literal, turns comments
      and trailing commas into blanks, and leaves everything else as it is, if and only if every star in a
      block comment is followed by a blank, and no comma that is not trailing is followed, after white
      space, comments and slashes that take a byte with them, by a closing bracket or by a slash with a
      quote after it. */
  lemma CleansIff(exact: bool, ps: seq<Piece>)
    requires Lexed(ps)
    ensures Good(exact, ps, 0, Scan(Render(ps), 0), Met(Cursor(Render(ps), 0))) <==> Clear(exact, ps)
  {
    assert Render(ps)[0..] == Render(ps);
    RenderRest(Render(ps), 0, ps);
    ScanIff(exact, Render(ps), 0, ps);
  }

  // ---------------------------------------------------------------------------------------------
  // Every byte string is a text
  // ---------------------------------------------------------------------------------------------

  /** Where the first quote that is not escaped stands, or the end. */
  function QuoteAt(t: seq<Byte>): (n: nat)
    ensures n <= |t|
  {
    if t == [] || t[0] == QUOTE then 0
    else if t[0] == BACKSLASH then (if |t| == 1 then 1 else 2 + QuoteAt(t[2..]))
    else 1 + QuoteAt(t[1..])
  }

  function BreakAt(t: seq<Byte>): (n: nat)
    ensures n <= |t| && NoBreak(t[..n]) && (n < |t| ==> IsNL(t[n]))
  {
    if t == [] || IsNL(t[0]) then 0 else 1 + BreakAt(t[1..])
  }

  /** Where the first star with a slash after it stands, or the end. */
  function CloseAt(t: seq<Byte>): (n: nat)
    ensures n <= |t| && NoClose(t[..n]) && (n < |t| ==> n + 1 < |t| && t[n] == STAR && t[n + 1] == SLASH)
    ensures n > 0 ==> !(t[0] == STAR && |t| > 1 && t[1] == SLASH)
  {
    if t == [] || (t[0] == STAR && |t| > 1 && t[1] == SLASH) then 0
    else
      var m := CloseAt(t[1..]);
      assert t[..m + 1] == [t[0]] + t[1..][..m];
      m + 1
  }

  /** The pieces of a byte string. */
  function Lex(t: seq<Byte>): seq<Piece>
    decreases |t|
  {
    if t == [] then []
    else if t[0] == QUOTE then
      var n := 1 + QuoteAt(t[1..]);
      if n < |t| then [Literal(t[..n + 1])] + Lex(t[n + 1..]) else [Unclosed(t)]
    else if |t| > 1 && t[0] == t[1] == SLASH then
      var n := 2 + BreakAt(t[2..]);
      [Line(t[..n])] + Lex(t[n..])
    else if |t| > 1 && t[0] == SLASH && t[1] == STAR then
      var n := 2 + CloseAt(t[2..]);
      if n < |t| then [Block(t[..n + 2])] + Lex(t[n + 2..]) else [Hanging(t)]
    else
      var more := Lex(t[1..]);
      [if t[0] == COMMA && ClosesNext(more) then Trailing([COMMA]) else Plain([t[0]])] + more
  }

  lemma {:induction false} QuoteAtIs(t: seq<Byte>)
    ensures var n := QuoteAt(t);
            if n < |t| then t[n] == QUOTE && StringBody(t[..n]) else OpenBody(t)
    decreases |t|
  {
    var n := QuoteAt(t);
    if t == [] || t[0] == QUOTE {
    } else if t[0] == BACKSLASH {
      if |t| > 1 {
        QuoteAtIs(t[2..]);
        assert t[..n][2..] == t[2..][..n - 2];
      }
    } else {
      QuoteAtIs(t[1..]);
      assert t[..n][1..] == t[1..][..n - 1];
    }
  }

  lemma Joined(p: Piece, more: seq<Piece>)
    requires p.Shaped() && Placed(p, more) && Lexed(more)
    ensures Lexed([p] + more) && Render([p] + more) == p.text + Render(more)
  {
    assert ([p] + more)[0] == p && ([p] + more)[1..] == more;
    assert forall q :: q in [p] + more <==> q == p || q in more;
  }

  lemma Alone(p: Piece)
    requires p.Shaped() && Placed(p, [])
    ensures Lexed([p]) && Render([p]) == p.text
  {
    Joined(p, []);
    assert [p] + [] == [p];
  }

  /** The pieces of a byte string are those of the text that it is. */
  lemma {:induction false} LexIs(t: seq<Byte>)
    ensures Lexed(Lex(t)) && Render(Lex(t)) == t
    decreases |t|, 1
  {
    if t == [] {
    } else if t[0] == QUOTE {
      LexLiteral(t);
    } else if |t| > 1 && t[0] == t[1] == SLASH {
      LexLine(t);
    } else if |t| > 1 && t[0] == SLASH && t[1] == STAR {
      LexBlock(t);
    } else {
      LexPlain(t);
    }
  }

  lemma {:induction false} LexPlain(t: seq<Byte>)
    requires t != [] && t[0] != QUOTE && !(t[0] == SLASH && |t| > 1 && (t[1] == SLASH || t[1] == STAR))
    ensures Lexed(Lex(t)) && Render(Lex(t)) == t
    decreases |t|, 0
  {
    var more := Lex(t[1..]);
    var p := if t[0] == COMMA && ClosesNext(more) then Trailing([COMMA]) else Plain([t[0]]);
    LexIs(t[1..]);
    if more != [] {
      FirstByte(more);
      assert t[1..][0] == t[1];
    }
    Joined(p, more);
    assert t == [t[0]] + t[1..];
  }

  lemma FirstByte(ps: seq<Piece>)
    requires Lexed(ps) && ps != []
    ensures Render(ps) != [] && Render(ps)[0] == ps[0].First()
  {
    LexedFirst(ps);
  }

  lemma {:induction false} LexLiteral(t: seq<Byte>)
    requires t != [] && t[0] == QUOTE
    ensures Lexed(Lex(t)) && Render(Lex(t)) == t
    decreases |t|, 0
  {
    var u := t[1..];
    var n := QuoteAt(u);
    QuoteAtIs(u);
    if n < |u| {
      LiteralShape(t, n);
      LexIs(t[n + 2..]);
      Joined(Literal(t[..n + 2]), Lex(t[n + 2..]));
    } else {
      assert Unclosed(t).Body() == u && t == [QUOTE] + u;
      Alone(Unclosed(t));
    }
  }

  lemma LiteralShape(t: seq<Byte>, n: nat)
    requires n + 1 < |t| && t[0] == QUOTE && t[1..][n] == QUOTE && StringBody(t[1..][..n])
    ensures Literal(t[..n + 2]).Shaped() && t == t[..n + 2] + t[n + 2..]
  {
    var p := Literal(t[..n + 2]);
    assert p.Body() == t[1..][..n] && p.text == [QUOTE] + t[1..][..n] + [QUOTE];
  }

  lemma {:induction false} LexLine(t: seq<Byte>)
    requires |t| > 1 && t[0] == t[1] == SLASH
    ensures Lexed(Lex(t)) && Render(Lex(t)) == t
    decreases |t|, 0
  {
    var n := 2 + BreakAt(t[2..]);
    LineShape(t, n);
    LexIs(t[n..]);
    BreakPlain(t[n..]);
    Joined(Line(t[..n]), Lex(t[n..]));
  }

  lemma LineShape(t: seq<Byte>, n: nat)
    requires 2 <= n <= |t| && t[0] == t[1] == SLASH && NoBreak(t[2..][..n - 2]) && (n < |t| ==> IsNL(t[2..][n - 2]))
    ensures Line(t[..n]).Shaped() && t == t[..n] + t[n..] && (t[n..] != [] ==> IsNL(t[n..][0]))
  {
    var p := Line(t[..n]);
    assert p.Body() == t[..n][2..];
    assert t[..n][2..] == t[2..][..n - 2];
    assert t[..n] == [SLASH, SLASH] + t[..n][2..];
  }

  lemma BreakPlain(t: seq<Byte>)
    ensures t != [] && IsNL(t[0]) ==> Lex(t) != [] && Lex(t)[0] == Plain([t[0]])
    ensures t == [] ==> Lex(t) == []
  {
  }

  lemma {:induction false} LexBlock(t: seq<Byte>)
    requires |t| > 1 && t[0] == SLASH && t[1] == STAR
    ensures Lexed(Lex(t)) && Render(Lex(t)) == t
    decreases |t|, 0
  {
    var u := t[2..];
    var n := CloseAt(u);
    if n < |u| {
      BlockShape(t, n);
      LexIs(t[n + 4..]);
      Joined(Block(t[..n + 4]), Lex(t[n + 4..]));
    } else {
      assert u[..n] == u && Hanging(t).Body() == u && t == [SLASH, STAR] + u;
      Alone(Hanging(t));
    }
  }

  lemma BlockShape(t: seq<Byte>, n: nat)
    requires n + 3 < |t| && t[0] == SLASH && t[1] == STAR
    requires t[2..][n] == STAR && t[2..][n + 1] == SLASH && NoClose(t[2..][..n])
    ensures Block(t[..n + 4]).Shaped() && t == t[..n + 4] + t[n + 4..]
  {
    var p := Block(t[..n + 4]);
    assert p.Body() == t[2..][..n] && p.text == [SLASH, STAR] + t[2..][..n] + [STAR, SLASH];
  }

  lemma {:induction false} QuoteAtFirst(b: seq<Byte>, rest: seq<Byte>)
    requires StringBody(b)
    ensures QuoteAt(b + [QUOTE] + rest) == |b|
    decreases |b|
  {
    var t := b + [QUOTE] + rest;
    if b == [] {
    } else if b[0] == BACKSLASH {
      assert t[2..] == b[2..] + [QUOTE] + rest;
      QuoteAtFirst(b[2..], rest);
    } else {
      assert t[1..] == b[1..] + [QUOTE] + rest;
      QuoteAtFirst(b[1..], rest);
    }
  }

  lemma {:induction false} QuoteAtNone(b: seq<Byte>)
    requires OpenBody(b)
    ensures QuoteAt(b) == |b|
    decreases |b|
  {
    if b == [] || b == [BACKSLASH] {
    } else if b[0] == BACKSLASH {
      QuoteAtNone(b[2..]);
    } else {
      QuoteAtNone(b[1..]);
    }
  }

  lemma {:induction false} BreakAtFirst(b: seq<Byte>, rest: seq<Byte>)
    requires NoBreak(b) && (rest != [] ==> IsNL(rest[0]))
    ensures BreakAt(b + rest) == |b|
    decreases |b|
  {
    if b == [] {
      assert b + rest == rest;
    } else {
      assert (b + rest)[1..] == b[1..] + rest;
      BreakAtFirst(b[1..], rest);
    }
  }

  lemma {:induction false} CloseAtFirst(b: seq<Byte>, rest: seq<Byte>)
    requires NoClose(b)
    ensures CloseAt(b + [STAR, SLASH] + rest) == |b|
    decreases |b|
  {
    var t := b + [STAR, SLASH] + rest;
    if b == [] {
      assert t[0] == STAR && t[1] == SLASH;
    } else {
      assert t[0] == b[0] && t[1] == (if |b| == 1 then STAR else b[1]);
      assert t[1..] == b[1..] + [STAR, SLASH] + rest;
      CloseAtFirst(b[1..], rest);
    }
  }

  lemma {:induction false} CloseAtNone(b: seq<Byte>)
    requires NoClose(b)
    ensures CloseAt(b) == |b|
    decreases |b|
  {
    if b == [] {
    } else {
      CloseAtNone(b[1..]);
    }
  }

  lemma LexedLiteral(p: Piece, t: seq<Byte>)
    requires p.Shaped() && p.Literal?
    ensures Lex(p.text + t) == [p] + Lex(t)
  {
    var u := p.text + t;
    assert u[1..] == p.Body() + [QUOTE] + t;
    QuoteAtFirst(p.Body(), t);
    assert u[..|p.text|] == p.text && u[|p.text|..] == t;
  }

  lemma LexedLine(p: Piece, t: seq<Byte>)
    requires p.Shaped() && p.Line? && (t != [] ==> IsNL(t[0]))
    ensures Lex(p.text + t) == [p] + Lex(t)
  {
    var u := p.text + t;
    assert u[2..] == p.Body() + t;
    BreakAtFirst(p.Body(), t);
    assert u[..|p.text|] == p.text && u[|p.text|..] == t;
  }

  lemma LexedBlock(p: Piece, t: seq<Byte>)
    requires p.Shaped() && p.Block?
    ensures Lex(p.text + t) == [p] + Lex(t)
  {
    var u := p.text + t;
    assert u[2..] == p.Body() + [STAR, SLASH] + t;
    CloseAtFirst(p.Body(), t);
    assert u[..|p.text|] == p.text && u[|p.text|..] == t;
  }

  lemma LexedLast(p: Piece)
    requires p.Shaped() && (p.Unclosed? || p.Hanging?)
    ensures Lex(p.text) == [p]
  {
    if p.Unclosed? {
      assert p.text[1..] == p.Body();
      QuoteAtNone(p.Body());
    } else {
      assert p.text[2..] == p.Body();
      CloseAtNone(p.Body());
    }
  }

  lemma LexedByte(p: Piece, more: seq<Piece>, t: seq<Byte>)
    requires p.Shaped() && (p.Plain? || p.Trailing?) && Placed(p, more) && Lex(t) == more
    requires t != [] ==> more != [] && t[0] == more[0].First()
    ensures Lex(p.text + t) == [p] + more
  {
    var u := p.text + t;
    assert u[1..] == t && u[0] == p.text[0];
    assert |u| > 1 ==> u[1] == t[0];
    assert p.text == [u[0]];
  }

  /** The first piece is read first, when the others are what is read next. */
  lemma LexedPiece(p: Piece, more: seq<Piece>, t: seq<Byte>)
    requires p.Shaped() && Placed(p, more) && Lex(t) == more
    requires if more == [] then t == [] else t != [] && t[0] == more[0].First()
    ensures Lex(p.text + t) == [p] + more
  {
    match p
    case Literal(_) => LexedLiteral(p, t);
    case Line(_) => LexedLine(p, t);
    case Block(_) => LexedBlock(p, t);
    case Unclosed(_) | Hanging(_) =>
      LexedLast(p);
      assert p.text + t == p.text && [p] + more == [p];
    case Plain(_) | Trailing(_) => LexedByte(p, more, t);
  }

  /** And a text has no other reading: these are its pieces. */
  lemma {:induction false} LexIsOnly(ps: seq<Piece>)
    requires Lexed(ps)
    ensures ps == Lex(Render(ps))
    decreases |ps|
  {
    if ps == [] {
    } else {
      LexedFirst(ps);
      LexIsOnly(ps[1..]);
      if ps[1..] != [] {
        FirstByte(ps[1..]);
      }
      LexedPiece(ps[0], ps[1..], Render(ps[1..]));
      assert ps == [ps[0]] + ps[1..];
    }
  }

  /** So the condition speaks about every byte string, whatever is in it. */
  lemma EveryTextCleanedIff(exact: bool, t: seq<Byte>)
    ensures Good(exact, Lex(t), 0, Scan(t, 0), Met(Cursor(t, 0))) <==> Clear(exact, Lex(t))
  {
    LexIs(t);
    CleansIff(exact, Lex(t));
  }

  // ---------------------------------------------------------------------------------------------
  // What the JSON decoder sees
  // ---------------------------------------------------------------------------------------------

  /** Where a reader of JSON stands: outside strings, in one, or just after a backslash in one. */
  datatype Mode = Out | In | Esc

  function Next(m: Mode, c: Byte): Mode {
    match m
    case Out => if c == QUOTE then In else Out
    case In => if c == QUOTE then Out else if c == BACKSLASH then Esc else In
    case Esc => In
  }

  /** The text without the white space outside its string literals. */
  function Squeeze(m: Mode, t: seq<Byte>): (r: seq<Byte>)
    decreases |t|
  {
    if t == [] then []
    else (if m == Out && IsWS(t[0]) then [] else [t[0]]) + Squeeze(Next(m, t[0]), t[1..])
  }

  lemma SqueezeKeeps(m: Mode, c: Byte, t: seq<Byte>)
    requires m != Out || !IsWS(c)
    ensures Squeeze(m, [c] + t) == [c] + Squeeze(Next(m, c), t)
  {
    assert ([c] + t)[1..] == t;
  }

  lemma {:induction false} SqueezeString(body: seq<Byte>, rest: seq<Byte>)
    requires StringBody(body)
    ensures Squeeze(In, body + ([QUOTE] + rest)) == body + ([QUOTE] + Squeeze(Out, rest))
    decreases |body|
  {
    if body == [] {
      SqueezeKeeps(In, QUOTE, rest);
      assert [] + ([QUOTE] + rest) == [QUOTE] + rest;
      assert [] + ([QUOTE] + Squeeze(Out, rest)) == [QUOTE] + Squeeze(Out, rest);
    } else if body[0] == BACKSLASH {
      var more := body[2..] + ([QUOTE] + rest);
      SqueezeString(body[2..], rest);
      SqueezeKeeps(Esc, body[1], more);
      SqueezeKeeps(In, BACKSLASH, [body[1]] + more);
      SplitFront(body, 2, [QUOTE] + rest);
      SplitFront(body, 2, [QUOTE] + Squeeze(Out, rest));
    } else {
      SqueezeString(body[1..], rest);
      SqueezeKeeps(In, body[0], body[1..] + ([QUOTE] + rest));
      SplitFront(body, 1, [QUOTE] + rest);
      SplitFront(body, 1, [QUOTE] + Squeeze(Out, rest));
    }
  }

  lemma SplitFront(body: seq<Byte>, n: nat, t: seq<Byte>)
    requires 1 <= n <= 2 && n <= |body|
    ensures n == 1 ==> body + t == [body[0]] + (body[1..] + t)
    ensures n == 2 ==> body + t == [body[0]] + ([body[1]] + (body[2..] + t))
  {
  }

  lemma SqueezeText(body: seq<Byte>, a: seq<Byte>)
    requires StringBody(body)
    ensures var t := [QUOTE] + body + [QUOTE]; Squeeze(Out, t + a) == t + Squeeze(Out, a)
  {
    SqueezeString(body, a);
    SqueezeKeeps(Out, QUOTE, body + ([QUOTE] + a));
    QuoteAssoc(body, a);
    QuoteAssoc(body, Squeeze(Out, a));
  }

  lemma QuoteAssoc(body: seq<Byte>, a: seq<Byte>)
    ensures [QUOTE] + body + [QUOTE] + a == [QUOTE] + (body + ([QUOTE] + a))
  {
  }

  lemma {:induction false} SqueezeBlanks(l: seq<Byte>, rest: seq<Byte>)
    requires AllBlank(false, l)
    ensures Squeeze(Out, l + rest) == Squeeze(Out, rest)
    decreases |l|
  {
    if l == [] {
      assert l + rest == rest;
    } else {
      assert (l + rest)[1..] == l[1..] + rest;
      SqueezeBlanks(l[1..], rest);
    }
  }

  lemma SqueezePiece(p: Piece, l: seq<Byte>, a: seq<Byte>, b: seq<Byte>)
    requires Fits(false, p, l) && Squeeze(Out, a) == Squeeze(Out, b)
    requires p.Shaped() && (p.Unclosed? ==> a == b == [])
    ensures Squeeze(Out, l + a) == Squeeze(Out, p.Original() + b)
  {
    match p
    case Plain(_) =>
      assert p.text == [p.text[0]];
      assert ([p.text[0]] + a)[1..] == a && ([p.text[0]] + b)[1..] == b;
    case Literal(_) =>
      SqueezeText(p.Body(), a);
      SqueezeText(p.Body(), b);
    case Unclosed(_) =>
      assert l + a == l + b;
    case _ =>
      SqueezeBlanks(l, a);
      assert [] + b == b;
  }

  /** Blanking the decorations instead of leaving them out changes nothing but white space. */
  lemma {:induction false} SqueezeCleaned(ps: seq<Piece>, r: seq<Byte>, at: nat)
    requires Lexed(ps) && Cleaned(false, ps, r, at) && at <= |r|
    ensures Squeeze(Out, r[at..]) == Squeeze(Out, Original(ps))
    decreases |ps|
  {
    if ps != [] {
      var end := at + |ps[0].text|;
      LexedFirst(ps);
      CleanedEnds(ps[1..], r, end);
      SqueezeCleaned(ps[1..], r, end);
      SqueezeParts(ps[0], r, at, end, Original(ps[1..]), ps[1..] == []);
    } else {
      assert r[at..] == [];
    }
  }

  lemma SqueezeParts(p: Piece, r: seq<Byte>, at: nat, end: nat, b: seq<Byte>, last: bool)
    requires at <= end <= |r| && Fits(false, p, r[at..end]) && Squeeze(Out, r[end..]) == Squeeze(Out, b)
    requires p.Shaped() && (p.Unclosed? ==> last) && (last ==> r[end..] == b == [])
    ensures Squeeze(Out, r[at..]) == Squeeze(Out, p.Original() + b)
  {
    SqueezePiece(p, r[at..end], r[end..], b);
    SplitAt(r, at, end);
  }

  lemma SplitAt(r: seq<Byte>, at: nat, end: nat)
    requires at <= end <= |r|
    ensures r[at..] == r[at..end] + r[end..]
  {
  }

  lemma CleanedEnds(ps: seq<Piece>, r: seq<Byte>, at: nat)
    requires Cleaned(false, ps, r, at)
    ensures at <= |r| && (ps == [] ==> r[at..] == [])
  {
  }

  /** Decorate a text outside its strings with line comments, block comments and trailing commas, at
      any places; if it is clear, cleaning the result gives the undecorated text up to white space
      outside strings. */
  lemma DecorationsErased(ps: seq<Piece>)
    requires Lexed(ps) && Clear(false, ps)
    ensures Squeeze(Out, Scan(Render(ps), 0)) == Squeeze(Out, Original(ps))
  {
    CleansIff(false, ps);
    SqueezeCleaned(ps, Scan(Render(ps), 0), 0);
    assert Scan(Render(ps), 0)[0..] == Scan(Render(ps), 0);
  }

  lemma SplitSame(a: seq<Byte>, b: seq<Byte>, c: seq<Byte>, d: seq<Byte>)
    requires |a| == |c|
    ensures a + b == c + d <==> a == c && b == d
  {
    assert (a + b)[..|a|] == a && (a + b)[|a|..] == b;
    assert (c + d)[..|a|] == c && (c + d)[|a|..] == d;
  }

  lemma PartsSame(r: seq<Byte>, at: nat, end: nat, b: seq<Byte>, c: seq<Byte>)
    requires at <= end <= |r| && |b| == end - at
    ensures r[at..] == b + c <==> r[at..end] == b && r[end..] == c
  {
    SplitAt(r, at, end);
    SplitSame(r[at..end], r[end..], b, c);
  }

  lemma {:induction false} CleanedIsErased(ps: seq<Piece>, r: seq<Byte>, at: nat)
    requires at <= |r| && Cleaned(true, ps, r, at)
    ensures r[at..] == Erase(ps)
    decreases |ps|
  {
    if ps != [] {
      var end := at + |ps[0].text|;
      CleanedIsErased(ps[1..], r, end);
      FitsExactly(ps[0], r[at..end]);
      SplitAt(r, at, end);
    } else {
      assert r[at..] == [];
    }
  }

  lemma {:induction false} ErasedIsCleaned(ps: seq<Piece>, pre: seq<Byte>)
    ensures Cleaned(true, ps, pre + Erase(ps), |pre|)
    decreases |ps|
  {
    if ps == [] {
    } else {
      var e, more := ps[0].Erase(), Erase(ps[1..]);
      ErasedIsCleaned(ps[1..], pre + e);
      Assoc(pre, e, more);
      Thirds(pre, e, more);
      FitsExactly(ps[0], e);
    }
  }

  lemma FitsExactly(p: Piece, l: seq<Byte>)
    requires |l| == |p.text|
    ensures Fits(true, p, l) <==> l == p.Erase()
  {
  }

  /** With a space after every star the decorations become spaces exactly: the result is the text with
      each of them blanked out. */
  lemma ScanErases(ps: seq<Piece>)
    requires Lexed(ps)
    ensures Clear(true, ps) ==> Scan(Render(ps), 0) == Erase(ps)
    ensures Scan(Render(ps), 0) == Erase(ps) && AllMet(Met(Cursor(Render(ps), 0)), ps, 0) <==> Clear(true, ps)
  {
    var r := Scan(Render(ps), 0);
    CleansIff(true, ps);
    ErasedIsCleaned(ps, []);
    assert [] + Erase(ps) == Erase(ps);
    if Cleaned(true, ps, r, 0) {
      CleanedIsErased(ps, r, 0);
      assert r[0..] == r;
    }
  }

  lemma FitsSame(exact: bool, p: Piece, l: seq<Byte>)
    requires p.Shaped() && Fits(exact, p, l) && |l| == |p.text|
    ensures l == p.text <==> !p.Decorates()
  {
    assert p.Decorates() ==> Blank(exact, l[0]) && !IsWS(p.First());
  }

  lemma {:induction false} CleanedSame(exact: bool, ps: seq<Piece>, r: seq<Byte>, at: nat)
    requires Lexed(ps) && at <= |r| && Cleaned(exact, ps, r, at)
    ensures r[at..] == Render(ps) <==> forall p :: p in ps ==> !p.Decorates()
    decreases |ps|
  {
    if ps != [] {
      var p, end := ps[0], at + |ps[0].text|;
      LexedFirst(ps);
      CleanedSame(exact, ps[1..], r, end);
      FitsSame(exact, p, r[at..end]);
      PartsSame(r, at, end, p.text, Render(ps[1..]));
      assert forall q :: q in ps <==> q == p || q in ps[1..];
    } else {
      assert r[at..] == [];
    }
  }

  /** Cleaning returns a clear text unchanged exactly when it holds no comment and no trailing comma. */
  lemma UnchangedIffUndecorated(t: seq<Byte>)
    requires Clear(false, Lex(t))
    ensures Scan(t, 0) == t <==> forall p :: p in Lex(t) ==> !p.Decorates()
  {
    LexIs(t);
    CleansIff(false, Lex(t));
    CleanedSame(false, Lex(t), Scan(t, 0), 0);
    assert Scan(t, 0)[0..] == Scan(t, 0);
  }

  /** In a text without comments nothing but a slash behind a comma can mislead the scanner: otherwise it
      blanks the trailing commas and leaves every other byte. */
  lemma OnlyTrailingCommasErased(t: seq<Byte>)
    requires forall p :: p in Lex(t) ==> !p.Comments()
    ensures Scan(t, 0) == Erase(Lex(t)) && AllMet(Met(Cursor(t, 0)), Lex(t), 0)
            <==> forall k :: 0 <= k < |Lex(t)| && Lex(t)[k] == Plain([COMMA]) ==> Peek(Lex(t)[k + 1..]) == Other
  {
    LexIs(t);
    ScanErases(Lex(t));
    ClearCommas(true, Lex(t));
  }

  lemma {:induction false} ClearCommas(exact: bool, ps: seq<Piece>)
    requires forall p :: p in ps ==> !p.Comments()
    ensures Clear(exact, ps) <==> forall k :: 0 <= k < |ps| && ps[k] == Plain([COMMA]) ==> Peek(ps[k + 1..]) == Other
    decreases |ps|
  {
    if ps == [] {
    } else {
      var rest := ps[1..];
      assert ps[0] in ps && forall p :: p in rest ==> p in ps;
      ClearCommas(exact, rest);
      assert forall k :: 0 <= k < |rest| ==> rest[k] == ps[k + 1] && rest[k + 1..] == ps[k + 2..];
      if forall k :: 0 <= k < |rest| && rest[k] == Plain([COMMA]) ==> Peek(rest[k + 1..]) == Other {
        forall k | 1 <= k < |ps| && ps[k] == Plain([COMMA])
          ensures Peek(ps[k + 1..]) == Other
        {
          assert rest[k - 1] == ps[k];
        }
      }
    }
  }

  // ---------------------------------------------------------------------------------------------
  // Where the scanner falls short
  // ---------------------------------------------------------------------------------------------

  predicate AllWS(l: seq<Byte>) {
    forall k :: 0 <= k < |l| ==> IsWS(l[k])
  }

  lemma {:induction false} AfterCommaWhite(v: seq<Byte>, j: nat, i: nat, n: nat)
    requires j < i && i + n <= |v| && AllWS(v[i..i + n])
    ensures AfterComma(v, j, i) == AfterComma(v, j, i + n)
    decreases n
  {
    if n == 0 {
    } else {
      assert v[i..i + n][0] == v[i];
      assert v[i..i + n][1..] == v[i + 1..i + n];
      AfterCommaWhite(v, j, i + 1, n - 1);
    }
  }

  /** Wherever a comma that the scanner meets is followed, white space aside, by a slash and a quote, the
      quote is passed: the scanner never stands on it, and does not know that a string literal begins. */
  lemma SlashHidesQuote(pre: seq<Byte>, white: seq<Byte>, rest: seq<Byte>)
    requires AllWS(white)
    ensures !Meets(pre + [COMMA] + white + [SLASH, QUOTE] + rest, |pre|, |pre| + |white| + 2)
  {
    var v := pre + [COMMA] + white + [SLASH, QUOTE] + rest;
    var i := |pre| + 1 + |white|;
    assert v[|pre|] == COMMA && v[i] == SLASH && v[i + 1] == QUOTE && v[|pre| + 1..i] == white;
    AfterCommaWhite(v, |pre|, |pre| + 1, |white|);
    SlashSkipsOne(v, |pre|, i);
  }

  /** And wherever it is followed, white space aside, by a slash, another byte and a closing bracket, the
      comma is blanked, although it is no trailing comma. */
  lemma SlashBlanksComma(pre: seq<Byte>, white: seq<Byte>, x: Byte, more: seq<Byte>, closer: Byte, rest: seq<Byte>)
    requires AllWS(white) && AllWS(more) && IsCloser(closer) && x != SLASH && x != STAR
    ensures Scan(pre + [COMMA] + white + [SLASH, x] + more + [closer] + rest, |pre|)[|pre|] == SPACE
  {
    var v := pre + [COMMA] + white + [SLASH, x] + more + [closer] + rest;
    var i := |pre| + 1 + |white|;
    assert v[|pre|] == COMMA && v[i] == SLASH && v[i + 1] == x && v[i + 2 + |more|] == closer;
    assert v[|pre| + 1..i] == white && v[i + 2..i + 2 + |more|] == more;
    BlanksComma(v, |pre|, i, i + 2 + |more|);
  }

  lemma BlanksComma(v: seq<Byte>, j: nat, i: nat, k: nat)
    requires j < i < i + 2 <= k < |v| && v[j] == COMMA && v[i] == SLASH && IsCloser(v[k])
    requires v[i + 1] != SLASH && v[i + 1] != STAR && AllWS(v[j + 1..i]) && AllWS(v[i + 2..k])
    ensures Scan(v, j)[j] == SPACE
  {
    AfterCommaWhite(v, j, j + 1, i - j - 1);
    SlashSkipsOne(v, j, i);
    AfterCommaWhite(v, j, i + 2, k - i - 2);
    var c := Cursor(v[j := SPACE], k);
    StepOnComma(v, j, c);
    ScanBlanks(c.buf, c.pos);
  }

  lemma StepOnComma(v: seq<Byte>, i: nat, c: Cursor)
    requires i < |v| && v[i] == COMMA && c == AfterComma(v, i, i + 1)
    ensures Scan(v, i) == Scan(c.buf, c.pos)
  {
  }

  lemma StepOnSlash(v: seq<Byte>, i: nat, c: Cursor)
    requires i < |v| && v[i] == SLASH && c == Comment(v, i + 1)
    ensures Scan(v, i) == Scan(c.buf, c.pos)
  {
  }

  /** A block comment, whatever comes after it, turns blank exactly when every star in its body has a blank
      after it: into spaces if these are spaces, into white space if they are any. */
  lemma BlockErasedIffStarsSpaced(exact: bool, body: seq<Byte>, rest: seq<Byte>)
    requires NoClose(body)
    ensures var v := [SLASH, STAR] + body + [STAR, SLASH] + rest;
            AllBlank(exact, Scan(v, 0)[..|body| + 4]) <==> StarsSpaced(exact, body, false)
  {
    var p := Block([SLASH, STAR] + body + [STAR, SLASH]);
    assert p.Body() == body;
    var v := [] + p.text + rest;
    assert v == p.text + rest && v[0] == SLASH;
    var c := Comment(v, 1);
    StepOnSlash(v, 0, c);
    if StarsSpaced(exact, body, false) {
      var l := CommentErases(exact, [], p, rest);
      assert [] + l + rest == l + rest;
      BlankScan(exact, c, l, rest);
    } else {
      var k := CommentLeaves(exact, [], p, rest);
      LeavesScan(exact, c, k, |body| + 4);
    }
  }

  lemma LeavesScan(exact: bool, c: Cursor, k: nat, n: nat)
    requires k < n <= |c.buf| && k < c.pos && !Blank(exact, c.buf[k])
    ensures !AllBlank(exact, Scan(c.buf, c.pos)[..n])
  {
    ScanBlanks(c.buf, c.pos);
    assert Scan(c.buf, c.pos)[..n][k] == c.buf[k];
  }

  lemma BlankScan(exact: bool, c: Cursor, l: seq<Byte>, rest: seq<Byte>)
    requires c.buf == l + rest && AllBlank(exact, l)
    ensures AllBlank(exact, Scan(c.buf, c.pos)[..|l|])
  {
    ScanBlanks(c.buf, c.pos);
    assert forall k :: 0 <= k < |l| ==> c.buf[k] == l[k];
  }

  /** A byte after a star survives: the comment with body `a*b` keeps its `b`. */
  lemma StarLeavesAByte()
    ensures Scan([SLASH, STAR, 97, STAR, 98, STAR, SLASH], 0)[4] == 98
  {
    var v := [SLASH, STAR, 97, STAR, 98, STAR, SLASH];
    var w := [SPACE, SPACE] + [97, STAR, 98] + [STAR, SLASH] + [];
    assert v[0 := SPACE][1 := SPACE] == w;
    var c := BlockRest(w, 1);
    StepOnSlash(v, 0, c);
    var w1 := w[1 := SPACE][2 := SPACE];
    assert BlockRest(w, 1) == BlockRest(w1, 3);
    BlockRestBlanks(w1[3 := SPACE], 5);
    ScanBlanks(c.buf, c.pos);
  }

  /** A slash that opens no comment, straight after a comma, hides the quote behind it: here the
      scanner blanks the inside of a string literal. */
  lemma SlashAfterCommaHidesAQuote()
    ensures var v := [COMMA, SLASH, QUOTE, SLASH, SLASH, QUOTE];
            Scan(v, 0) == [COMMA, SLASH, QUOTE, SPACE, SPACE, SPACE]
  {
    var v := [COMMA, SLASH, QUOTE, SLASH, SLASH, QUOTE];
    assert Comment(v, 2) == Cursor(v, 2);
    var w := [COMMA, SLASH, QUOTE, SPACE, SLASH, QUOTE];
    assert v[3 := SPACE] == w;
    assert LineRest(w, 4) == LineRest(w[4 := SPACE], 5) == LineRest(w[4 := SPACE][5 := SPACE], 6);
    var x := [COMMA, SLASH, QUOTE, SPACE, SPACE, SPACE];
    assert w[4 := SPACE][5 := SPACE] == x;
    assert Comment(v, 4) == Cursor(x, 6);
    assert AfterComma(v, 0, 3) == AfterComma(x, 0, 7) == Cursor(x, 7);
    assert AfterComma(v, 0, 1) == AfterComma(v, 0, 3);
    StepOnComma(v, 0, Cursor(x, 7));
  }
}
