/**
 What the splitter makes of comments, quotes and delimiters, wherever they stand in
 a file.
 */
module SqlComments {
  import opened Strings
  import opened SqlSplitter
  import opened SqlRoundTrip

  // ----- reading on after some text ----------------------------------------------------------

  /** One turn of the lexer: what it writes, the mode it goes on in, and how many characters it has read. */
  datatype Turn = Turn(out: seq<Output>, mode: Mode, read: nat)

  function TurnOf(m: Mode, s: string): (t: Turn)
    requires |s| > 0
    ensures 0 < t.read <= |s|
  {
    match m
    case Code =>
      if Starts(s, '-', '-') then Turn([], Line, 2)
      else if s[0] == '#' then Turn([], Line, 1)
      else if Starts(s, '/', '*') then Turn([], Block, 2)
      else if s[0] == ';' then Turn([Cut], Code, 1)
      else Turn([Text(s[0])], if IsQuote(s[0]) then Quote(s[0]) else Code, 1)
    case Line => if s[0] == '\n' then Turn([Text('\n')], Code, 1) else Turn([], Line, 1)
    case Block => if Starts(s, '*', '/') then Turn([Text(' ')], Code, 2) else Turn([], Block, 1)
    case Quote(q) =>
      if (s[0] == '\\' && |s| > 1) || Starts(s, q, q) then Turn([Text(s[0]), Text(s[1])], m, 2)
      else Turn([Text(s[0])], if s[0] == q then Code else m, 1)
  }

  lemma EmitTurn(m: Mode, s: string)
    requires |s| > 0 && (m.Quote? ==> IsQuote(m.q))
    ensures var t := TurnOf(m, s); Emit(m, s) == t.out + Emit(t.mode, s[t.read..])
  {
    if m.Code? { EmitCodeTurn(s); } else { EmitOtherTurn(m, s); }
  }

  lemma EmitCodeTurn(s: string)
    requires |s| > 0
    ensures var t := TurnOf(Code, s); Emit(Code, s) == t.out + Emit(t.mode, s[t.read..])
  {
    Nothing(Emit(TurnOf(Code, s).mode, s[TurnOf(Code, s).read..]));
  }

  lemma EmitOtherTurn(m: Mode, s: string)
    requires |s| > 0 && !m.Code?
    ensures var t := TurnOf(m, s); Emit(m, s) == t.out + Emit(t.mode, s[t.read..])
  {
    Nothing(Emit(TurnOf(m, s).mode, s[TurnOf(m, s).read..]));
  }

  lemma Nothing(es: seq<Output>)
    ensures [] + es == es && es + [] == es
  {
  }

  /** The mode after reading `s`. */
  function ModeAfter(m: Mode, s: string): Mode
    decreases |s|
  {
    if |s| == 0 then m else ModeAfter(TurnOf(m, s).mode, s[TurnOf(m, s).read..])
  }

  /** The last character of `p` and the first of `r` would be read as one mark. */
  predicate Joined(p: string, r: string) {
    && |p| > 0 && |r| > 0
    && var a, b := p[|p| - 1], r[0];
       (a == '-' && b == '-') || (a == '/' && b == '*') || (IsQuote(a) && b == a)
  }

  /** No turn reads across the boundary. */
  lemma SameTurn(m: Mode, p: string, r: string)
    requires |p| > 0 && ModeAfter(m, p) == Code && !Joined(p, r) && (m.Quote? ==> IsQuote(m.q))
    ensures TurnOf(m, p + r) == TurnOf(m, p)
  {
    var s := p + r;
    assert s[0] == p[0];
    if |p| >= 2 {
      assert s[1] == p[1];
    } else {
      assert p[TurnOf(m, p).read..] == "" && ModeAfter(m, p) == TurnOf(m, p).mode;
      if |r| > 0 { assert s[1] == r[0]; }
    }
  }

  /** Text that ends outside quotes and comments can be read apart from what follows. */
  lemma {:induction false} EmitAppend(m: Mode, p: string, r: string)
    requires ModeAfter(m, p) == Code && !Joined(p, r) && (m.Quote? ==> IsQuote(m.q))
    ensures Emit(m, p + r) == Emit(m, p) + Emit(Code, r)
    decreases |p|
  {
    if |p| == 0 {
      assert p + r == r;
    } else {
      var t := TurnOf(m, p);
      SameTurn(m, p, r);
      assert (p + r)[t.read..] == p[t.read..] + r;
      EmitAppend(t.mode, p[t.read..], r);
      AppendTurn(m, p, r, t);
    }
  }

  lemma AppendTurn(m: Mode, p: string, r: string, t: Turn)
    requires |p| > 0 && (m.Quote? ==> IsQuote(m.q)) && TurnOf(m, p) == t && TurnOf(m, p + r) == t
    requires (p + r)[t.read..] == p[t.read..] + r
    requires Emit(t.mode, p[t.read..] + r) == Emit(t.mode, p[t.read..]) + Emit(Code, r)
    ensures Emit(m, p + r) == Emit(m, p) + Emit(Code, r)
  {
    EmitTurn(m, p);
    EmitTurn(m, p + r);
    Regroup(t.out, Emit(t.mode, p[t.read..]), Emit(Code, r));
  }

  lemma Regroup(a: seq<Output>, b: seq<Output>, c: seq<Output>)
    ensures a + (b + c) == a + b + c
  {
  }

  /** A position in a file where code may begin. */
  predicate Open(p: string) {
    ModeAfter(Code, p) == Code
  }

  /** Reading on from there is reading code. */
  lemma {:induction false} OpenAppend(m: Mode, p: string, r: string)
    requires ModeAfter(m, p) == Code && !Joined(p, r) && (m.Quote? ==> IsQuote(m.q))
    ensures ModeAfter(m, p + r) == ModeAfter(Code, r)
    decreases |p|
  {
    if |p| == 0 {
      assert p + r == r;
    } else {
      var t := TurnOf(m, p);
      SameTurn(m, p, r);
      assert (p + r)[t.read..] == p[t.read..] + r;
      OpenAppend(t.mode, p[t.read..], r);
    }
  }

  /** Every closed statement ends there. */
  lemma {:induction false} ClosedIsOpen(m: Mode, g: string)
    requires Clean(m, g, true) && (m.Quote? ==> IsQuote(m.q))
    ensures ModeAfter(m, g) == Code
    decreases |g|
  {
    if |g| > 0 {
      var t := TurnOf(m, g);
      ClosedIsOpen(t.mode, g[t.read..]);
    }
  }

  // ----- comments --------------------------------------------------------------------------------

  lemma {:induction false} LineComment(c: string, r: string)
    requires '\n' !in c
    ensures Emit(Line, c) == [] && Emit(Line, c + "\n" + r) == [Text('\n')] + Emit(Code, r)
    decreases |c|
  {
    var s := c + "\n" + r;
    if |c| == 0 {
      assert s[1..] == r;
    } else {
      assert s[0] == c[0] && s[1..] == c[1..] + "\n" + r;
      LineComment(c[1..], r);
    }
  }

  predicate EndsBlock(c: string) {
    exists i :: 0 <= i < |c| - 1 && c[i] == '*' && c[i + 1] == '/'
  }

  lemma {:induction false} BlockComment(c: string, r: string)
    requires !EndsBlock(c)
    ensures Emit(Block, c) == [] && Emit(Block, c + "*/" + r) == [Text(' ')] + Emit(Code, r)
    decreases |c|
  {
    var s := c + "*/" + r;
    if |c| == 0 {
      assert s[2..] == r;
    } else {
      assert s[0] == c[0] && s[1..] == c[1..] + "*/" + r;
      if |c| == 1 { assert s[1] == '*'; } else { assert s[1] == c[1] && !(c[0] == '*' && c[0 + 1] == '/'); }
      forall i | 0 <= i < |c[1..]| - 1 ensures !(c[1..][i] == '*' && c[1..][i + 1] == '/') {
        assert !(c[i + 1] == '*' && c[i + 1 + 1] == '/');
      }
      BlockComment(c[1..], r);
    }
  }

  lemma OneText(c: char, r: string)
    requires c == '\n' || c == ' '
    ensures Emit(Code, [c] + r) == [Text(c)] + Emit(Code, r)
  {
    assert ([c] + r)[1..] == r;
  }

  /** A line comment counts as its line feed, wherever code may stand. */
  lemma DashComment(p: string, c: string, r: string)
    requires Open(p) && '\n' !in c && !Joined(p, "-")
    ensures Split(p + "--" + c + "\n" + r) == Split(p + "\n" + r)
  {
    var t := "--" + (c + "\n" + r);
    assert p + "--" + c + "\n" + r == p + t && t[2..] == c + "\n" + r;
    assert p + "\n" + r == p + ("\n" + r);
    EmitAppend(Code, p, t);
    EmitAppend(Code, p, "\n" + r);
    LineComment(c, r);
    OneText('\n', r);
  }

  /** A dash just before a dash comment is the start of that comment. */
  lemma DashBeforeComment(p: string, c: string, r: string)
    requires Open(p) && Open(p + "-") && '\n' !in c && !Joined(p, "-")
    ensures Split(p + "-" + "--" + c + "\n" + r) == Split(p + "\n" + r)
  {
    assert p + "-" + "--" + c + "\n" + r == p + "--" + ("-" + c) + "\n" + r;
    DashComment(p, "-" + c, r);
  }

  lemma HashComment(p: string, c: string, r: string)
    requires Open(p) && '\n' !in c
    ensures Split(p + "#" + c + "\n" + r) == Split(p + "\n" + r)
  {
    var t := "#" + (c + "\n" + r);
    assert p + "#" + c + "\n" + r == p + t && t[1..] == c + "\n" + r;
    assert p + "\n" + r == p + ("\n" + r);
    EmitAppend(Code, p, t);
    EmitAppend(Code, p, "\n" + r);
    LineComment(c, r);
    OneText('\n', r);
  }

  /** A block comment counts as a blank, so it never glues two words together. */
  lemma BlankForBlock(p: string, c: string, r: string)
    requires Open(p) && !EndsBlock(c)
    ensures Split(p + "/*" + c + "*/" + r) == Split(p + " " + r)
  {
    var t := "/*" + (c + "*/" + r);
    assert p + "/*" + c + "*/" + r == p + t && t[2..] == c + "*/" + r;
    assert p + " " + r == p + (" " + r);
    EmitAppend(Code, p, t);
    EmitAppend(Code, p, " " + r);
    BlockComment(c, r);
    OneText(' ', r);
  }

  /** A comment that never ends takes the rest of the file with it and nothing before it. */
  lemma UnendedComment(p: string, c: string)
    requires Open(p)
    ensures '\n' !in c && !Joined(p, "-") ==> Split(p + "--" + c) == Split(p)
    ensures '\n' !in c ==> Split(p + "#" + c) == Split(p)
    ensures !EndsBlock(c) ==> Split(p + "/*" + c) == Split(p)
  {
    if '\n' !in c {
      LineComment(c, "");
      if !Joined(p, "-") { Swallowed(p, "--", Line, c); }
      Swallowed(p, "#", Line, c);
    }
    if !EndsBlock(c) {
      BlockComment(c, "");
      Swallowed(p, "/*", Block, c);
    }
  }

  lemma Swallowed(p: string, mark: string, m: Mode, c: string)
    requires Open(p) && !Joined(p, mark) && Emit(m, c) == []
    requires (mark == "--" && m == Line) || (mark == "#" && m == Line) || (mark == "/*" && m == Block)
    ensures Split(p + mark + c) == Split(p)
  {
    assert p + mark + c == p + (mark + c);
    MarkRead(mark, m, c);
    NothingMore(p, mark + c);
  }

  lemma NothingMore(p: string, t: string)
    requires Open(p) && !Joined(p, t) && Emit(Code, t) == []
    ensures Split(p + t) == Split(p)
  {
    EmitAppend(Code, p, t);
    Nothing(Emit(Code, p));
  }

  lemma MarkRead(mark: string, m: Mode, c: string)
    requires (mark == "--" && m == Line) || (mark == "#" && m == Line) || (mark == "/*" && m == Block)
    ensures Emit(Code, mark + c) == Emit(m, c)
  {
    var t := mark + c;
    assert t[|mark|..] == c && t[0] == mark[0] && (|mark| == 2 ==> t[1] == mark[1]);
  }

  // ----- quotes ------------------------------------------------------------------------------------

  /** What may stand between two quotes `q`: a backslash takes the next character with it, and two quotes stand for one. */
  predicate Quotable(q: char, b: string)
    decreases |b|
  {
    if |b| == 0 then true
    else if b[0] == '\\' then |b| > 1 && Quotable(q, b[2..])
    else if b[0] == q then |b| > 1 && b[1] == q && Quotable(q, b[2..])
    else Quotable(q, b[1..])
  }

  lemma {:induction false} InsideQuotes(q: char, b: string)
    requires IsQuote(q) && Quotable(q, b)
    ensures ModeAfter(Quote(q), b + [q]) == Code && Emit(Quote(q), b + [q]) == Texts(b + [q])
    decreases |b|
  {
    var s := b + [q];
    EmitTurn(Quote(q), s);
    TextsCons(s);
    if |b| == 0 {
      assert s[1..] == "" && Texts("") == [];
    } else if b[0] == '\\' || b[0] == q {
      assert s[2..] == b[2..] + [q];
      InsideQuotes(q, b[2..]);
    } else {
      assert s[1..] == b[1..] + [q];
      InsideQuotes(q, b[1..]);
    }
  }

  /** Quoted text, from quote to quote, is copied as it stands and ends where code may begin. */
  lemma QuotedText(q: char, b: string)
    requires IsQuote(q) && Quotable(q, b)
    ensures Open([q] + b + [q]) && Emit(Code, [q] + b + [q]) == Texts([q] + b + [q])
  {
    var s := [q] + b + [q];
    assert s[1..] == b + [q];
    EmitTurn(Code, s);
    InsideQuotes(q, b);
    TextsCons(s);
  }

  /** Nothing in quoted text ends a statement or starts a comment, wherever it stands. */
  lemma QuotedCopied(p: string, q: char, b: string, r: string)
    requires Open(p) && IsQuote(q) && Quotable(q, b) && !Joined(p, [q]) && !Joined([q], r)
    ensures Emit(Code, p + ([q] + b + [q] + r)) == Emit(Code, p) + Texts([q] + b + [q]) + Emit(Code, r)
  {
    var t := [q] + b + [q];
    QuotedText(q, b);
    EmitAppend(Code, t, r);
    EmitAppend(Code, p, t + r);
    Regroup(Emit(Code, p), Texts(t), Emit(Code, r));
  }

  // ----- delimiters ----------------------------------------------------------------------------------

  lemma {:induction false} PiecesCut(a: seq<Output>, b: seq<Output>)
    ensures Pieces(a + [Cut] + b) == Pieces(a) + Pieces(b)
    decreases |a|
  {
    var es := a + [Cut] + b;
    if |a| == 0 {
      assert es[1..] == b && es[0] == Cut;
    } else {
      assert es[0] == a[0] && es[1..] == a[1..] + [Cut] + b;
      PiecesCut(a[1..], b);
    }
  }

  lemma {:induction false} KeptConcat(a: seq<string>, b: seq<string>)
    ensures Kept(a + b) == Kept(a) + Kept(b)
    decreases |a|
  {
    if |a| == 0 {
      assert a + b == b;
    } else {
      assert (a + b)[0] == a[0] && (a + b)[1..] == a[1..] + b;
      KeptConcat(a[1..], b);
    }
  }

  /** A delimiter outside quotes and comments separates what comes before it from what comes after. */
  lemma DelimiterSeparates(p: string, r: string)
    requires Open(p)
    ensures Split(p + ";" + r) == Split(p) + Split(r)
  {
    var t := ";" + r;
    assert p + ";" + r == p + t && t[1..] == r;
    EmitAppend(Code, p, t);
    assert Emit(Code, p) + ([Cut] + Emit(Code, r)) == Emit(Code, p) + [Cut] + Emit(Code, r);
    PiecesCut(Emit(Code, p), Emit(Code, r));
    KeptConcat(Pieces(Emit(Code, p)), Pieces(Emit(Code, r)));
  }

  /** Text without marks is one statement, trimmed, unless it is blank. */
  predicate Unmarked(t: string) {
    && (forall i :: 0 <= i < |t| ==> t[i] != ';' && t[i] != '#' && !IsQuote(t[i]))
    && forall i :: 0 <= i < |t| - 1 ==> !(t[i] == '-' && t[i + 1] == '-') && !(t[i] == '/' && t[i + 1] == '*')
  }

  lemma {:induction false} UnmarkedCopied(t: string)
    requires Unmarked(t)
    ensures Emit(Code, t) == Texts(t)
    decreases |t|
  {
    if |t| > 0 {
      TextsCons(t);
      assert |t| > 1 ==> !(t[0] == '-' && t[0 + 1] == '-') && !(t[0] == '/' && t[0 + 1] == '*');
      var u := t[1..];
      forall i | 0 <= i < |u| - 1 ensures !(u[i] == '-' && u[i + 1] == '-') && !(u[i] == '/' && u[i + 1] == '*') {
        assert u[i] == t[i + 1] && u[i + 1] == t[i + 1 + 1];
      }
      UnmarkedCopied(u);
    }
  }

  lemma UnmarkedIsOneStatement(t: string)
    requires Unmarked(t)
    ensures Split(t) == if Trim(t) == "" then [] else [Trim(t)]
  {
    UnmarkedCopied(t);
    PiecesOfTexts(t);
    assert [t][1..] == [] && Kept([]) == [];
  }

  lemma {:induction false} PiecesOfTexts(t: string)
    ensures Pieces(Texts(t)) == [t]
    decreases |t|
  {
    if |t| > 0 {
      TextsCons(t);
      PiecesOfTexts(t[1..]);
      PiecesText(t[0], Texts(t[1..]));
      assert [t[0]] + t[1..] == t && [[t[0]] + t[1..]] + [t[1..]][1..] == [t];
    }
  }
}
