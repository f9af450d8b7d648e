/** Splitting and joining undo each other. */
module SqlRoundTrip {
  import opened Strings
  import opened SqlSplitter

  function Join(ts: seq<string>): string {
    if |ts| == 0 then "" else if |ts| == 1 then ts[0] else ts[0] + ";" + Join(ts[1..])
  }

  /** Text the lexer copies verbatim from mode `m`; when `closed`, it also ends outside any quote. */
  predicate Clean(m: Mode, g: string, closed: bool)
    decreases |g|
  {
    match m
    case Code =>
      || |g| == 0
      || (&& g[0] != ';' && g[0] != '#' && !Starts(g, '-', '-') && !Starts(g, '/', '*')
          && Clean(if IsQuote(g[0]) then Quote(g[0]) else Code, g[1..], closed))
    case Quote(q) =>
      if |g| == 0 then !closed
      else if g[0] == '\\' && |g| > 1 then Clean(m, g[2..], closed)
      else if Starts(g, q, q) then Clean(m, g[2..], closed)
      else if g[0] == q then Clean(Code, g[1..], closed)
      else Clean(m, g[1..], closed)
    case _ => false
  }

  function Texts(g: string): seq<Output> {
    seq(|g|, i requires 0 <= i < |g| => Text(g[i]))
  }

  lemma TextsCons(g: string)
    requires |g| > 0
    ensures Texts(g) == [Text(g[0])] + Texts(g[1..])
    ensures |g| > 1 ==> Texts(g) == [Text(g[0]), Text(g[1])] + Texts(g[2..])
  {
  }

  lemma {:induction false} CleanIsVerbatim(m: Mode, g: string)
    requires Clean(m, g, false)
    ensures Emit(m, g) == Texts(g)
    decreases |g|
  {
    if |g| > 0 {
      TextsCons(g);
      if m.Quote? && ((g[0] == '\\' && |g| > 1) || Starts(g, m.q, m.q)) {
        CleanIsVerbatim(m, g[2..]);
      } else if m.Quote? {
        CleanIsVerbatim(if g[0] == m.q then Code else m, g[1..]);
      } else {
        CleanIsVerbatim(if IsQuote(g[0]) then Quote(g[0]) else Code, g[1..]);
      }
    }
  }

  lemma {:induction false} ClosedIsClean(m: Mode, g: string)
    requires Clean(m, g, true)
    ensures Clean(m, g, false)
    decreases |g|
  {
    if |g| > 0 {
      if m.Quote? && ((g[0] == '\\' && |g| > 1) || Starts(g, m.q, m.q)) {
        ClosedIsClean(m, g[2..]);
      } else if m.Quote? {
        ClosedIsClean(if g[0] == m.q then Code else m, g[1..]);
      } else {
        ClosedIsClean(if IsQuote(g[0]) then Quote(g[0]) else Code, g[1..]);
      }
    }
  }

  /** Closed text followed by a delimiter is copied, cut, and the rest lexed from scratch. */
  lemma {:induction false} ClosedThenCut(m: Mode, g: string, r: string)
    requires Clean(m, g, true) && (m.Quote? ==> IsQuote(m.q))
    ensures Emit(m, g + ";" + r) == Texts(g) + [Cut] + Emit(Code, r)
    decreases |g|, 1
  {
    if |g| == 0 {
      var s := g + ";" + r;
      assert s[0] == ';' && s[1..] == r;
    } else if m.Quote? {
      QuotedThenCut(m, g, r);
    } else {
      CodeThenCut(m, g, r);
    }
  }

  lemma Onward(g: string, r: string)
    requires |g| > 0
    ensures var s := g + ";" + r;
      && |s| >= 2 && s[0] == g[0] && s[1..] == g[1..] + ";" + r
      && (if |g| == 1 then s[1] == ';' else s[1] == g[1] && s[2..] == g[2..] + ";" + r)
  {
  }

  lemma {:induction false} QuotedThenCut(m: Mode, g: string, r: string)
    requires |g| > 0 && m.Quote? && IsQuote(m.q) && Clean(m, g, true)
    ensures Emit(m, g + ";" + r) == Texts(g) + [Cut] + Emit(Code, r)
    decreases |g|, 0
  {
    Onward(g, r);
    if (g[0] == '\\' && |g| > 1) || Starts(g, m.q, m.q) {
      ClosedThenCut(m, g[2..], r);
      ThenPair(g, Emit(m, g[2..] + ";" + r), Emit(Code, r));
    } else {
      assert !Clean(m, "", true);
      ClosedThenCut(if g[0] == m.q then Code else m, g[1..], r);
      ThenSingle(g, Emit(if g[0] == m.q then Code else m, g[1..] + ";" + r), Emit(Code, r));
    }
  }

  lemma {:induction false} CodeThenCut(m: Mode, g: string, r: string)
    requires |g| > 0 && !m.Quote? && Clean(m, g, true)
    ensures Emit(m, g + ";" + r) == Texts(g) + [Cut] + Emit(Code, r)
    decreases |g|, 0
  {
    Onward(g, r);
    var next := if IsQuote(g[0]) then Quote(g[0]) else Code;
    ClosedThenCut(next, g[1..], r);
    ThenSingle(g, Emit(next, g[1..] + ";" + r), Emit(Code, r));
  }

  lemma ThenSingle(g: string, after: seq<Output>, rest: seq<Output>)
    requires |g| > 0 && after == Texts(g[1..]) + [Cut] + rest
    ensures [Text(g[0])] + after == Texts(g) + [Cut] + rest
  {
    TextsCons(g);
  }

  lemma ThenPair(g: string, after: seq<Output>, rest: seq<Output>)
    requires |g| > 1 && after == Texts(g[2..]) + [Cut] + rest
    ensures [Text(g[0]), Text(g[1])] + after == Texts(g) + [Cut] + rest
  {
    TextsCons(g);
  }

  // ----- what the lexer writes is clean --------------------------------------------------------

  function Start(m: Mode): Mode {
    if m.Quote? then m else Code
  }

  /** Every piece is clean, and every piece but the last is closed. */
  predicate Good(m: Mode, ps: seq<string>)
    requires |ps| >= 1
  {
    && Clean(m, ps[0], |ps| > 1)
    && forall i :: 1 <= i < |ps| ==> Clean(Code, ps[i], i < |ps| - 1)
  }

  /** Outside comments and quotes, the first character written is the first one read or stands for a comment. */
  lemma {:induction false} FirstWritten(m: Mode, s: string)
    ensures
      var g := Pieces(Emit(m, s))[0];
      |g| > 0 ==> g[0] == ' ' || g[0] == '\n' || (m.Code? && |s| > 0 && g[0] == s[0]) || m.Quote?
    decreases |s|
  {
    if |s| > 0 {
      match m
      case Code =>
        if Starts(s, '-', '-') { FirstWritten(Line, s[2..]); }
        else if s[0] == '#' { FirstWritten(Line, s[1..]); }
        else if Starts(s, '/', '*') { FirstWritten(Block, s[2..]); }
      case Line => if s[0] != '\n' { FirstWritten(Line, s[1..]); }
      case Block => if !Starts(s, '*', '/') { FirstWritten(Block, s[1..]); }
      case Quote(_) =>
    }
  }

  lemma PiecesText(c: char, es: seq<Output>)
    ensures Pieces([Text(c)] + es) == [[c] + Pieces(es)[0]] + Pieces(es)[1..]
  {
    assert ([Text(c)] + es)[1..] == es;
  }

  lemma PiecesTwo(c: char, d: char, es: seq<Output>)
    ensures Pieces([Text(c), Text(d)] + es) == [[c, d] + Pieces(es)[0]] + Pieces(es)[1..]
  {
    assert [Text(c), Text(d)] + es == [Text(c)] + ([Text(d)] + es);
    PiecesText(d, es);
    PiecesText(c, [Text(d)] + es);
    assert [c] + ([d] + Pieces(es)[0]) == [c, d] + Pieces(es)[0];
  }

  /** Replacing the first piece. */
  lemma GoodFirst(m: Mode, m': Mode, ps: seq<string>, g: string)
    requires |ps| >= 1 && Good(m, ps) && Clean(m', g, |ps| > 1)
    ensures Good(m', [g] + ps[1..])
  {
  }

  lemma QuotedGood(q: char, s: string)
    requires |s| > 0 && IsQuote(q)
    requires (s[0] == '\\' && |s| > 1) || Starts(s, q, q) ==> Good(Quote(q), Pieces(Emit(Quote(q), s[2..])))
    requires s[0] == q ==> Good(Code, Pieces(Emit(Code, s[1..])))
    requires Good(Quote(q), Pieces(Emit(Quote(q), s[1..])))
    ensures Good(Quote(q), Pieces(Emit(Quote(q), s)))
  {
    var m := Quote(q);
    if (s[0] == '\\' && |s| > 1) || Starts(s, q, q) {
      var ps := Pieces(Emit(m, s[2..]));
      PiecesTwo(s[0], s[1], Emit(m, s[2..]));
      assert ([s[0], s[1]] + ps[0])[2..] == ps[0];
      GoodFirst(m, m, ps, [s[0], s[1]] + ps[0]);
    } else if s[0] == q {
      var ps := Pieces(Emit(Code, s[1..]));
      PiecesText(q, Emit(Code, s[1..]));
      FirstWritten(Code, s[1..]);
      assert ([q] + ps[0])[1..] == ps[0];
      GoodFirst(Code, m, ps, [q] + ps[0]);
    } else {
      var ps := Pieces(Emit(m, s[1..]));
      PiecesText(s[0], Emit(m, s[1..]));
      assert ([s[0]] + ps[0])[1..] == ps[0];
      if s[0] == '\\' { assert s[1..] == ""; }
      GoodFirst(m, m, ps, [s[0]] + ps[0]);
    }
  }

  /** A character copied in code mode never completes a comment opener. */
  lemma CopiedGood(s: string)
    requires |s| > 0 && s[0] != ';' && s[0] != '#' && !Starts(s, '-', '-') && !Starts(s, '/', '*')
    requires Good(if IsQuote(s[0]) then Quote(s[0]) else Code, Pieces(Emit(if IsQuote(s[0]) then Quote(s[0]) else Code, s[1..])))
    ensures Good(Code, Pieces(Emit(Code, s)))
  {
    var m := if IsQuote(s[0]) then Quote(s[0]) else Code;
    var ps := Pieces(Emit(m, s[1..]));
    PiecesText(s[0], Emit(m, s[1..]));
    FirstWritten(m, s[1..]);
    assert ([s[0]] + ps[0])[1..] == ps[0];
    GoodFirst(m, Code, ps, [s[0]] + ps[0]);
  }

  lemma SpaceGood(c: char, ps: seq<string>)
    requires (c == ' ' || c == '\n') && |ps| >= 1 && Good(Code, ps)
    ensures Good(Code, [[c] + ps[0]] + ps[1..])
  {
    assert ([c] + ps[0])[1..] == ps[0];
    GoodFirst(Code, Code, ps, [c] + ps[0]);
  }

  lemma {:induction false} LexerIsClean(m: Mode, s: string)
    requires m.Quote? ==> IsQuote(m.q)
    ensures Good(Start(m), Pieces(Emit(m, s)))
    decreases |s|
  {
    if |s| > 0 {
      match m
      case Code =>
        if Starts(s, '-', '-') { LexerIsClean(Line, s[2..]); }
        else if s[0] == '#' { LexerIsClean(Line, s[1..]); }
        else if Starts(s, '/', '*') { LexerIsClean(Block, s[2..]); }
        else if s[0] == ';' {
          LexerIsClean(Code, s[1..]);
          assert ([Cut] + Emit(Code, s[1..]))[1..] == Emit(Code, s[1..]);
        } else {
          LexerIsClean(if IsQuote(s[0]) then Quote(s[0]) else Code, s[1..]);
          CopiedGood(s);
        }
      case Line =>
        if s[0] == '\n' {
          LexerIsClean(Code, s[1..]);
          PiecesText('\n', Emit(Code, s[1..]));
          SpaceGood('\n', Pieces(Emit(Code, s[1..])));
        } else { LexerIsClean(Line, s[1..]); }
      case Block =>
        if Starts(s, '*', '/') {
          LexerIsClean(Code, s[2..]);
          PiecesText(' ', Emit(Code, s[2..]));
          SpaceGood(' ', Pieces(Emit(Code, s[2..])));
        } else { LexerIsClean(Block, s[1..]); }
      case Quote(q) =>
        if |s| > 1 { LexerIsClean(m, s[2..]); }
        LexerIsClean(Code, s[1..]);
        LexerIsClean(m, s[1..]);
        QuotedGood(q, s);
    }
  }

  // ----- trimming keeps text clean ------------------------------------------------------------------

  lemma {:induction false} TrimLeftClean(g: string, closed: bool)
    requires Clean(Code, g, closed)
    ensures Clean(Code, TrimLeft(g), closed)
    decreases |g|
  {
    if |g| > 0 && IsSpace(g[0]) { TrimLeftClean(g[1..], closed); }
  }

  lemma {:induction false} DropSpaceClean(m: Mode, g: string, c: char, closed: bool)
    requires IsSpace(c) && Clean(m, g + [c], closed) && (m.Quote? ==> IsQuote(m.q))
    ensures Clean(m, g, closed)
    decreases |g|
  {
    var t := g + [c];
    if |g| == 0 {
      if m.Quote? { assert t[1..] == "" && !Clean(m, "", true); }
    } else {
      assert t[0] == g[0] && t[1..] == g[1..] + [c];
      if |g| == 1 { assert t[1] == c; } else { assert t[1] == g[1] && t[2..] == g[2..] + [c]; }
      if m.Quote? && g[0] == '\\' && |g| == 1 {
        assert t[2..] == "";
      } else if m.Quote? && (g[0] == '\\' || Starts(g, m.q, m.q)) {
        DropSpaceClean(m, g[2..], c, closed);
      } else if m.Quote? {
        DropSpaceClean(if g[0] == m.q then Code else m, g[1..], c, closed);
      } else {
        DropSpaceClean(if IsQuote(g[0]) then Quote(g[0]) else Code, g[1..], c, closed);
      }
    }
  }

  lemma {:induction false} TrimRightClean(g: string, closed: bool)
    requires Clean(Code, g, closed)
    ensures Clean(Code, TrimRight(g), closed)
    decreases |g|
  {
    if |g| > 0 && IsSpace(g[|g| - 1]) {
      assert g[..|g| - 1] + [g[|g| - 1]] == g;
      DropSpaceClean(Code, g[..|g| - 1], g[|g| - 1], closed);
      TrimRightClean(g[..|g| - 1], closed);
    }
  }

  // ----- lists of statements --------------------------------------------------------------------------

  /** Exactly what a split can return: trimmed, clean, and only the last may end inside a quote. */
  predicate Statements(ts: seq<string>) {
    forall i :: 0 <= i < |ts| ==> Trimmed(ts[i]) && Clean(Code, ts[i], i < |ts| - 1)
  }

  lemma {:induction false} KeptStatements(ps: seq<string>)
    requires forall i :: 0 <= i < |ps| ==> Clean(Code, ps[i], i < |ps| - 1)
    ensures Statements(Kept(ps))
    decreases |ps|
  {
    if |ps| > 0 {
      KeptStatements(ps[1..]);
      TrimIsTrimmed(ps[0]);
      TrimLeftClean(ps[0], |ps| > 1);
      TrimRightClean(TrimLeft(ps[0]), |ps| > 1);
      if |ps| > 1 { ClosedIsClean(Code, Trim(ps[0])); }
    }
  }

  lemma {:induction false} PiecesOfText(g: string, es: seq<Output>)
    ensures Pieces(Texts(g) + es) == [g + Pieces(es)[0]] + Pieces(es)[1..]
    decreases |g|
  {
    if |g| == 0 {
      assert Texts(g) + es == es && g + Pieces(es)[0] == Pieces(es)[0];
    } else {
      var ps, rest := Pieces(es), Texts(g[1..]) + es;
      assert Texts(g) + es == [Text(g[0])] + rest by { TextsCons(g); }
      PiecesText(g[0], rest);
      assert Pieces(rest) == [g[1..] + ps[0]] + ps[1..] by { PiecesOfText(g[1..], es); }
      assert [g[0]] + (g[1..] + ps[0]) == g + ps[0];
    }
  }

  lemma SplitOfOne(t: string)
    requires Trimmed(t) && Clean(Code, t, false)
    ensures Split(t) == [t]
  {
    CleanIsVerbatim(Code, t);
    PiecesOfText(t, []);
    assert Texts(t) + [] == Texts(t) && t + "" == t && [t] + [""][1..] == [t] + [];
    KeptOne(t, []);
  }

  lemma SplitOfCons(t: string, rest: string)
    requires Trimmed(t) && Clean(Code, t, true)
    ensures Split(t + ";" + rest) == [t] + Split(rest)
  {
    var es := Emit(Code, rest);
    ClosedThenCut(Code, t, rest);
    PiecesOfText(t, [Cut] + es);
    assert ([Cut] + es)[1..] == es && t + "" == t;
    assert Texts(t) + [Cut] + es == Texts(t) + ([Cut] + es);
    KeptOne(t, Pieces(es));
  }

  /** Splitting what was joined gives the list back. */
  lemma {:induction false} SplitOfJoin(ts: seq<string>)
    requires Statements(ts)
    ensures Split(Join(ts)) == ts
    decreases |ts|
  {
    if |ts| == 0 {
      assert Split("") == [];
    } else if |ts| == 1 {
      SplitOfOne(ts[0]);
    } else {
      SplitOfCons(ts[0], Join(ts[1..]));
      SplitOfJoin(ts[1..]);
    }
  }

  lemma KeptOne(t: string, ps: seq<string>)
    requires Trimmed(t)
    ensures Kept([t] + ps) == [t] + Kept(ps)
  {
    assert Trim(t) == t;
    assert ([t] + ps)[1..] == ps;
  }

  lemma SplitIsStatements(s: string)
    ensures Statements(Split(s))
  {
    LexerIsClean(Code, s);
    KeptStatements(Pieces(Emit(Code, s)));
  }

  /** Joining a split with ';' and splitting again changes nothing. */
  lemma SplitJoinSplit(s: string)
    ensures Split(Join(Split(s))) == Split(s)
  {
    SplitIsStatements(s);
    SplitOfJoin(Split(s));
  }

  /** The lists that survive a round trip are exactly the well-formed lists of statements. */
  lemma RoundTripExactly(ts: seq<string>)
    ensures Split(Join(ts)) == ts <==> Statements(ts)
  {
    SplitIsStatements(Join(ts));
    if Statements(ts) { SplitOfJoin(ts); }
  }

  /** Every statement of a split is not blank and splits to itself alone. */
  lemma EachStatementAlone(s: string, i: nat)
    requires i < |Split(s)|
    ensures Split(Split(s)[i]) == [Split(s)[i]] && Trim(Split(s)[i]) != ""
  {
    SplitIsStatements(s);
    var t := Split(s)[i];
    if i < |Split(s)| - 1 { ClosedIsClean(Code, t); }
    assert Join([t]) == t && Statements([t]);
    SplitOfJoin([t]);
    assert Trim(t) == t;
  }
}
