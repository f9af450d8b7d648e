/**
 Splitting a SQL file into statements.  The loop keeps a quote byte and two
 comment flags; the specification is a recursive lexer.  Every character the
 splitter looks for is ASCII, so characters stand for bytes of valid UTF-8.
 */
module SqlSplitter {
  import opened Strings

  datatype Mode = Code | Line | Block | Quote(q: char)

  /** What the lexer writes: a character of a statement, or the end of one. */
  datatype Output = Text(c: char) | Cut

  predicate IsQuote(c: char) {
    c == '\'' || c == '"' || c == '`'
  }

  predicate Starts(s: string, a: char, b: char) {
    |s| >= 2 && s[0] == a && s[1] == b
  }

  // ----- the lexer ----------------------------------------------------------------------

  function Emit(m: Mode, s: string): seq<Output>
    decreases |s|
  {
    if |s| == 0 then []
    else match m
      case Code =>
        if Starts(s, '-', '-') then Emit(Line, s[2..])
        else if s[0] == '#' then Emit(Line, s[1..])
        else if Starts(s, '/', '*') then Emit(Block, s[2..])
        else if IsQuote(s[0]) then [Text(s[0])] + Emit(Quote(s[0]), s[1..])
        else if s[0] == ';' then [Cut] + Emit(Code, s[1..])
        else [Text(s[0])] + Emit(Code, s[1..])
      case Line =>
        if s[0] == '\n' then [Text('\n')] + Emit(Code, s[1..]) else Emit(Line, s[1..])
      case Block =>
        if Starts(s, '*', '/') then [Text(' ')] + Emit(Code, s[2..]) else Emit(Block, s[1..])
      case Quote(q) =>
        if s[0] == '\\' && |s| > 1 then [Text(s[0]), Text(s[1])] + Emit(m, s[2..])
        else if Starts(s, q, q) then [Text(q), Text(q)] + Emit(m, s[2..])
        else if s[0] == q then [Text(q)] + Emit(Code, s[1..])
        else [Text(s[0])] + Emit(m, s[1..])
  }

  /** The text between cuts. */
  function Pieces(es: seq<Output>): (ps: seq<string>)
    ensures |ps| >= 1
  {
    if |es| == 0 then [""]
    else
      var ps := Pieces(es[1..]);
      match es[0]
      case Text(c) => [[c] + ps[0]] + ps[1..]
      case Cut => [""] + ps
  }

  function Kept(ps: seq<string>): seq<string> {
    if |ps| == 0 then []
    else (if Trim(ps[0]) == "" then [] else [Trim(ps[0])]) + Kept(ps[1..])
  }

  function Split(s: string): seq<string> {
    Kept(Pieces(Emit(Code, s)))
  }

  // ----- the loop ------------------------------------------------------------------------------

  predicate Flags(m: Mode, quote: char, inLine: bool, inBlock: bool) {
    match m
    case Code => quote == '\0' && !inLine && !inBlock
    case Line => quote == '\0' && inLine && !inBlock
    case Block => quote == '\0' && !inLine && inBlock
    case Quote(q) => q != '\0' && quote == q && !inLine && !inBlock
  }

  /** What is still to come, given the text of the statement in hand. */
  function Pending(statement: string, es: seq<Output>): seq<string> {
    var ps := Pieces(es);
    Kept([statement + ps[0]] + ps[1..])
  }

  lemma PendingText(statement: string, c: char, es: seq<Output>)
    ensures Pending(statement, [Text(c)] + es) == Pending(statement + [c], es)
  {
    var ps := Pieces(es);
    assert ([Text(c)] + es)[1..] == es;
    assert Pieces([Text(c)] + es) == [[c] + ps[0]] + ps[1..];
    assert statement + ([c] + ps[0]) == statement + [c] + ps[0];
  }

  lemma PendingTwo(statement: string, c: char, d: char, es: seq<Output>)
    ensures Pending(statement, [Text(c), Text(d)] + es) == Pending(statement + [c] + [d], es)
  {
    assert [Text(c), Text(d)] + es == [Text(c)] + ([Text(d)] + es);
    PendingText(statement, c, [Text(d)] + es);
    PendingText(statement + [c], d, es);
  }

  lemma PendingCut(statement: string, es: seq<Output>)
    ensures Pending(statement, [Cut] + es) == Flushed(statement) + Pending("", es)
  {
    var ps := Pieces(es);
    assert ([Cut] + es)[1..] == es;
    assert Pieces([Cut] + es) == [""] + ps;
    assert statement + "" == statement && "" + ps[0] == ps[0] && [ps[0]] + ps[1..] == ps;
    assert ([statement] + ps)[1..] == ps;
  }

  lemma PendingEnd(statement: string)
    ensures Pending(statement, []) == Flushed(statement)
  {
    assert Pieces([]) == [""] && statement + "" == statement;
    assert [statement] + [""][1..] == [statement] && [statement][1..] == [];
    assert Kept([statement]) == Flushed(statement) + Kept([]);
  }

  lemma PendingStart(es: seq<Output>)
    ensures Pending("", es) == Kept(Pieces(es))
  {
    var ps := Pieces(es);
    assert "" + ps[0] == ps[0] && [ps[0]] + ps[1..] == ps;
  }

  /** Flushing keeps the trimmed text unless it is blank. */
  function Flushed(statement: string): seq<string> {
    if Trim(statement) == "" then [] else [Trim(statement)]
  }

  /** One turn of the loop inside a quoted value. */
  method TakeQuoted(source: string, i: nat, quote: char, statement: string)
    returns (next: nat, quote': char, statement': string, ghost m: Mode)
    requires i < |source| && quote != '\0'
    ensures i < next <= |source| && Flags(m, quote', false, false)
    ensures Pending(statement', Emit(m, source[next..])) == Pending(statement, Emit(Quote(quote), source[i..]))
  {
    var current := source[i];
    ghost var s := source[i..];
    next, quote', m, statement' := i + 1, quote, Quote(quote), statement + [current];
    if current == '\\' && i + 1 < |source| {
      next, statement' := i + 2, statement' + [source[i + 1]];
      PendingTwo(statement, current, source[i + 1], Emit(m, s[2..]));
    } else if current == quote {
      if i + 1 < |source| && source[i + 1] == quote {
        next, statement' := i + 2, statement' + [source[i + 1]];
        PendingTwo(statement, current, current, Emit(m, s[2..]));
      } else {
        quote', m := '\0', Code;
        PendingText(statement, current, Emit(Code, s[1..]));
      }
    } else {
      PendingText(statement, current, Emit(m, s[1..]));
    }
  }

  /** One turn of the loop outside quotes and comments, other than a delimiter. */
  method TakeCode(source: string, i: nat, statement: string)
    returns (next: nat, quote: char, inLine: bool, inBlock: bool, statement': string, ghost m: Mode)
    requires i < |source| && source[i] != ';'
    ensures i < next <= |source| && Flags(m, quote, inLine, inBlock)
    ensures Pending(statement', Emit(m, source[next..])) == Pending(statement, Emit(Code, source[i..]))
  {
    var current := source[i];
    ghost var s := source[i..];
    next, quote, inLine, inBlock, statement', m := i + 1, '\0', false, false, statement, Code;
    if (current == '-' && i + 1 < |source| && source[i + 1] == '-') || current == '#' {
      inLine, m := true, Line;
      if current == '-' { next := i + 2; }
    } else if current == '/' && i + 1 < |source| && source[i + 1] == '*' {
      inBlock, m, next := true, Block, i + 2;
    } else {
      if current == '\'' || current == '"' || current == '`' { quote, m := current, Quote(current); }
      statement' := statement + [current];
      PendingText(statement, current, Emit(m, s[1..]));
    }
  }

  /** One turn of the loop inside a comment. */
  method TakeComment(source: string, i: nat, inLine: bool, statement: string)
    returns (next: nat, done: bool, statement': string)
    requires i < |source|
    ensures i < next <= |source|
    ensures
      Pending(statement', Emit(if done then Code else if inLine then Line else Block, source[next..]))
      == Pending(statement, Emit(if inLine then Line else Block, source[i..]))
  {
    ghost var s := source[i..];
    next, done, statement' := i + 1, false, statement;
    if inLine {
      if source[i] == '\n' {
        done, statement' := true, statement + ['\n'];
        PendingText(statement, '\n', Emit(Code, s[1..]));
      }
    } else if source[i] == '*' && i + 1 < |source| && source[i + 1] == '/' {
      next, done, statement' := i + 2, true, statement + [' '];
      PendingText(statement, ' ', Emit(Code, s[2..]));
    }
  }

  method Flush(statements: seq<string>, statement: string) returns (statements': seq<string>)
    ensures statements' == statements + Flushed(statement)
  {
    var value := Trim(statement);
    statements' := if value != "" then statements + [value] else statements;
  }

  lemma DelimiterTurn(source: string, i: nat, statements: seq<string>, statement: string)
    requires i < |source| && source[i] == ';'
    ensures
      statements + Pending(statement, Emit(Code, source[i..]))
      == statements + Flushed(statement) + Pending("", Emit(Code, source[i + 1..]))
  {
    var s := source[i..];
    assert s[1..] == source[i + 1..];
    PendingCut(statement, Emit(Code, s[1..]));
  }

  method SplitStatements(source: string) returns (statements: seq<string>)
    ensures statements == Split(source)
  {
    statements := [];
    var statement := "";
    var quote := '\0';
    var inLine, inBlock := false, false;
    var i := 0;
    ghost var m := Code;
    ghost var goal := Pending("", Emit(Code, source));
    assert goal == Split(source) by { PendingStart(Emit(Code, source)); }
    assert source[0..] == source;
    while i < |source|
      invariant 0 <= i <= |source| && Flags(m, quote, inLine, inBlock)
      invariant statements + Pending(statement, Emit(m, source[i..])) == goal
      decreases |source| - i
    {
      ghost var left := Pending(statement, Emit(m, source[i..]));
      if inLine || inBlock {
        assert m == if inLine then Line else Block;
        var done;
        i, done, statement := TakeComment(source, i, inLine, statement);
        if done { inLine, inBlock, m := false, false, Code; }
        assert Pending(statement, Emit(m, source[i..])) == left;
      } else if quote != '\0' {
        assert m == Quote(quote);
        i, quote, statement, m := TakeQuoted(source, i, quote, statement);
        assert Pending(statement, Emit(m, source[i..])) == left;
      } else if source[i] == ';' {
        assert m == Code;
        DelimiterTurn(source, i, statements, statement);
        statements := Flush(statements, statement);
        statement, i := "", i + 1;
        assert statements + Pending(statement, Emit(m, source[i..])) == goal;
      } else {
        assert m == Code;
        i, quote, inLine, inBlock, statement, m := TakeCode(source, i, statement);
        assert Pending(statement, Emit(m, source[i..])) == left;
      }
    }
    assert source[i..] == [] && Emit(m, []) == [];
    PendingEnd(statement);
    statements := Flush(statements, statement);
  }
}
