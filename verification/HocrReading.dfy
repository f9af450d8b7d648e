/** What the tree and the walks say, in terms of the document's own tokens and attributes. */
module HocrReading {
  import opened Nullable
  import opened Strings
  import opened Hocr
  import opened HocrDecode
  import opened HocrDocument
  import opened HocrLimits
  import opened HocrTraversal
  import opened HocrPageLimit

  // ----- attributes: the last one wins --------------------------------------------------------

  predicate NoIdAfter(attrs: seq<Attr>, i: int) {
    forall j :: 0 <= j < |attrs| && i < j ==> !attrs[j].Id?
  }

  predicate NoIdBefore(attrs: seq<Attr>, i: nat) {
    forall j :: 0 <= j < i && j < |attrs| ==> !attrs[j].Id?
  }

  /** The last id is the one with none after it; without any it is empty. */
  lemma {:induction false} LastIdExactly(attrs: seq<Attr>, i: nat)
    ensures i < |attrs| && attrs[i].Id? && NoIdAfter(attrs, i) ==> LastId(attrs) == attrs[i].value
    ensures NoIdAfter(attrs, -1) ==> LastId(attrs) == ""
    decreases |attrs|
  {
    if |attrs| > 0 { LastIdExactly(attrs[..|attrs| - 1], i); }
  }

  lemma {:induction false} FirstIdExactly(attrs: seq<Attr>, i: nat)
    ensures i < |attrs| && attrs[i].Id? && NoIdBefore(attrs, i) ==> FirstId(attrs) == Some(attrs[i].value)
    ensures FirstId(attrs).None? <==> NoIdAfter(attrs, -1)
    decreases |attrs|
  {
    if |attrs| > 0 && !attrs[0].Id? {
      FirstIdExactly(attrs[1..], if i > 0 then i - 1 else 0);
      assert forall j :: 0 < j < |attrs| ==> attrs[j] == attrs[1..][j - 1];
    }
  }

  predicate GivesBox(a: Attr) {
    a.TitleAttr? && a.title.box.HasBox?
  }

  predicate GivesConfidence(a: Attr) {
    a.TitleAttr? && a.title.confidence.HasConfidence?
  }

  /** `i` is the last attribute for which `p` holds. */
  predicate LastWith(attrs: seq<Attr>, p: Attr -> bool, i: nat) {
    i < |attrs| && p(attrs[i]) && forall j :: i < j < |attrs| ==> !p(attrs[j])
  }

  lemma {:induction false} LastBoxExactly(attrs: seq<Attr>, i: nat)
    ensures LastWith(attrs, GivesBox, i) ==> LastBox(attrs) == attrs[i].title.box.box
    ensures (forall j :: 0 <= j < |attrs| ==> !GivesBox(attrs[j])) ==> LastBox(attrs) == NoBBox
    decreases |attrs|
  {
    if |attrs| > 0 { LastBoxExactly(attrs[..|attrs| - 1], i); }
  }

  lemma {:induction false} LastConfidenceExactly(attrs: seq<Attr>, i: nat)
    ensures LastWith(attrs, GivesConfidence, i) ==> LastConfidence(attrs) == attrs[i].title.confidence.value
    ensures (forall j :: 0 <= j < |attrs| ==> !GivesConfidence(attrs[j])) ==> LastConfidence(attrs) == 0.0
    decreases |attrs|
  {
    if |attrs| > 0 { LastConfidenceExactly(attrs[..|attrs| - 1], i); }
  }

  predicate IsTitle(a: Attr) {
    a.TitleAttr?
  }

  /** Cuts come from the last title, even one without any. */
  lemma {:induction false} LastCutsExactly(attrs: seq<Attr>, i: nat)
    ensures LastWith(attrs, IsTitle, i) ==> LastCuts(attrs) == attrs[i].title.cuts
    ensures (forall j :: 0 <= j < |attrs| ==> !IsTitle(attrs[j])) ==> LastCuts(attrs) == []
    decreases |attrs|
  {
    if |attrs| > 0 { LastCutsExactly(attrs[..|attrs| - 1], i); }
  }

  /**
   An element yields a word exactly when it is one, every box and confidence in its
   titles can be read, its last id is not empty and its text is not blank.  The word has
   the text without the white space around it.
   */
  lemma WordExactly(e: Element)
    ensures WordOf(e).Some? <==>
      && HasClass(e.attrs, "ocrx_word")
      && (forall i :: 0 <= i < |e.attrs| && e.attrs[i].TitleAttr? ==>
            e.attrs[i].title.box != BadBox && e.attrs[i].title.confidence != BadConfidence)
      && (exists i :: 0 <= i < |e.attrs| && e.attrs[i].Id? && e.attrs[i].value != "" && NoIdAfter(e.attrs, i))
      && exists i :: 0 <= i < |e.content| && !IsSpace(e.content[i])
    ensures WordOf(e).Some? ==> var w := WordOf(e).value;
      w.id == LastId(e.attrs) && w.text == Trim(e.content) && w.box == LastBox(e.attrs) && w.confidence == LastConfidence(e.attrs)
  {
    TrimBlankExactly(e.content);
    if LastId(e.attrs) != "" { var i := LastIdAt(e.attrs); }
    forall i | 0 <= i < |e.attrs| && e.attrs[i].Id? && e.attrs[i].value != "" && NoIdAfter(e.attrs, i) ensures LastId(e.attrs) != "" {
      LastIdExactly(e.attrs, i);
    }
  }

  lemma {:induction false} LastIdAt(attrs: seq<Attr>) returns (i: nat)
    requires LastId(attrs) != ""
    ensures i < |attrs| && attrs[i].Id? && attrs[i].value == LastId(attrs) && NoIdAfter(attrs, i)
    decreases |attrs|
  {
    var n := |attrs| - 1;
    if attrs[n].Id? {
      i := n;
    } else {
      i := LastIdAt(attrs[..n]);
      assert forall j :: 0 <= j < n ==> attrs[..n][j] == attrs[j];
    }
  }

  // ----- the walks, against document order -------------------------------------------------------

  /** Every element, each before those inside it. */
  function Preorder(e: Element): seq<Element> {
    [e] + AllPreorder(e.children)
  }

  function AllPreorder(es: seq<Element>): seq<Element> {
    if |es| == 0 then [] else Preorder(es[0]) + AllPreorder(es[1..])
  }

  /** The words among some elements. */
  function Spelled(es: seq<Element>): seq<Word> {
    if |es| == 0 then [] else (match WordOf(es[0]) case None => [] case Some(w) => [w]) + Spelled(es[1..])
  }

  function WithoutLine(ws: seq<Word>): seq<Word> {
    seq(|ws|, i requires 0 <= i < |ws| => ws[i].(line := ""))
  }

  lemma {:induction false} SpelledConcat(a: seq<Element>, b: seq<Element>)
    ensures Spelled(a + b) == Spelled(a) + Spelled(b)
    decreases |a|
  {
    if |a| == 0 {
      assert a + b == b;
    } else {
      assert (a + b)[1..] == a[1..] + b;
      SpelledConcat(a[1..], b);
    }
  }

  lemma WithoutLineConcat(a: seq<Word>, b: seq<Word>)
    ensures WithoutLine(a + b) == WithoutLine(a) + WithoutLine(b)
  {
  }

  lemma SpelledOne(e: Element, line: string)
    ensures Spelled([e]) == WithoutLine(At(WordOf(e), line))
  {
    assert [e][1..] == [];
  }

  /** The word walk meets every word of the document, once each, in document order. */
  lemma {:induction false} WordsInOrder(e: Element, current: string)
    ensures WithoutLine(Words(e, current)) == Spelled(Preorder(e))
    decreases e, 0
  {
    var line := Inherited(e, current);
    AllWordsInOrder(e.children, line);
    SpelledConcat([e], AllPreorder(e.children));
    SpelledOne(e, line);
    WithoutLineConcat(At(WordOf(e), line), AllWords(e.children, line));
  }

  lemma {:induction false} AllWordsInOrder(es: seq<Element>, current: string)
    ensures WithoutLine(AllWords(es, current)) == Spelled(AllPreorder(es))
    decreases es, 1
  {
    if |es| > 0 {
      WordsInOrder(es[0], current);
      AllWordsInOrder(es[1..], current);
      SpelledConcat(Preorder(es[0]), AllPreorder(es[1..]));
      WithoutLineConcat(Words(es[0], current), AllWords(es[1..], current));
    }
  }

  /** Every word of a line names it; in a line without a name each word makes one up. */
  predicate NamesLine(ws: seq<Word>, line: string) {
    forall i :: 0 <= i < |ws| ==> ws[i].line == if line == "" then "line_" + ws[i].id else line
  }

  lemma {:induction false} LineNamed(e: Element, line: string)
    ensures NamesLine(InLine(e, line), line)
    decreases e, 0
  {
    AllLineNamed(e.children, line);
  }

  lemma {:induction false} AllLineNamed(es: seq<Element>, line: string)
    ensures NamesLine(AllInLine(es, line), line)
    decreases es, 1
  {
    if |es| > 0 {
      LineNamed(es[0], line);
      AllLineNamed(es[1..], line);
    }
  }

  /** The kept lines among some elements, with their boxes. */
  function Ruled(es: seq<Element>): seq<(string, BBox)> {
    if |es| == 0 then [] else (if LineKept(es[0]) then [(LastId(es[0].attrs), LastBox(es[0].attrs))] else []) + Ruled(es[1..])
  }

  function WithoutWords(ls: seq<Line>): seq<(string, BBox)> {
    seq(|ls|, i requires 0 <= i < |ls| => (ls[i].id, ls[i].box))
  }

  lemma {:induction false} RuledConcat(a: seq<Element>, b: seq<Element>)
    ensures Ruled(a + b) == Ruled(a) + Ruled(b)
    decreases |a|
  {
    if |a| == 0 {
      assert a + b == b;
    } else {
      assert (a + b)[1..] == a[1..] + b;
      RuledConcat(a[1..], b);
    }
  }

  /** The line walk meets every line that has an id and a readable box, once each, in document order. */
  lemma {:induction false} LinesInOrder(e: Element)
    ensures WithoutWords(Lines(e)) == Ruled(Preorder(e))
    decreases e, 0
  {
    AllLinesInOrder(e.children);
    RuledConcat([e], AllPreorder(e.children));
    assert [e][1..] == [];
  }

  lemma {:induction false} AllLinesInOrder(es: seq<Element>)
    ensures WithoutWords(AllLines(es)) == Ruled(AllPreorder(es))
    decreases es, 1
  {
    if |es| > 0 {
      LinesInOrder(es[0]);
      AllLinesInOrder(es[1..]);
      RuledConcat(Preorder(es[0]), AllPreorder(es[1..]));
      assert WithoutWords(Lines(es[0]) + AllLines(es[1..])) == WithoutWords(Lines(es[0])) + WithoutWords(AllLines(es[1..]));
    }
  }

  // ----- the text of words, straight from the tokens ------------------------------------------------

  /**
   One text per word element, read off the tokens: everything between its start and its
   end.  `word` is the depth of the word that is open, 0 when none is.
   */
  function Spoken(ts: seq<Token>, depth: nat, word: nat, heard: string): seq<string>
    decreases |ts|
  {
    if |ts| == 0 then [] else
    match ts[0]
    case Start(_, attrs) =>
      if word == 0 && IsWord(attrs) then Spoken(ts[1..], depth + 1, depth + 1, "") else Spoken(ts[1..], depth + 1, word, heard)
    case Text(text) => Spoken(ts[1..], depth, word, if word > 0 then heard + text else heard)
    case Other => Spoken(ts[1..], depth, word, heard)
    case End =>
      if depth == 0 then []
      else if word == depth then [heard] + Spoken(ts[1..], depth - 1, 0, "")
      else Spoken(ts[1..], depth - 1, word, heard)
  }

  /** The contents of the word elements. */
  function Contents(es: seq<Element>): seq<string> {
    if |es| == 0 then [] else (if IsWord(es[0].attrs) then [es[0].content] else []) + Contents(es[1..])
  }

  lemma {:induction false} ContentsConcat(a: seq<Element>, b: seq<Element>)
    ensures Contents(a + b) == Contents(a) + Contents(b)
    decreases |a|
  {
    if |a| == 0 {
      assert a + b == b;
    } else {
      assert (a + b)[1..] == a[1..] + b;
      ContentsConcat(a[1..], b);
    }
  }

  function TreeContents(ns: Nodes): seq<string> {
    Contents(AllPreorder(Trees(ns)))
  }

  lemma ElemContents(name: string, attrs: seq<Attr>, kids: Nodes, rest: Nodes)
    ensures TreeContents(Elem(name, attrs, kids, rest)) == (if IsWord(attrs) then [TextOf(kids)] else []) + TreeContents(kids) + TreeContents(rest)
  {
    var e := Finished(name, attrs, kids);
    var es := Trees(Elem(name, attrs, kids, rest));
    assert es[0] == e && es[1..] == Trees(rest);
    ContentsConcat(Preorder(e), AllPreorder(Trees(rest)));
    ContentsConcat([e], AllPreorder(e.children));
    assert [e][1..] == [];
  }

  /** No words inside a word. */
  lemma {:induction false} NoContents(ns: Nodes, inLine: bool)
    requires NotNested(ns, true, inLine)
    ensures TreeContents(ns) == []
    decreases ns
  {
    match ns
    case Nil =>
    case Chars(_, rest) => NoContents(rest, inLine);
    case Skip(rest) => NoContents(rest, inLine);
    case Unclosed(_, _, _) =>
    case Elem(name, attrs, kids, rest) =>
      NoContents(kids, inLine || IsLine(attrs));
      NoContents(rest, inLine);
      ElemContents(name, attrs, kids, rest);
  }

  lemma SpokenOne(t: Token, ts: seq<Token>, depth: nat, word: nat, heard: string)
    ensures Spoken([t] + ts, depth, word, heard) ==
      match t
      case Start(_, attrs) =>
        (if word == 0 && IsWord(attrs) then Spoken(ts, depth + 1, depth + 1, "") else Spoken(ts, depth + 1, word, heard))
      case Text(text) => Spoken(ts, depth, word, if word > 0 then heard + text else heard)
      case Other => Spoken(ts, depth, word, heard)
      case End =>
        (if depth == 0 then []
         else if word == depth then [heard] + Spoken(ts, depth - 1, 0, "")
         else Spoken(ts, depth - 1, word, heard))
  {
    assert ([t] + ts)[1..] == ts;
  }

  /** Inside a word, nodes only add their text to what is heard. */
  lemma {:induction false} SpokenInside(ns: Nodes, us: seq<Token>, depth: nat, word: nat, heard: string)
    requires Closed(ns) && 0 < word <= depth
    ensures Spoken(Write(ns) + us, depth, word, heard) == Spoken(us, depth, word, heard + TextOf(ns))
    decreases ns
  {
    match ns
    case Nil =>
      assert [] + us == us && heard + "" == heard;
    case Chars(text, rest) =>
      assert Write(ns) + us == [Text(text)] + (Write(rest) + us);
      SpokenOne(Text(text), Write(rest) + us, depth, word, heard);
      SpokenInside(rest, us, depth, word, heard + text);
      assert heard + text + TextOf(rest) == heard + (text + TextOf(rest));
    case Skip(rest) =>
      assert Write(ns) + us == [Other] + (Write(rest) + us);
      SpokenOne(Other, Write(rest) + us, depth, word, heard);
      SpokenInside(rest, us, depth, word, heard);
    case Elem(name, attrs, kids, rest) =>
      var tail := Write(rest) + us;
      Regroup(Start(name, attrs), Write(kids), Write(rest), us);
      SpokenOne(Start(name, attrs), Write(kids) + ([End] + tail), depth, word, heard);
      SpokenInside(kids, [End] + tail, depth + 1, word, heard);
      SpokenOne(End, tail, depth + 1, word, heard + TextOf(kids));
      SpokenInside(rest, us, depth, word, heard + TextOf(kids));
      assert heard + TextOf(kids) + TextOf(rest) == heard + (TextOf(kids) + TextOf(rest));
  }

  /** Outside words, nodes yield the contents of the words among them. */
  lemma {:induction false} SpokenOutside(ns: Nodes, us: seq<Token>, depth: nat, inLine: bool)
    requires Closed(ns) && NotNested(ns, false, inLine)
    ensures Spoken(Write(ns) + us, depth, 0, "") == TreeContents(ns) + Spoken(us, depth, 0, "")
    decreases ns, 0
  {
    match ns
    case Nil =>
      assert [] + us == us;
    case Chars(text, rest) =>
      assert Write(ns) + us == [Text(text)] + (Write(rest) + us);
      SpokenOne(Text(text), Write(rest) + us, depth, 0, "");
      SpokenOutside(rest, us, depth, inLine);
    case Skip(rest) =>
      assert Write(ns) + us == [Other] + (Write(rest) + us);
      SpokenOne(Other, Write(rest) + us, depth, 0, "");
      SpokenOutside(rest, us, depth, inLine);
    case Elem(name, attrs, kids, rest) =>
      SpokenElem(name, attrs, kids, Write(rest) + us, depth, inLine);
      Regroup(Start(name, attrs), Write(kids), Write(rest), us);
      ElemContents(name, attrs, kids, rest);
      SpokenOutside(rest, us, depth, inLine);
      Associate(if IsWord(attrs) then [TextOf(kids)] else [], TreeContents(kids), TreeContents(rest), Spoken(us, depth, 0, ""));
  }

  lemma Associate(a: seq<string>, b: seq<string>, c: seq<string>, d: seq<string>)
    ensures a + b + c + d == a + b + (c + d)
  {
  }

  lemma {:induction false} SpokenElem(name: string, attrs: seq<Attr>, kids: Nodes, tail: seq<Token>, depth: nat, inLine: bool)
    requires Closed(kids) && NotNested(kids, IsWord(attrs), inLine || IsLine(attrs))
    ensures Spoken([Start(name, attrs)] + (Write(kids) + ([End] + tail)), depth, 0, "")
         == (if IsWord(attrs) then [TextOf(kids)] else []) + TreeContents(kids) + Spoken(tail, depth, 0, "")
    decreases kids, 1
  {
    SpokenOne(Start(name, attrs), Write(kids) + ([End] + tail), depth, 0, "");
    if IsWord(attrs) {
      SpokenInside(kids, [End] + tail, depth + 1, depth + 1, "");
      assert "" + TextOf(kids) == TextOf(kids);
      SpokenOne(End, tail, depth + 1, depth + 1, TextOf(kids));
      NoContents(kids, inLine || IsLine(attrs));
    } else {
      SpokenOutside(kids, [End] + tail, depth + 1, inLine || IsLine(attrs));
      SpokenOne(End, tail, depth + 1, 0, "");
    }
  }

  /**
   For every accepted stream: the words of the tree hold, in document order, exactly the
   text between each word's start and its end, whatever markup lies between.
   */
  lemma WordsSpoken(ts: seq<Token>)
    requires Decode(ts).Some?
    ensures Contents(Preorder(Decode(ts).value)) == Spoken(ts, 0, 0, "")
  {
    DecodeExactly(ts);
    AcceptedExactly(ts);
    ParseWrites(ts);
    var doc := Parse(ts).0;
    assert Write(doc) + [] == Write(doc);
    TopClosed(doc, false);
    SpokenOutside(doc, [], 0, false);
    RootContents(doc);
  }

  lemma RootContents(doc: Nodes)
    requires TopFits(doc, false)
    ensures Contents(Preorder(RootAfter(None, doc).GetOr(Blank))) == TreeContents(doc)
  {
    if Trees(doc) == [] {
      assert RootAfter(None, doc).GetOr(Blank) == Blank && !IsWord(Blank.attrs);
      assert Preorder(Blank) == [Blank] && [Blank][1..] == [];
    } else {
      SingleTree(doc);
      var root := Trees(doc)[0];
      assert Trees(doc) == [root] && [root][1..] == [];
      assert AllPreorder([root]) == Preorder(root) + AllPreorder([]) && Preorder(root) + [] == Preorder(root);
    }
  }

  lemma {:induction false} SingleTree(ns: Nodes)
    requires TopFits(ns, false) && Trees(ns) != []
    ensures |Trees(ns)| == 1
    decreases ns
  {
    match ns
    case Nil =>
    case Chars(_, rest) => SingleTree(rest);
    case Skip(rest) => SingleTree(rest);
    case Elem(_, _, _, rest) => NoSecondRoot(rest);
  }
}
