/** The two walks on decoded documents. */
module HocrAgreement {
  import opened Nullable
  import opened Strings
  import opened Hocr
  import opened HocrDecode
  import opened HocrDocument
  import opened HocrLimits
  import opened HocrTraversal

  // ----- kept words are a selection of the words ------------------------------------------------

  /** For each word of the second walk, whether it lies in a kept line. */
  function Tags(e: Element, kept: bool): seq<bool> {
    var inside := if IsLine(e.attrs) then LineKept(e) else kept;
    (if WordOf(e).Some? then [inside] else []) + AllTags(e.children, inside)
  }

  function AllTags(es: seq<Element>, kept: bool): seq<bool> {
    if |es| == 0 then [] else Tags(es[0], kept) + AllTags(es[1..], kept)
  }

  function Select(ws: seq<Word>, tags: seq<bool>): seq<Word>
    requires |ws| == |tags|
  {
    if |ws| == 0 then [] else (if tags[0] then [ws[0]] else []) + Select(ws[1..], tags[1..])
  }

  lemma {:induction false} SelectConcat(a: seq<Word>, s: seq<bool>, b: seq<Word>, t: seq<bool>)
    requires |a| == |s| && |b| == |t|
    ensures Select(a + b, s + t) == Select(a, s) + Select(b, t)
    decreases |a|
  {
    if |a| == 0 {
      assert a + b == b && s + t == t;
    } else {
      assert a + b == [a[0]] + (a[1..] + b) && s + t == [s[0]] + (s[1..] + t);
      SelectOne(a[0], s[0], a[1..] + b, s[1..] + t);
      SelectConcat(a[1..], s[1..], b, t);
    }
  }

  lemma SelectOne(w: Word, tag: bool, ws: seq<Word>, tags: seq<bool>)
    requires |ws| == |tags|
    ensures Select([w] + ws, [tag] + tags) == (if tag then [w] else []) + Select(ws, tags)
  {
    assert ([w] + ws)[1..] == ws && ([tag] + tags)[1..] == tags;
  }

  lemma {:induction false} KeptAreSelected(es: seq<Element>, current: string, kept: bool)
    ensures |AllTags(es, kept)| == |AllWords(es, current)|
    ensures AllKeptWords(es, current, kept) == Select(AllWords(es, current), AllTags(es, kept))
    decreases es, 1
  {
    if |es| > 0 {
      KeptIsSelected(es[0], current, kept);
      KeptAreSelected(es[1..], current, kept);
      SelectConcat(Words(es[0], current), Tags(es[0], kept), AllWords(es[1..], current), AllTags(es[1..], kept));
    }
  }

  lemma {:induction false} KeptIsSelected(e: Element, current: string, kept: bool)
    ensures |Tags(e, kept)| == |Words(e, current)|
    ensures KeptWords(e, current, kept) == Select(Words(e, current), Tags(e, kept))
    decreases e, 0
  {
    var inside, line := if IsLine(e.attrs) then LineKept(e) else kept, Inherited(e, current);
    KeptAreSelected(e.children, line, inside);
    var own, tag := At(WordOf(e), line), if WordOf(e).Some? then [inside] else [];
    SelectConcat(own, tag, AllWords(e.children, line), AllTags(e.children, inside));
    if WordOf(e).Some? { assert own[1..] == [] && tag[1..] == []; }
  }

  // ----- decoded trees have flat lines --------------------------------------------------------------

  lemma {:induction false} TreesFlat(ns: Nodes, inWord: bool, inLine: bool)
    requires NotNested(ns, inWord, inLine)
    ensures inLine ==> AllNoLines(Trees(ns))
    ensures AllFlatLines(Trees(ns))
    decreases ns
  {
    match ns
    case Nil =>
    case Chars(_, rest) => TreesFlat(rest, inWord, inLine);
    case Skip(rest) => TreesFlat(rest, inWord, inLine);
    case Unclosed(_, _, _) =>
    case Elem(name, attrs, kids, rest) =>
      TreesFlat(kids, inWord || IsWord(attrs), inLine || IsLine(attrs));
      TreesFlat(rest, inWord, inLine);
      assert Trees(ns)[0] == Finished(name, attrs, kids) && Trees(ns)[1..] == Trees(rest);
  }

  lemma DecodedFlat(ts: seq<Token>)
    requires Decode(ts).Some?
    ensures FlatLines(Decode(ts).value)
  {
    DecodeExactly(ts);
    AcceptedExactly(ts);
    var doc := Parse(ts).0;
    TreesFlat(doc, false, false);
  }

  /**
   On every accepted stream: the concatenated words of the lines are exactly the
   words, in order and with the same line, that lie in a line with an id and a
   readable box, if and only if each such line with words has the same first and
   last id.
   */
  lemma DecodedWalksAgree(ts: seq<Token>)
    requires Decode(ts).Some?
    ensures
      var root := Decode(ts).value;
      && |Tags(root, false)| == |Words(root, "")|
      && (Flatten(Lines(root)) == Select(Words(root, ""), Tags(root, false)) <==> IdsAgree(root))
  {
    var root := Decode(ts).value;
    DecodedFlat(ts);
    ElementAgrees(root, "");
    KeptIsSelected(root, "", false);
  }

  // ----- one id per element is enough, two are not ------------------------------------------------------

  predicate OneId(attrs: seq<Attr>) {
    forall i, j :: 0 <= i < |attrs| && 0 <= j < |attrs| && attrs[i].Id? && attrs[j].Id? ==> i == j
  }

  predicate OneIdEach(e: Element) {
    OneId(e.attrs) && AllOneIdEach(e.children)
  }

  predicate AllOneIdEach(es: seq<Element>) {
    |es| == 0 || (OneIdEach(es[0]) && AllOneIdEach(es[1..]))
  }

  lemma {:induction false} FirstIdAt(attrs: seq<Attr>)
    requires FirstId(attrs).Some?
    ensures exists i :: 0 <= i < |attrs| && attrs[i].Id? && attrs[i].value == FirstId(attrs).value
    decreases |attrs|
  {
    if !attrs[0].Id? {
      FirstIdAt(attrs[1..]);
      var i :| 0 <= i < |attrs[1..]| && attrs[1..][i].Id? && attrs[1..][i].value == FirstId(attrs).value;
      assert attrs[i + 1].Id?;
    }
  }

  lemma {:induction false} LastIdAt(attrs: seq<Attr>)
    requires LastId(attrs) != ""
    ensures exists i :: 0 <= i < |attrs| && attrs[i].Id? && attrs[i].value == LastId(attrs)
    decreases |attrs|
  {
    if !attrs[|attrs| - 1].Id? {
      LastIdAt(attrs[..|attrs| - 1]);
      var i :| 0 <= i < |attrs| - 1 && attrs[..|attrs| - 1][i].Id? && attrs[..|attrs| - 1][i].value == LastId(attrs);
      assert attrs[i].Id?;
    }
  }

  lemma {:induction false} OneIdAgrees(e: Element)
    requires OneIdEach(e)
    ensures IdsAgree(e)
    decreases e, 0
  {
    if LastId(e.attrs) != "" {
      if FirstId(e.attrs).None? { IdFound(e.attrs); }
      FirstIdAt(e.attrs);
      LastIdAt(e.attrs);
    }
    AllOneIdAgree(e.children);
  }

  lemma {:induction false} AllOneIdAgree(es: seq<Element>)
    requires AllOneIdEach(es)
    ensures AllIdsAgree(es)
    decreases es, 1
  {
    if |es| > 0 {
      OneIdAgrees(es[0]);
      AllOneIdAgree(es[1..]);
    }
  }

  const OneWord := Element("span", [Class(["ocrx_word"], 14), Id("w", 3)], "x", [])
  const TwoIds := Element("span", [Class(["ocr_line"], 13), Id("a", 3), Id("b", 3)], "", [OneWord])

  lemma WitnessClasses()
    ensures IsWord(OneWord.attrs) && !IsLine(OneWord.attrs) && IsLine(TwoIds.attrs) && !IsWord(TwoIds.attrs)
    ensures BoxesReadable(TwoIds.attrs) && TitlesReadable(OneWord.attrs)
  {
    assert OneWord.attrs[0].Class? && "ocrx_word" in OneWord.attrs[0].names;
    assert TwoIds.attrs[0].Class? && "ocr_line" in TwoIds.attrs[0].names;
  }

  lemma WitnessIds()
    ensures LastId(OneWord.attrs) == "w" && LastId(TwoIds.attrs) == "b" && FirstId(TwoIds.attrs) == Some("a")
  {
    var attrs := TwoIds.attrs;
    assert !attrs[0].Id? && attrs[1..][0] == Id("a", 3);
    assert FirstId(attrs) == FirstId(attrs[1..]);
  }

  lemma WitnessWord()
    ensures |InLine(OneWord, "b")| == 1 && InLine(OneWord, "b")[0].line == "b"
    ensures |Words(OneWord, "a")| == 1 && Words(OneWord, "a")[0].line == "a"
  {
    WitnessClasses();
    WitnessIds();
    assert Trim("x") == "x";
  }

  const TwoIdsTokens := [Start("span", TwoIds.attrs), Start("span", OneWord.attrs), Text("x"), End, End]

  lemma WitnessBytes()
    ensures AttrsFit(TwoIds.attrs) && AttrsFit(OneWord.attrs)
  {
    var a, b := TwoIds.attrs, OneWord.attrs;
    assert a[..2][..1] == a[..1] && a[..1][..0] == [] && b[..1][..0] == [];
    assert AttrBytes(a[..1]) == 13 && AttrBytes(a[..2]) == 16 && AttrBytes(b[..1]) == 14;
  }

  lemma WitnessText()
    ensures Bytes("x") == 1
  {
    assert "x"[1..] == "" && Bytes("") == 0;
  }

  const LineFrame := Frame("span", TwoIds.attrs, [], false, true, "")
  const WordFrame := Frame("span", OneWord.attrs, [], true, false, "")

  lemma WitnessOpens()
    ensures Open(Initial, "span", TwoIds.attrs) == Some(State([LineFrame], 1, None))
    ensures Open(State([LineFrame], 1, None), "span", OneWord.attrs) == Some(State([LineFrame, WordFrame], 2, None))
  {
    WitnessClasses();
    WitnessBytes();
    assert !AnyCapture([LineFrame]);
    assert [] + [LineFrame] == [LineFrame] && [LineFrame] + [WordFrame] == [LineFrame, WordFrame];
  }

  lemma WitnessCloses()
    ensures Step(State([LineFrame, WordFrame], 2, None), Text("x")) == Some(State([LineFrame, WordFrame.(content := "x")], 2, None))
    ensures Close(State([LineFrame, WordFrame.(content := "x")], 2, None)) == Some(State([LineFrame.(children := [OneWord])], 2, None))
    ensures Close(State([LineFrame.(children := [OneWord])], 2, None)) == Some(State([], 2, Some(TwoIds)))
  {
    WitnessText();
    var frames := [LineFrame, WordFrame];
    assert "" + "x" == "x" && Bytes("") == 0;
    assert WriteText(frames, "x") == [LineFrame, WordFrame.(content := "x")] && TextFits(frames, "x");
    assert [] + [OneWord] == [OneWord];
    assert frames[..0] + [LineFrame.(children := [OneWord])] == [LineFrame.(children := [OneWord])];
  }

  /** The line as it comes from the lexer. */
  lemma TwoIdsDecoded()
    ensures Decode(TwoIdsTokens) == Some(TwoIds)
  {
    WitnessOpens();
    WitnessCloses();
    var ts := TwoIdsTokens;
    assert [ts[0]] + ts[1..] == ts && [ts[1]] + ts[2..] == ts[1..] && [ts[2]] + ts[3..] == ts[2..];
    assert [ts[3]] + ts[4..] == ts[3..] && [ts[4]] + [] == ts[4..];
    RunOne(Initial, ts[0], ts[1..]);
    RunOne(State([LineFrame], 1, None), ts[1], ts[2..]);
    RunOne(State([LineFrame, WordFrame], 2, None), ts[2], ts[3..]);
    RunOne(State([LineFrame, WordFrame.(content := "x")], 2, None), ts[3], ts[4..]);
    RunOne(State([LineFrame.(children := [OneWord])], 2, None), ts[4], []);
  }

  /** A line with two ids: the walks put its word in different lines. */
  lemma TwoIdsDisagree()
    ensures Decode(TwoIdsTokens) == Some(TwoIds) && FlatLines(TwoIds) && !IdsAgree(TwoIds)
    ensures |Flatten(Lines(TwoIds))| == 1 && Flatten(Lines(TwoIds))[0].line == "b"
    ensures |Words(TwoIds, "")| == 1 && Words(TwoIds, "")[0].line == "a"
  {
    TwoIdsDecoded();
    WitnessClasses();
    WitnessIds();
    WitnessWord();
    var es := [OneWord];
    assert TwoIds.children == es && es[1..] == [];
    assert AllNoLines(es);
    NoLinesNoLines(es);
    assert AllInLine(es, "b") == InLine(OneWord, "b") + AllInLine([], "b");
    assert AllWords(es, "a") == Words(OneWord, "a") + AllWords([], "a");
    assert Flatten(Lines(TwoIds)) == InLine(TwoIds, "b") + Flatten([]);
  }
}
