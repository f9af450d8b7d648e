/** Two walks over one decoded tree: lines with their words, and words with their line. */
module HocrTraversal {
  import opened Nullable
  import opened Strings
  import opened Hocr

  datatype Word = Word(id: string, text: string, box: BBox, confidence: real, line: string)

  datatype Line = Line(id: string, box: BBox, words: seq<Word>)

  const NoBBox := BBox(0, 0, 0, 0)

  // ----- reading one element's attributes: later ones win -----------------------------------

  function LastId(attrs: seq<Attr>): string {
    if |attrs| == 0 then ""
    else if attrs[|attrs| - 1].Id? then attrs[|attrs| - 1].value
    else LastId(attrs[..|attrs| - 1])
  }

  function FirstId(attrs: seq<Attr>): Option<string> {
    if |attrs| == 0 then None else if attrs[0].Id? then Some(attrs[0].value) else FirstId(attrs[1..])
  }

  function LastBox(attrs: seq<Attr>): BBox {
    if |attrs| == 0 then NoBBox
    else
      var a := attrs[|attrs| - 1];
      if a.TitleAttr? && a.title.box.HasBox? then a.title.box.box else LastBox(attrs[..|attrs| - 1])
  }

  function LastConfidence(attrs: seq<Attr>): real {
    if |attrs| == 0 then 0.0
    else
      var a := attrs[|attrs| - 1];
      if a.TitleAttr? && a.title.confidence.HasConfidence? then a.title.confidence.value else LastConfidence(attrs[..|attrs| - 1])
  }

  predicate BoxesReadable(attrs: seq<Attr>) {
    forall i :: 0 <= i < |attrs| && attrs[i].TitleAttr? ==> !attrs[i].title.box.BadBox?
  }

  predicate TitlesReadable(attrs: seq<Attr>) {
    BoxesReadable(attrs) && forall i :: 0 <= i < |attrs| && attrs[i].TitleAttr? ==> !attrs[i].title.confidence.BadConfidence?
  }

  /** A word element that is kept: readable, with an id and with text. */
  function WordOf(e: Element): Option<Word> {
    if IsWord(e.attrs) && TitlesReadable(e.attrs) && LastId(e.attrs) != "" && Trim(e.content) != ""
    then Some(Word(LastId(e.attrs), Trim(e.content), LastBox(e.attrs), LastConfidence(e.attrs), ""))
    else None
  }

  predicate LineKept(e: Element) {
    IsLine(e.attrs) && BoxesReadable(e.attrs) && LastId(e.attrs) != ""
  }

  method ParseWord(e: Element) returns (r: Option<Word>)
    requires IsWord(e.attrs)
    ensures r == WordOf(e)
  {
    var id, box, confidence := "", NoBBox, 0.0;
    for i := 0 to |e.attrs|
      invariant id == LastId(e.attrs[..i]) && box == LastBox(e.attrs[..i]) && confidence == LastConfidence(e.attrs[..i])
      invariant TitlesReadable(e.attrs[..i])
    {
      var a := e.attrs[i];
      assert e.attrs[..i + 1][..i] == e.attrs[..i] && e.attrs[..i + 1][i] == a;
      match a
      case Id(value, _) => id := value;
      case TitleAttr(title, _) =>
        if title.box.BadBox? { return None; }
        if title.box.HasBox? { box := title.box.box; }
        if title.confidence.BadConfidence? { return None; }
        if title.confidence.HasConfidence? { confidence := title.confidence.value; }
      case Class(_, _) =>
      case OtherAttr(_) =>
    }
    assert e.attrs[..|e.attrs|] == e.attrs;
    r := if id != "" && Trim(e.content) != "" then Some(Word(id, Trim(e.content), box, confidence, "")) else None;
  }

  // ----- the walks --------------------------------------------------------------------------------

  function At(w: Option<Word>, line: string): seq<Word> {
    match w case None => [] case Some(word) => [word.(line := line)]
  }

  /** findAllWordsInLine: a line without an id gets a made-up one per word. */
  function InLine(e: Element, line: string): seq<Word> {
    var w := WordOf(e);
    At(w, if line == "" && w.Some? then "line_" + w.value.id else line) + AllInLine(e.children, line)
  }

  function AllInLine(es: seq<Element>, line: string): seq<Word> {
    if |es| == 0 then [] else InLine(es[0], line) + AllInLine(es[1..], line)
  }

  function Lines(e: Element): seq<Line> {
    (if LineKept(e) then [Line(LastId(e.attrs), LastBox(e.attrs), InLine(e, LastId(e.attrs)))] else []) + AllLines(e.children)
  }

  function AllLines(es: seq<Element>): seq<Line> {
    if |es| == 0 then [] else Lines(es[0]) + AllLines(es[1..])
  }

  /** The line id a word below inherits: the first id of a line element that has one. */
  function Inherited(e: Element, current: string): string {
    if IsLine(e.attrs) then FirstId(e.attrs).GetOr(current) else current
  }

  function Words(e: Element, current: string): seq<Word> {
    At(WordOf(e), Inherited(e, current)) + AllWords(e.children, Inherited(e, current))
  }

  function AllWords(es: seq<Element>, current: string): seq<Word> {
    if |es| == 0 then [] else Words(es[0], current) + AllWords(es[1..], current)
  }

  method WalkLines(e: Element, lines: seq<Line>) returns (out: seq<Line>)
    ensures out == lines + Lines(e)
    decreases e
  {
    out := lines;
    if LineKept(e) { out := out + [Line(LastId(e.attrs), LastBox(e.attrs), InLine(e, LastId(e.attrs)))]; }
    ghost var before := out;
    for i := 0 to |e.children|
      invariant out == before + AllLines(e.children[..i])
    {
      AllLinesSnoc(e.children, i);
      out := WalkLines(e.children[i], out);
    }
    assert e.children[..|e.children|] == e.children;
  }

  method WalkWords(e: Element, words: seq<Word>, current: string) returns (out: seq<Word>)
    ensures out == words + Words(e, current)
    decreases e, 1
  {
    var line := Inherited(e, current);
    out := words;
    if IsWord(e.attrs) {
      var w := ParseWord(e);
      if w.Some? { out := out + [w.value.(line := line)]; }
    }
    assert out == words + At(WordOf(e), line);
    out := WalkChildren(e, out, line);
  }

  method WalkChildren(e: Element, words: seq<Word>, line: string) returns (out: seq<Word>)
    ensures out == words + AllWords(e.children, line)
    decreases e, 0
  {
    out := words;
    for i := 0 to |e.children|
      invariant out == words + AllWords(e.children[..i], line)
    {
      NextChild(words, e.children, i, line);
      out := WalkWords(e.children[i], out, line);
    }
    assert e.children[..|e.children|] == e.children;
  }

  lemma NextChild(words: seq<Word>, es: seq<Element>, i: nat, line: string)
    requires i < |es|
    ensures words + AllWords(es[..i], line) + Words(es[i], line) == words + AllWords(es[..i + 1], line)
  {
    AllWordsSnoc(es, i, line);
  }

  lemma {:induction false} AllLinesSnoc(es: seq<Element>, i: nat)
    requires i < |es|
    ensures AllLines(es[..i + 1]) == AllLines(es[..i]) + Lines(es[i])
    decreases i
  {
    if i == 0 {
      assert es[..1][1..] == [];
    } else {
      assert es[..i + 1][1..] == es[1..][..i] && es[..i][1..] == es[1..][..i - 1];
      AllLinesSnoc(es[1..], i - 1);
    }
  }

  lemma {:induction false} AllWordsSnoc(es: seq<Element>, i: nat, line: string)
    requires i < |es|
    ensures AllWords(es[..i + 1], line) == AllWords(es[..i], line) + Words(es[i], line)
    decreases i
  {
    if i == 0 {
      assert es[..1][1..] == [];
    } else {
      assert es[..i + 1][1..] == es[1..][..i] && es[..i][1..] == es[1..][..i - 1];
      AllWordsSnoc(es[1..], i - 1, line);
    }
  }

  // ----- the walks agree -------------------------------------------------------------------------------

  function Flatten(lines: seq<Line>): seq<Word> {
    if |lines| == 0 then [] else lines[0].words + Flatten(lines[1..])
  }

  /** The words of the second walk that lie in a kept line. */
  function KeptWords(e: Element, current: string, kept: bool): seq<Word> {
    var inside := if IsLine(e.attrs) then LineKept(e) else kept;
    (if inside then At(WordOf(e), Inherited(e, current)) else []) + AllKeptWords(e.children, Inherited(e, current), inside)
  }

  function AllKeptWords(es: seq<Element>, current: string, kept: bool): seq<Word> {
    if |es| == 0 then [] else KeptWords(es[0], current, kept) + AllKeptWords(es[1..], current, kept)
  }

  predicate NoLines(e: Element) {
    !IsLine(e.attrs) && AllNoLines(e.children)
  }

  predicate AllNoLines(es: seq<Element>) {
    |es| == 0 || (NoLines(es[0]) && AllNoLines(es[1..]))
  }

  /** No line below a line: what the decoder enforces. */
  predicate FlatLines(e: Element) {
    if IsLine(e.attrs) then AllNoLines(e.children) else AllFlatLines(e.children)
  }

  predicate AllFlatLines(es: seq<Element>) {
    |es| == 0 || (FlatLines(es[0]) && AllFlatLines(es[1..]))
  }

  /** A kept line with words names itself the same way first and last. */
  predicate IdsAgree(e: Element) {
    && (LineKept(e) && InLine(e, LastId(e.attrs)) != [] ==> FirstId(e.attrs) == Some(LastId(e.attrs)))
    && AllIdsAgree(e.children)
  }

  predicate AllIdsAgree(es: seq<Element>) {
    |es| == 0 || (IdsAgree(es[0]) && AllIdsAgree(es[1..]))
  }

  lemma {:induction false} FlattenConcat(a: seq<Line>, b: seq<Line>)
    ensures Flatten(a + b) == Flatten(a) + Flatten(b)
    decreases |a|
  {
    if |a| == 0 {
      assert a + b == b;
    } else {
      assert (a + b)[1..] == a[1..] + b;
      FlattenConcat(a[1..], b);
    }
  }

  lemma {:induction false} NoLinesNoLines(es: seq<Element>)
    requires AllNoLines(es)
    ensures AllLines(es) == [] && AllIdsAgree(es)
    decreases es, 1
  {
    if |es| > 0 {
      NoLinesNoLines(es[0].children);
      NoLinesNoLines(es[1..]);
    }
  }

  /** Below a line, both walks meet the same words; only the line they name may differ. */
  predicate SameWords(kept: seq<Word>, inLine: seq<Word>, current: string, id: string) {
    && |kept| == |inLine|
    && forall i :: 0 <= i < |kept| ==> inLine[i].line == id && kept[i] == inLine[i].(line := current)
  }

  lemma SameWordsConcat(a: seq<Word>, b: seq<Word>, c: seq<Word>, d: seq<Word>, current: string, id: string)
    requires SameWords(a, c, current, id) && SameWords(b, d, current, id)
    ensures SameWords(a + b, c + d, current, id)
  {
  }

  lemma SameWordsEqual(kept: seq<Word>, inLine: seq<Word>, current: string, id: string)
    requires SameWords(kept, inLine, current, id)
    ensures kept == inLine <==> kept == [] || current == id
  {
    if kept == inLine && kept != [] { assert kept[0].line == current && inLine[0].line == id; }
  }

  lemma {:induction false} BelowLine(es: seq<Element>, current: string, id: string)
    requires AllNoLines(es) && id != ""
    ensures SameWords(AllKeptWords(es, current, true), AllInLine(es, id), current, id)
    ensures AllKeptWords(es, current, false) == []
    decreases es, 1
  {
    if |es| > 0 {
      var e := es[0];
      BelowLine(e.children, current, id);
      BelowLine(es[1..], current, id);
      SameWordsConcat(At(WordOf(e), current), AllKeptWords(e.children, current, true), At(WordOf(e), id), AllInLine(e.children, id), current, id);
      SameWordsConcat(KeptWords(e, current, true), AllKeptWords(es[1..], current, true), InLine(e, id), AllInLine(es[1..], id), current, id);
    }
  }

  lemma {:induction false} IdFound(attrs: seq<Attr>)
    requires FirstId(attrs).None?
    ensures LastId(attrs) == ""
    decreases |attrs|
  {
    if |attrs| > 0 {
      NoneBefore(attrs);
      IdFound(attrs[..|attrs| - 1]);
    }
  }

  lemma {:induction false} NoneBefore(attrs: seq<Attr>)
    requires |attrs| > 0 && FirstId(attrs).None?
    ensures FirstId(attrs[..|attrs| - 1]).None? && !attrs[|attrs| - 1].Id?
    decreases |attrs|
  {
    if |attrs| > 1 {
      NoneBefore(attrs[1..]);
      assert attrs[..|attrs| - 1][1..] == attrs[1..][..|attrs| - 2];
    }
  }

  lemma ConcatEqual(a: seq<Word>, b: seq<Word>, c: seq<Word>, d: seq<Word>)
    requires |a| == |c|
    ensures a + b == c + d <==> a == c && b == d
  {
    if a + b == c + d {
      assert a == (a + b)[..|a|] && b == (a + b)[|a|..] && c == (c + d)[..|a|] && d == (c + d)[|a|..];
    }
  }

  lemma LineAgrees(e: Element, current: string)
    requires IsLine(e.attrs) && AllNoLines(e.children)
    ensures |Flatten(Lines(e))| == |KeptWords(e, current, false)|
    ensures Flatten(Lines(e)) == KeptWords(e, current, false) <==> IdsAgree(e)
  {
    NoLinesNoLines(e.children);
    var id, inherited := LastId(e.attrs), Inherited(e, current);
    if LineKept(e) {
      if FirstId(e.attrs).None? { IdFound(e.attrs); }
      BelowLine(e.children, inherited, id);
      SameWordsConcat(At(WordOf(e), inherited), AllKeptWords(e.children, inherited, true), At(WordOf(e), id), AllInLine(e.children, id), inherited, id);
      SameWordsEqual(KeptWords(e, current, false), InLine(e, id), inherited, id);
      assert Flatten(Lines(e)) == InLine(e, id) + Flatten([]);
    } else {
      BelowLine(e.children, inherited, "line");
    }
  }

  lemma {:induction false} ElementsAgree(es: seq<Element>, current: string)
    requires AllFlatLines(es)
    ensures |Flatten(AllLines(es))| == |AllKeptWords(es, current, false)|
    ensures Flatten(AllLines(es)) == AllKeptWords(es, current, false) <==> AllIdsAgree(es)
    decreases es, 1
  {
    if |es| > 0 {
      ElementAgrees(es[0], current);
      ElementsAgree(es[1..], current);
      FlattenConcat(Lines(es[0]), AllLines(es[1..]));
      ConcatEqual(Flatten(Lines(es[0])), Flatten(AllLines(es[1..])), KeptWords(es[0], current, false), AllKeptWords(es[1..], current, false));
    }
  }

  /**
   Without nested lines, the lines' words are the words in kept lines, in order and
   with the same line id, exactly when every kept line with words has one id.
   */
  lemma {:induction false} ElementAgrees(e: Element, current: string)
    requires FlatLines(e)
    ensures |Flatten(Lines(e))| == |KeptWords(e, current, false)|
    ensures Flatten(Lines(e)) == KeptWords(e, current, false) <==> IdsAgree(e)
    decreases e, 0
  {
    if IsLine(e.attrs) {
      LineAgrees(e, current);
    } else {
      ElementsAgree(e.children, current);
      assert Lines(e) == AllLines(e.children);
    }
  }
}
