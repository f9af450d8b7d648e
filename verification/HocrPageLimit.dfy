/** Words and glyphs together never exceed the page limit. */
module HocrPageLimit {
  import opened Nullable
  import opened Strings
  import opened Hocr
  import opened HocrTraversal
  import opened HocrGlyphs
  import opened HocrTiling

  datatype Entry = Entry(word: Word, glyphs: seq<Glyph>)

  /** The cuts of the last title. */
  function LastCuts(attrs: seq<Attr>): seq<int> {
    if |attrs| == 0 then []
    else if attrs[|attrs| - 1].TitleAttr? then attrs[|attrs| - 1].title.cuts
    else LastCuts(attrs[..|attrs| - 1])
  }

  function Own(e: Element, line: string, cut: (Word, seq<int>) -> seq<Glyph>): seq<Entry> {
    match WordOf(e)
    case None => []
    case Some(word) => [Entry(word.(line := line), cut(word.(line := line), LastCuts(e.attrs)))]
  }

  /** Every kept word with its glyphs, in document order; `cut` makes the glyphs of one word. */
  function Entries(e: Element, current: string, cut: (Word, seq<int>) -> seq<Glyph>): seq<Entry> {
    Own(e, Inherited(e, current), cut) + AllEntries(e.children, Inherited(e, current), cut)
  }

  function AllEntries(es: seq<Element>, current: string, cut: (Word, seq<int>) -> seq<Glyph>): seq<Entry> {
    if |es| == 0 then [] else Entries(es[0], current, cut) + AllEntries(es[1..], current, cut)
  }

  /** One annotation per word and one per glyph. */
  function Annotations(es: seq<Entry>): nat {
    if |es| == 0 then 0 else Annotations(es[..|es| - 1]) + 1 + |es[|es| - 1].glyphs|
  }

  lemma {:induction false} AnnotationsConcat(a: seq<Entry>, b: seq<Entry>)
    ensures Annotations(a + b) == Annotations(a) + Annotations(b)
    decreases |b|
  {
    if |b| == 0 {
      assert a + b == a;
    } else {
      assert (a + b)[..|a + b| - 1] == a + b[..|b| - 1];
      AnnotationsConcat(a, b[..|b| - 1]);
    }
  }

  lemma {:induction false} AllEntriesSnoc(es: seq<Element>, i: nat, line: string, cut: (Word, seq<int>) -> seq<Glyph>)
    requires i < |es|
    ensures AllEntries(es[..i + 1], line, cut) == AllEntries(es[..i], line, cut) + Entries(es[i], line, cut)
    decreases i
  {
    if i == 0 {
      assert es[..1][1..] == [];
    } else {
      assert es[..i + 1][1..] == es[1..][..i] && es[..i][1..] == es[1..][..i - 1];
      AllEntriesSnoc(es[1..], i - 1, line, cut);
    }
  }

  lemma {:induction false} PrefixFits(es: seq<Element>, i: nat, line: string, cut: (Word, seq<int>) -> seq<Glyph>)
    requires i <= |es|
    ensures Annotations(AllEntries(es[..i], line, cut)) <= Annotations(AllEntries(es, line, cut))
    decreases |es| - i
  {
    if i == |es| {
      assert es[..i] == es;
    } else {
      AllEntriesSnoc(es, i, line, cut);
      AnnotationsConcat(AllEntries(es[..i], line, cut), Entries(es[i], line, cut));
      PrefixFits(es, i + 1, line, cut);
    }
  }

  /** One more child; if it exceeds the limit, so does the whole list. */
  lemma NextChild(words: seq<Entry>, es: seq<Element>, i: nat, line: string, cut: (Word, seq<int>) -> seq<Glyph>)
    requires i < |es|
    ensures words + AllEntries(es[..i], line, cut) + Entries(es[i], line, cut) == words + AllEntries(es[..i + 1], line, cut)
    ensures Annotations(words + AllEntries(es[..i + 1], line, cut)) <= Annotations(words + AllEntries(es, line, cut))
  {
    var before, next, upTo := AllEntries(es[..i], line, cut), Entries(es[i], line, cut), AllEntries(es[..i + 1], line, cut);
    assert upTo == before + next by { AllEntriesSnoc(es, i, line, cut); }
    Reassociate(words, before, next);
    AnnotationsConcat(words, upTo);
    AnnotationsConcat(words, AllEntries(es, line, cut));
    PrefixFits(es, i + 1, line, cut);
  }

  lemma Reassociate(a: seq<Entry>, b: seq<Entry>, c: seq<Entry>)
    ensures a + b + c == a + (b + c)
  {
  }

  /** What a walk returns: everything, or an error exactly when it would exceed the limit. */
  function Limited(es: seq<Entry>): Option<seq<Entry>> {
    if Annotations(es) <= MAX_ANNOTATIONS then Some(es) else None
  }

  method WalkGlyphs(e: Element, words: seq<Entry>, current: string, cut: (Word, seq<int>) -> seq<Glyph>)
    returns (r: Option<seq<Entry>>)
    requires Annotations(words) <= MAX_ANNOTATIONS
    ensures r == Limited(words + Entries(e, current, cut))
    decreases e, 1
  {
    var line := Inherited(e, current);
    var out := words;
    AnnotationsConcat(words, Own(e, line, cut));
    ghost var rest := AllEntries(e.children, line, cut);
    AnnotationsConcat(words + Own(e, line, cut), rest);
    assert words + Entries(e, current, cut) == words + Own(e, line, cut) + rest;
    if IsWord(e.attrs) {
      var w := ParseWord(e);
      if w.Some? {
        var glyphs := cut(w.value.(line := line), LastCuts(e.attrs));
        var used := Annotations(words);
        var entry := Entry(w.value.(line := line), glyphs);
        assert Own(e, line, cut) == [entry];
        assert [entry][..0] == [];
        if used >= MAX_ANNOTATIONS || |glyphs| > MAX_ANNOTATIONS - used - 1 { return None; }
        out := out + [entry];
      }
    }
    assert out == words + Own(e, line, cut);
    r := WalkChildren(e, out, line, cut);
  }

  method WalkChildren(e: Element, words: seq<Entry>, line: string, cut: (Word, seq<int>) -> seq<Glyph>)
    returns (r: Option<seq<Entry>>)
    requires Annotations(words) <= MAX_ANNOTATIONS
    ensures r == Limited(words + AllEntries(e.children, line, cut))
    decreases e, 0
  {
    var out := words;
    for i := 0 to |e.children|
      invariant out == words + AllEntries(e.children[..i], line, cut) && Annotations(out) <= MAX_ANNOTATIONS
    {
      NextChild(words, e.children, i, line, cut);
      var next := WalkGlyphs(e.children[i], out, line, cut);
      if next.None? { return None; }
      out := next.value;
    }
    assert e.children[..|e.children|] == e.children;
    r := Some(out);
  }

  function WordsOf(es: seq<Entry>): seq<Word> {
    seq(|es|, i requires 0 <= i < |es| => es[i].word)
  }

  /** The glyph walk meets the same words, in the same lines, as the plain word walk. */
  lemma {:induction false} SameAsWordWalk(e: Element, current: string, cut: (Word, seq<int>) -> seq<Glyph>)
    ensures WordsOf(Entries(e, current, cut)) == Words(e, current)
    decreases e, 0
  {
    AllSameAsWordWalk(e.children, Inherited(e, current), cut);
    assert WordsOf(Own(e, Inherited(e, current), cut)) == At(WordOf(e), Inherited(e, current));
  }

  lemma {:induction false} AllSameAsWordWalk(es: seq<Element>, current: string, cut: (Word, seq<int>) -> seq<Glyph>)
    ensures WordsOf(AllEntries(es, current, cut)) == AllWords(es, current)
    decreases es, 1
  {
    if |es| > 0 {
      SameAsWordWalk(es[0], current, cut);
      AllSameAsWordWalk(es[1..], current, cut);
    }
  }

  // ----- with the glyph cutter ------------------------------------------------------------------

  /** The cuts of each word, in the order of the walk. */
  function CutLists(e: Element): seq<seq<int>> {
    (if WordOf(e).Some? then [LastCuts(e.attrs)] else []) + AllCutLists(e.children)
  }

  function AllCutLists(es: seq<Element>): seq<seq<int>> {
    if |es| == 0 then [] else CutLists(es[0]) + AllCutLists(es[1..])
  }

  predicate OnPaper(b: BBox) {
    0 <= b.x1 && b.x2 <= MAX_INT64
  }

  /** Word by word, the glyphs are cut right. */
  ghost predicate AllCutRight(es: seq<Entry>, cuts: seq<seq<int>>) {
    && |cuts| == |es|
    && forall i :: 0 <= i < |es| && OnPaper(es[i].word.box) ==> CutRight(es[i].word, cuts[i], es[i].glyphs)
  }

  lemma OwnCutRight(e: Element, line: string)
    ensures AllCutRight(Own(e, line, CutWord), if WordOf(e).Some? then [LastCuts(e.attrs)] else [])
  {
    if WordOf(e).Some? {
      var w := WordOf(e).value.(line := line);
      TrimTwice(e.content);
      assert Tidy(w) == w;
      if OnPaper(w.box) { CutTextRight(w, LastCuts(e.attrs)); }
    }
  }

  lemma CutRightConcat(a: seq<Entry>, b: seq<Entry>, x: seq<seq<int>>, y: seq<seq<int>>)
    requires AllCutRight(a, x) && AllCutRight(b, y)
    ensures AllCutRight(a + b, x + y)
  {
    forall i | 0 <= i < |a + b| && OnPaper((a + b)[i].word.box) ensures CutRight((a + b)[i].word, (x + y)[i], (a + b)[i].glyphs) {
      if i >= |a| { assert (a + b)[i] == b[i - |a|] && (x + y)[i] == y[i - |a|]; }
    }
  }

  /** Every word a page walk meets has its glyphs cut right, by its own cuts. */
  lemma {:induction false} EntriesCutRight(e: Element, current: string)
    ensures AllCutRight(Entries(e, current, CutWord), CutLists(e))
    decreases e, 0
  {
    var line := Inherited(e, current);
    OwnCutRight(e, line);
    AllEntriesCutRight(e.children, line);
    CutRightConcat(Own(e, line, CutWord), AllEntries(e.children, line, CutWord),
                   if WordOf(e).Some? then [LastCuts(e.attrs)] else [], AllCutLists(e.children));
  }

  lemma {:induction false} AllEntriesCutRight(es: seq<Element>, current: string)
    ensures AllCutRight(AllEntries(es, current, CutWord), AllCutLists(es))
    decreases es, 1
  {
    if |es| > 0 {
      EntriesCutRight(es[0], current);
      AllEntriesCutRight(es[1..], current);
      CutRightConcat(Entries(es[0], current, CutWord), AllEntries(es[1..], current, CutWord), CutLists(es[0]), AllCutLists(es[1..]));
    }
  }

  /** A page's words with the glyphs cut from them: all of them within the limit, or an error. */
  method PageGlyphs(e: Element) returns (r: Option<seq<Entry>>)
    ensures r == Limited(Entries(e, "", CutWord))
    ensures r.Some? ==> Annotations(r.value) <= MAX_ANNOTATIONS && AllCutRight(r.value, CutLists(e)) && WordsOf(r.value) == Words(e, "")
  {
    r := WalkGlyphs(e, [], "", CutWord);
    assert [] + Entries(e, "", CutWord) == Entries(e, "", CutWord);
    EntriesCutRight(e, "");
    SameAsWordWalk(e, "", CutWord);
  }
}
