/** Generated hOCR, at the level of tokens, parses back to what was transcribed. */
module HocrGenerate {
  import opened Nullable
  import opened Strings
  import opened Hocr
  import opened HocrDecode
  import opened HocrDocument
  import opened HocrLimits
  import opened HocrTraversal
  import opened HocrParse
  import HocrGlyphs
  import HocrPool
  import HocrOrder

  type Transcribed = HocrPool.Transcribed

  // ----- numbers -------------------------------------------------------------------------------

  function Digit(n: nat): char
    requires n < 10
  {
    '0' + n as char
  }

  function Decimal(n: nat): string {
    if n < 10 then [Digit(n)] else Decimal(n / 10) + [Digit(n % 10)]
  }

  function Signed(n: int): string {
    if n < 0 then "-" + Decimal(-n) else Decimal(n)
  }

  function Power10(k: nat): nat {
    if k == 0 then 1 else 10 * Power10(k - 1)
  }

  lemma {:induction false} DecimalLength(n: nat, k: nat)
    requires k > 0 && n < Power10(k)
    ensures |Decimal(n)| <= k
    decreases k
  {
    if n >= 10 { DecimalLength(n / 10, k - 1); }
  }

  predicate Int64(n: int) {
    -HocrGlyphs.MAX_INT64 - 1 <= n <= HocrGlyphs.MAX_INT64
  }

  lemma SignedLength(n: int)
    requires Int64(n)
    ensures |Signed(n)| <= 20
  {
    assert Power10(10) == 10_000_000_000;
    assert Power10(19) == 10_000_000_000_000_000_000 by {
      assert Power10(12) == 1_000_000_000_000;
      assert Power10(14) == 100_000_000_000_000;
      assert Power10(16) == 10_000_000_000_000_000;
      assert Power10(18) == 1_000_000_000_000_000_000;
    }
    DecimalLength(if n < 0 then -n else n, 19);
  }

  function Value(s: string): int {
    if |s| == 0 then 0 else 10 * Value(s[..|s| - 1]) + (s[|s| - 1] as int - '0' as int)
  }

  /** A number is read back from its digits, so two numbers never print alike. */
  lemma {:induction false} DecimalReadBack(n: nat)
    ensures Value(Decimal(n)) == n
  {
    if n < 10 {
      assert [Digit(n)][..0] == "";
    } else {
      DecimalReadBack(n / 10);
      var s := Decimal(n);
      assert s[..|s| - 1] == Decimal(n / 10) && s[|s| - 1] == Digit(n % 10);
    }
  }

  // ----- what is written --------------------------------------------------------------------------

  /** Right and bottom edges are added in 64 bits. */
  function Corners(w: Transcribed): BBox {
    BBox(w.x, w.y, HocrGlyphs.Wrap(w.x + w.width), HocrGlyphs.Wrap(w.y + w.height))
  }

  predicate Nonnegative(b: BBox) {
    b.x1 >= 0 && b.y1 >= 0 && b.x2 >= 0 && b.y2 >= 0
  }

  /** The pattern that reads a box back matches digits only. */
  function Printed(b: BBox): BoxField {
    if Nonnegative(b) then HasBox(b) else NoBox
  }

  function BoxText(b: BBox): string {
    "bbox " + Signed(b.x1) + " " + Signed(b.y1) + " " + Signed(b.x2) + " " + Signed(b.y2)
  }

  function LineId(w: Transcribed): string {
    "line_" + Decimal(w.id)
  }

  function WordId(w: Transcribed): string {
    "word_" + Decimal(w.id) + "_0"
  }

  /** Different lines get different ids, and so do their words. */
  lemma IdsDistinct(v: Transcribed, w: Transcribed)
    ensures LineId(v) == LineId(w) <==> v.id == w.id
    ensures WordId(v) == WordId(w) <==> v.id == w.id
  {
    DecimalReadBack(v.id);
    DecimalReadBack(w.id);
    assert LineId(v)[5..] == Decimal(v.id) && LineId(w)[5..] == Decimal(w.id);
    assert WordId(v)[5..|WordId(v)| - 2] == Decimal(v.id) && WordId(w)[5..|WordId(w)| - 2] == Decimal(w.id);
  }

  function LineAttrs(w: Transcribed): seq<Attr> {
    [ Class(["ocr_line"], 13), Id(LineId(w), 2 + |LineId(w)|),
      TitleAttr(Title(Printed(Corners(w)), NoConfidence, []), 5 + |BoxText(Corners(w))|) ]
  }

  function WordAttrs(w: Transcribed): seq<Attr> {
    [ Class(["ocrx_word"], 14), Id(WordId(w), 2 + |WordId(w)|),
      TitleAttr(Title(Printed(Corners(w)), HasConfidence(85.0), []), 5 + |BoxText(Corners(w))| + |"; x_wconf 85"|) ]
  }

  /** One line holding one word, and a newline after it. */
  function Span(w: Transcribed, rest: Nodes): Nodes {
    Elem("span", LineAttrs(w), Elem("span", WordAttrs(w), Chars(w.text, Nil), Nil), Chars("\n", rest))
  }

  function Spans(ws: seq<Transcribed>): Nodes {
    if |ws| == 0 then Nil else Span(ws[0], Spans(ws[1..]))
  }

  function Page(ws: seq<Transcribed>): Nodes {
    if ws == [] then Chars("\n\n", Nil) else Chars("\n", Spans(ws))
  }

  function Meta(a: nat, b: nat, rest: Nodes): Nodes {
    Elem("meta", [OtherAttr(a), OtherAttr(b)], Nil, Chars("\n", rest))
  }

  const Head: Nodes := Chars("\n", Elem("title", [], Nil, Chars("\n", Meta(22, 30, Meta(14, 26, Meta(20, 50, Nil))))))

  function PageAttrs(width: nat, height: nat): seq<Attr> {
    [ Class(["ocr_page"], 13), Id("page_1", 8),
      TitleAttr(Title(HasBox(BBox(0, 0, width, height)), NoConfidence, []), 5 + |BoxText(BBox(0, 0, width, height))|) ]
  }

  function Body(ws: seq<Transcribed>, width: nat, height: nat): Nodes {
    Chars("\n", Elem("div", PageAttrs(width, height), Page(ws), Chars("\n", Nil)))
  }

  function Html(ws: seq<Transcribed>, width: nat, height: nat): Nodes {
    Chars("\n", Elem("head", [], Head, Chars("\n", Elem("body", [], Body(ws, width, height), Chars("\n", Nil)))))
  }

  const HtmlAttrs := [OtherAttr(33), OtherAttr(42), OtherAttr(6)]

  function Document(ws: seq<Transcribed>, width: nat, height: nat): Nodes {
    Skip(Chars("\n", Skip(Chars("\n", Elem("html", HtmlAttrs, Html(ws, width, height), Nil)))))
  }

  /** What parsing should find: one line with one word per transcribed region. */
  function Read(b: BoxField): BBox {
    if b.HasBox? then b.box else NoBBox
  }

  function ExpectedWord(w: Transcribed): Word {
    Word(WordId(w), w.text, Read(Printed(Corners(w))), 85.0, LineId(w))
  }

  function ExpectedLines(ws: seq<Transcribed>): seq<Line> {
    if |ws| == 0 then []
    else [Line(LineId(ws[0]), Read(Printed(Corners(ws[0]))), [ExpectedWord(ws[0])])] + ExpectedLines(ws[1..])
  }

  /** Text that fits a word, and numbers that fit an int. */
  predicate Sized(w: Transcribed) {
    Bytes(w.text) <= MAX_WORD_BYTES && Int64(w.id) && Int64(w.x) && Int64(w.y)
  }

  /** ... and text that is not blank and has no outer white space. */
  predicate Writable(w: Transcribed) {
    w.text != "" && Trim(w.text) == w.text && Sized(w)
  }

  predicate AllWritable(ws: seq<Transcribed>) {
    forall i :: 0 <= i < |ws| ==> Writable(ws[i])
  }

  // ----- within limits -----------------------------------------------------------------------------------

  lemma BoxTextLength(b: BBox)
    requires Int64(b.x1) && Int64(b.y1) && Int64(b.x2) && Int64(b.y2)
    ensures |BoxText(b)| <= 88
  {
    SignedLength(b.x1);
    SignedLength(b.y1);
    SignedLength(b.x2);
    SignedLength(b.y2);
  }

  lemma ThreeBytes(a: Attr, b: Attr, c: Attr)
    ensures AttrBytes([a, b, c]) == a.size + b.size + c.size
  {
    var s := [a, b, c];
    assert s[..2] == [a, b] && [a, b][..1] == [a] && [a][..0] == [];
    assert AttrBytes([a]) == a.size;
    assert AttrBytes([a, b]) == a.size + b.size;
  }

  lemma SpanAttrsFit(w: Transcribed)
    requires Writable(w)
    ensures AttrsFit(LineAttrs(w)) && AttrsFit(WordAttrs(w))
  {
    BoxTextLength(Corners(w));
    SignedLength(w.id);
    ThreeBytes(LineAttrs(w)[0], LineAttrs(w)[1], LineAttrs(w)[2]);
    ThreeBytes(WordAttrs(w)[0], WordAttrs(w)[1], WordAttrs(w)[2]);
  }

  /** Classes of the attribute lists written here. */
  lemma ThreeClass(names: seq<string>, size: nat, b: Attr, c: Attr, name: string)
    requires !b.Class? && !c.Class?
    ensures HasClass([Class(names, size), b, c], name) <==> name in names
  {
    var s := [Class(names, size), b, c];
    assert s[0].Class? && s[0].names == names;
  }

  lemma SpanClasses(w: Transcribed)
    ensures IsLine(LineAttrs(w)) && !IsWord(LineAttrs(w)) && IsWord(WordAttrs(w)) && !IsLine(WordAttrs(w))
  {
    ThreeClass(["ocr_line"], 13, LineAttrs(w)[1], LineAttrs(w)[2], "ocr_line");
    ThreeClass(["ocr_line"], 13, LineAttrs(w)[1], LineAttrs(w)[2], "ocrx_word");
    ThreeClass(["ocrx_word"], 14, WordAttrs(w)[1], WordAttrs(w)[2], "ocr_line");
    ThreeClass(["ocrx_word"], 14, WordAttrs(w)[1], WordAttrs(w)[2], "ocrx_word");
  }

  /** Closed, at most `depth` deep, exactly `count` elements, and within every other limit. */
  predicate Fine(ns: Nodes, depth: nat, count: nat) {
    && Closed(ns) && Proper(ns) && Depth(ns) <= depth && Count(ns) == count
    && EveryAttrsFit(ns) && NotNested(ns, false, false) && WordsFit(ns)
  }

  predicate Plain(attrs: seq<Attr>) {
    AttrsFit(attrs) && !IsWord(attrs) && !IsLine(attrs)
  }

  lemma FineElem(name: string, attrs: seq<Attr>, kids: Nodes, depth: nat, count: nat, rest: Nodes, count': nat)
    requires Plain(attrs) && Fine(kids, depth, count) && Fine(rest, depth + 1, count')
    ensures Fine(Elem(name, attrs, kids, rest), depth + 1, 1 + count + count')
  {
  }

  lemma FineWord(w: Transcribed)
    requires Writable(w)
    ensures
      var word := Elem("span", WordAttrs(w), Chars(w.text, Nil), Nil);
      Closed(word) && Proper(word) && Depth(word) == 1 && Count(word) == 1 && EveryAttrsFit(word) && NotNested(word, false, true) && WordsFit(word)
  {
    SpanAttrsFit(w);
    SpanClasses(w);
    FineText(w.text);
  }

  lemma FineText(t: string)
    ensures var text := Chars(t, Nil);
      && Closed(text) && Proper(text) && EveryAttrsFit(text) && NotNested(text, true, true) && WordsFit(text)
      && Depth(text) == 0 && Count(text) == 0 && TextOf(text) == t
  {
    var text := Chars(t, Nil);
    assert Closed(Nil) && Proper(Nil) && EveryAttrsFit(Nil) && NotNested(Nil, true, true) && WordsFit(Nil);
    assert Depth(Nil) == 0 && Count(Nil) == 0 && TextOf(Nil) == "" && t + "" == t;
    assert WordsFit(text) == WordsFit(text.rest) && EveryAttrsFit(text) == EveryAttrsFit(text.rest);
  }

  lemma {:induction false} FineSpans(ws: seq<Transcribed>)
    requires AllWritable(ws)
    ensures Fine(Spans(ws), 2, 2 * |ws|)
    decreases |ws|
  {
    if |ws| > 0 {
      FineSpans(ws[1..]);
      FineWord(ws[0]);
      SpanAttrsFit(ws[0]);
      SpanClasses(ws[0]);
      assert Fine(Chars("\n", Spans(ws[1..])), 2, 2 * (|ws| - 1));
    }
  }

  lemma PlainAttrs(width: nat, height: nat)
    requires Int64(width) && Int64(height)
    ensures Plain(PageAttrs(width, height)) && Plain([]) && Plain(HtmlAttrs)
  {
    BoxTextLength(BBox(0, 0, width, height));
    var attrs := PageAttrs(width, height);
    ThreeBytes(attrs[0], attrs[1], attrs[2]);
    ThreeBytes(OtherAttr(33), OtherAttr(42), OtherAttr(6));
    ThreeClass(["ocr_page"], 13, attrs[1], attrs[2], "ocr_line");
    ThreeClass(["ocr_page"], 13, attrs[1], attrs[2], "ocrx_word");
  }

  lemma FineMeta(a: nat, b: nat, rest: Nodes, count: nat)
    requires a + b <= MAX_ATTRIBUTE_BYTES && Fine(rest, 1, count)
    ensures Fine(Meta(a, b, rest), 1, 1 + count)
  {
    var attrs := [OtherAttr(a), OtherAttr(b)];
    assert attrs[..1] == [OtherAttr(a)] && [OtherAttr(a)][..0] == [] && AttrBytes([OtherAttr(a)]) == a;
    assert Fine(Chars("\n", rest), 1, count);
    FineElem("meta", attrs, Nil, 0, 0, Chars("\n", rest), count);
  }

  lemma FineHead()
    ensures Fine(Head, 1, 4)
  {
    FineMeta(20, 50, Nil, 0);
    FineMeta(14, 26, Meta(20, 50, Nil), 1);
    FineMeta(22, 30, Meta(14, 26, Meta(20, 50, Nil)), 2);
    var metas := Meta(22, 30, Meta(14, 26, Meta(20, 50, Nil)));
    assert Fine(Chars("\n", metas), 1, 3);
    PlainAttrs(0, 0);
    FineElem("title", [], Nil, 0, 0, Chars("\n", metas), 3);
  }

  lemma FineBody(ws: seq<Transcribed>, width: nat, height: nat)
    requires AllWritable(ws) && Int64(width) && Int64(height)
    ensures Fine(Body(ws, width, height), 3, 1 + 2 * |ws|)
  {
    FineSpans(ws);
    PlainAttrs(width, height);
    assert Fine(Chars("\n", Nil), 3, 0);
    assert Fine(Page(ws), 2, 2 * |ws|);
    FineElem("div", PageAttrs(width, height), Page(ws), 2, 2 * |ws|, Chars("\n", Nil), 0);
  }

  lemma FineHtml(ws: seq<Transcribed>, width: nat, height: nat)
    requires AllWritable(ws) && Int64(width) && Int64(height)
    ensures Fine(Html(ws, width, height), 4, 7 + 2 * |ws|)
  {
    FineBody(ws, width, height);
    FineHead();
    FineTwo(Head, 4, Body(ws, width, height), 1 + 2 * |ws|);
  }

  lemma FineTwo(head: Nodes, n: nat, body: Nodes, m: nat)
    requires Fine(head, 3, n) && Fine(body, 3, m)
    ensures Fine(Chars("\n", Elem("head", [], head, Chars("\n", Elem("body", [], body, Chars("\n", Nil))))), 4, 2 + n + m)
  {
    PlainAttrs(0, 0);
    assert Fine(Chars("\n", Nil), 4, 0);
    FineElem("body", [], body, 3, m, Chars("\n", Nil), 0);
    var rest := Chars("\n", Elem("body", [], body, Chars("\n", Nil)));
    assert Fine(rest, 4, 1 + m);
    FineElem("head", [], head, 3, n, rest, 1 + m);
  }

  /** Generated documents are shallow and small. */
  lemma FineDocument(ws: seq<Transcribed>, width: nat, height: nat)
    requires AllWritable(ws) && Int64(width) && Int64(height)
    ensures Fine(Document(ws, width, height), 5, 8 + 2 * |ws|)
  {
    FineHtml(ws, width, height);
    PlainAttrs(width, height);
    FineElem("html", HtmlAttrs, Html(ws, width, height), 4, 7 + 2 * |ws|, Nil, 0);
    FineSkip(Elem("html", HtmlAttrs, Html(ws, width, height), Nil), 5, 8 + 2 * |ws|);
  }

  lemma FineSkip(ns: Nodes, depth: nat, count: nat)
    requires Fine(ns, depth, count)
    ensures Fine(Skip(Chars("\n", Skip(Chars("\n", ns)))), depth, count)
  {
    assert Fine(Chars("\n", ns), depth, count);
    assert Fine(Skip(Chars("\n", ns)), depth, count);
    assert Fine(Chars("\n", Skip(Chars("\n", ns))), depth, count);
  }

  // ----- the tree that comes back -------------------------------------------------------------------------

  function WordElement(w: Transcribed): Element {
    Element("span", WordAttrs(w), w.text, [])
  }

  function LineElement(w: Transcribed): Element {
    Element("span", LineAttrs(w), "", [WordElement(w)])
  }

  lemma SpanTree(w: Transcribed, rest: Nodes)
    ensures Trees(Span(w, rest)) == [LineElement(w)] + Trees(rest)
  {
    SpanClasses(w);
    var text := Chars(w.text, Nil);
    assert TextOf(text) == w.text by { assert w.text + "" == w.text; }
    assert Trees(text) == [];
    assert Trees(Elem("span", WordAttrs(w), text, Nil)) == [WordElement(w)];
  }

  lemma SpanRead(w: Transcribed)
    requires Writable(w)
    ensures HocrTraversal.WordOf(WordElement(w)) == Some(ExpectedWord(w).(line := ""))
    ensures HocrTraversal.WordOf(LineElement(w)).None? && LineKept(LineElement(w))
    ensures LastId(LineAttrs(w)) == LineId(w) && FirstId(LineAttrs(w)) == Some(LineId(w))
    ensures LastBox(LineAttrs(w)) == Read(Printed(Corners(w)))
  {
    SpanClasses(w);
    ThreeRead(LineAttrs(w));
    ThreeRead(WordAttrs(w));
  }

  /** Reading a class, an id and a title. */
  lemma ThreeRead(attrs: seq<Attr>)
    requires |attrs| == 3 && attrs[0].Class? && attrs[1].Id? && attrs[2].TitleAttr?
    requires !attrs[2].title.box.BadBox? && !attrs[2].title.confidence.BadConfidence?
    ensures LastId(attrs) == attrs[1].value && FirstId(attrs) == Some(attrs[1].value) && TitlesReadable(attrs)
    ensures LastBox(attrs) == Read(attrs[2].title.box)
    ensures LastConfidence(attrs) == if attrs[2].title.confidence.HasConfidence? then attrs[2].title.confidence.value else 0.0
  {
    var two := attrs[..2];
    assert two[..1] == attrs[..1] && attrs[..1][..0] == [];
    assert LastId(two) == attrs[1].value;
    assert LastBox([]) == NoBBox && LastConfidence([]) == 0.0;
    assert LastBox(attrs[..1]) == NoBBox && LastBox(two) == LastBox(two[..1]);
    assert LastConfidence(attrs[..1]) == 0.0 && LastConfidence(two) == LastConfidence(two[..1]);
    assert attrs[1..][0] == attrs[1] && FirstId(attrs[1..]) == Some(attrs[1].value);
  }

  lemma SpanWalks(w: Transcribed)
    requires Writable(w)
    ensures Lines(LineElement(w)) == [Line(LineId(w), Read(Printed(Corners(w))), [ExpectedWord(w)])]
    ensures Words(LineElement(w), "") == [ExpectedWord(w)]
  {
    SpanRead(w);
    SpanClasses(w);
    var e, line := WordElement(w), LineElement(w);
    assert [e][1..] == [] && AllInLine([e], LineId(w)) == InLine(e, LineId(w)) + AllInLine([], LineId(w));
    assert InLine(e, LineId(w)) == [ExpectedWord(w)] + AllInLine([], LineId(w));
    assert AllWords([e], LineId(w)) == Words(e, LineId(w)) + AllWords([], LineId(w));
    assert Words(e, LineId(w)) == [ExpectedWord(w)] + AllWords([], LineId(w));
    assert AllLines([e]) == Lines(e) + AllLines([]) && Lines(e) == [] + AllLines([]);
    assert AllLines([e]) == [] && AllInLine([e], LineId(w)) == [ExpectedWord(w)] && AllWords([e], LineId(w)) == [ExpectedWord(w)];
    assert InLine(line, LineId(w)) == [] + AllInLine([e], LineId(w));
    assert Lines(line) == [Line(LineId(w), Read(Printed(Corners(w))), InLine(line, LineId(w)))] + AllLines([e]);
    assert InLine(line, LineId(w)) == [ExpectedWord(w)];
    assert Lines(line) == [Line(LineId(w), Read(Printed(Corners(w))), [ExpectedWord(w)])] + [];
    assert Inherited(line, "") == LineId(w) && At(HocrTraversal.WordOf(line), LineId(w)) == [];
    assert Words(line, "") == [] + AllWords([e], LineId(w));
  }

  function LineElements(ws: seq<Transcribed>): seq<Element> {
    if |ws| == 0 then [] else [LineElement(ws[0])] + LineElements(ws[1..])
  }

  function ExpectedWords(ws: seq<Transcribed>): seq<Word> {
    if |ws| == 0 then [] else [ExpectedWord(ws[0])] + ExpectedWords(ws[1..])
  }

  lemma {:induction false} SpansTrees(ws: seq<Transcribed>)
    ensures Trees(Spans(ws)) == LineElements(ws)
    decreases |ws|
  {
    if |ws| > 0 {
      SpansTrees(ws[1..]);
      SpanTree(ws[0], Spans(ws[1..]));
    }
  }

  lemma FirstThenRest(e: Element, es: seq<Element>)
    ensures AllLines([e] + es) == Lines(e) + AllLines(es) && AllWords([e] + es, "") == Words(e, "") + AllWords(es, "")
  {
    assert ([e] + es)[1..] == es;
  }

  lemma {:induction false} SpansWalks(ws: seq<Transcribed>)
    requires AllWritable(ws)
    ensures AllLines(LineElements(ws)) == ExpectedLines(ws)
    ensures AllWords(LineElements(ws), "") == ExpectedWords(ws)
    decreases |ws|
  {
    if |ws| > 0 {
      SpansWalks(ws[1..]);
      SpanWalks(ws[0]);
      FirstThenRest(LineElement(ws[0]), LineElements(ws[1..]));
    }
  }

  // ----- wrappers add nothing -------------------------------------------------------------------------------

  /** An element that is neither a line nor a word passes its children's lines and words through. */
  lemma Wrapper(name: string, attrs: seq<Attr>, children: seq<Element>)
    requires !IsLine(attrs) && !IsWord(attrs)
    ensures Lines(Element(name, attrs, "", children)) == AllLines(children)
    ensures Words(Element(name, attrs, "", children), "") == AllWords(children, "")
  {
  }

  lemma OnlyChild(e: Element)
    ensures AllLines([e]) == Lines(e) && AllWords([e], "") == Words(e, "")
  {
    assert [e][1..] == [] && AllLines([]) == [] && AllWords([], "") == [];
  }

  lemma PageTree(ws: seq<Transcribed>, width: nat, height: nat)
    requires AllWritable(ws) && Int64(width) && Int64(height)
    ensures AllLines(Trees(Body(ws, width, height))) == ExpectedLines(ws)
    ensures AllWords(Trees(Body(ws, width, height)), "") == ExpectedWords(ws)
  {
    PlainAttrs(width, height);
    SpansTrees(ws);
    SpansWalks(ws);
    assert Trees(Page(ws)) == LineElements(ws);
    var div := Element("div", PageAttrs(width, height), "", LineElements(ws));
    assert Trees(Elem("div", PageAttrs(width, height), Page(ws), Chars("\n", Nil))) == [div] + Trees(Chars("\n", Nil));
    assert Trees(Chars("\n", Nil)) == [];
    assert Trees(Body(ws, width, height)) == [div];
    Wrapper("div", PageAttrs(width, height), LineElements(ws));
    OnlyChild(div);
  }

  predicate Bare(ns: Nodes) {
    match ns
    case Nil => true
    case Elem(_, attrs, kids, rest) => !IsLine(attrs) && !IsWord(attrs) && Bare(kids) && Bare(rest)
    case Unclosed(_, _, _) => true
    case Chars(_, rest) => Bare(rest)
    case Skip(rest) => Bare(rest)
  }

  lemma {:induction false} BareWalks(ns: Nodes)
    requires Bare(ns)
    ensures AllLines(Trees(ns)) == [] && AllWords(Trees(ns), "") == []
  {
    match ns
    case Nil =>
    case Unclosed(_, _, _) =>
    case Chars(_, rest) => BareWalks(rest);
    case Skip(rest) => BareWalks(rest);
    case Elem(name, attrs, kids, rest) =>
      BareWalks(kids);
      BareWalks(rest);
      Wrapper(name, attrs, Trees(kids));
      assert Trees(ns)[0] == Element(name, attrs, "", Trees(kids)) && Trees(ns)[1..] == Trees(rest);
  }

  lemma BareMeta(a: nat, b: nat, rest: Nodes)
    requires Bare(rest)
    ensures Bare(Meta(a, b, rest))
  {
    assert Bare(Chars("\n", rest));
  }

  lemma BareHead()
    ensures Bare(Head)
  {
    BareMeta(20, 50, Nil);
    BareMeta(14, 26, Meta(20, 50, Nil));
    BareMeta(22, 30, Meta(14, 26, Meta(20, 50, Nil)));
    assert Bare(Chars("\n", Meta(22, 30, Meta(14, 26, Meta(20, 50, Nil)))));
  }

  lemma TwoElements(a: Element, b: Element)
    ensures AllLines([a, b]) == Lines(a) + Lines(b) && AllWords([a, b], "") == Words(a, "") + Words(b, "")
  {
    assert [a, b][1..] == [b];
    OnlyChild(b);
  }

  lemma TwoTrees(name: string, kids: Nodes, name': string, kids': Nodes)
    ensures Trees(Chars("\n", Elem(name, [], kids, Chars("\n", Elem(name', [], kids', Chars("\n", Nil))))))
         == [Element(name, [], "", Trees(kids)), Element(name', [], "", Trees(kids'))]
  {
    var last := Chars("\n", Nil);
    assert Trees(last) == [];
    var second := Elem(name', [], kids', last);
    assert Trees(second) == [Element(name', [], "", Trees(kids'))];
    assert Trees(Chars("\n", second)) == Trees(second);
  }

  lemma HtmlTree(ws: seq<Transcribed>, width: nat, height: nat)
    requires AllWritable(ws) && Int64(width) && Int64(height)
    ensures AllLines(Trees(Html(ws, width, height))) == ExpectedLines(ws)
    ensures AllWords(Trees(Html(ws, width, height)), "") == ExpectedWords(ws)
  {
    PageTree(ws, width, height);
    BareHead();
    BareWalks(Head);
    HeadAndBody(Head, Body(ws, width, height));
  }

  lemma HeadAndBody(head: Nodes, body: Nodes)
    requires AllLines(Trees(head)) == [] && AllWords(Trees(head), "") == []
    ensures
      var trees := Trees(Chars("\n", Elem("head", [], head, Chars("\n", Elem("body", [], body, Chars("\n", Nil))))));
      AllLines(trees) == AllLines(Trees(body)) && AllWords(trees, "") == AllWords(Trees(body), "")
  {
    TwoTrees("head", head, "body", body);
    TwoElements(Element("head", [], "", Trees(head)), Element("body", [], "", Trees(body)));
    Wrapper("head", [], Trees(head));
    Wrapper("body", [], Trees(body));
  }

  /** A document with one root decodes to its tree or, with too many elements, to nothing. */
  lemma FineDecodes(doc: Nodes, depth: nat, count: nat, e: Element)
    requires Fine(doc, depth, count) && depth <= MAX_DEPTH && OneRoot(doc, false) && Trees(doc) == [e]
    ensures Decode(Write(doc)) == if count <= MAX_ELEMENTS then Some(e) else None
  {
    TopFitsExactly(doc, false);
    assert Write(doc) + [] == Write(doc);
    TopRun(Initial, doc, []);
  }

  /**
   As tokens, generated hOCR is accepted exactly when there are at most 10000 regions,
   and then it parses back to exactly one line with one word per transcribed region, in
   order, with the same box and text.
   */
  lemma RoundTrip(ws: seq<Transcribed>, width: nat, height: nat)
    requires AllWritable(ws) && Int64(width) && Int64(height)
    ensures ParseTokens(Write(Document(ws, width, height)))
         == if |ws| <= MAX_ANNOTATIONS then Some(Parsed(ExpectedLines(ws), ExpectedWords(ws))) else None
  {
    DocumentDecodes(ws, width, height);
    HtmlTree(ws, width, height);
    RootWalks(Trees(Html(ws, width, height)));
    ExpectedCounts(ws);
  }

  lemma {:induction false} ExpectedCounts(ws: seq<Transcribed>)
    ensures |ExpectedLines(ws)| == |ws| && |ExpectedWords(ws)| == |ws| && WordTotal(ExpectedLines(ws)) == |ws|
    decreases |ws|
  {
    if |ws| > 0 {
      ExpectedCounts(ws[1..]);
      TotalOfFirst(Line(LineId(ws[0]), Read(Printed(Corners(ws[0]))), [ExpectedWord(ws[0])]), ExpectedLines(ws[1..]));
    }
  }

  lemma {:induction false} TotalOfFirst(l: Line, lines: seq<Line>)
    ensures WordTotal([l] + lines) == |l.words| + WordTotal(lines)
    decreases |lines|
  {
    if |lines| > 0 {
      assert ([l] + lines)[..|lines|] == [l] + lines[..|lines| - 1];
      TotalOfFirst(l, lines[..|lines| - 1]);
    } else {
      assert [l] + lines == [l] && [l][..0] == [];
    }
  }

  lemma RootWalks(kids: seq<Element>)
    ensures Lines(Element("html", HtmlAttrs, "", kids)) == AllLines(kids)
    ensures Words(Element("html", HtmlAttrs, "", kids), "") == AllWords(kids, "")
  {
    PlainAttrs(0, 0);
    Wrapper("html", HtmlAttrs, kids);
  }

  lemma DocumentDecodes(ws: seq<Transcribed>, width: nat, height: nat)
    requires AllWritable(ws) && Int64(width) && Int64(height)
    ensures Decode(Write(Document(ws, width, height)))
         == if 8 + 2 * |ws| <= MAX_ELEMENTS then Some(Element("html", HtmlAttrs, "", Trees(Html(ws, width, height)))) else None
  {
    FineDocument(ws, width, height);
    DocumentRoot(ws, width, height);
    FineDecodes(Document(ws, width, height), 5, 8 + 2 * |ws|, Element("html", HtmlAttrs, "", Trees(Html(ws, width, height))));
  }

  lemma DocumentRoot(ws: seq<Transcribed>, width: nat, height: nat)
    ensures OneRoot(Document(ws, width, height), false)
    ensures Trees(Document(ws, width, height))
         == [Element("html", HtmlAttrs, "", Trees(Html(ws, width, height)))]
  {
    assert Trim("\n") == "" by { assert "\n"[1..] == ""; }
    var html := Elem("html", HtmlAttrs, Html(ws, width, height), Nil);
    assert Trees(html) == [Element("html", HtmlAttrs, "", Trees(Html(ws, width, height)))];
    assert OneRoot(html, false);
    var rest := Skip(Chars("\n", html));
    assert OneRoot(Chars("\n", html), false) && Trees(Chars("\n", html)) == Trees(html);
    assert OneRoot(rest, false) && Trees(rest) == Trees(html);
    assert OneRoot(Chars("\n", rest), false) && Trees(Chars("\n", rest)) == Trees(html);
  }

  /** A region on the page: nothing negative, and its far corner fits an int. */
  predicate OnPage(w: Transcribed) {
    && 0 <= w.x && 0 <= w.y && 0 <= w.width && 0 <= w.height
    && w.x + w.width <= HocrGlyphs.MAX_INT64 && w.y + w.height <= HocrGlyphs.MAX_INT64
  }

  lemma {:induction false} ExpectedLineAt(ws: seq<Transcribed>, i: nat)
    requires i < |ws|
    ensures |ExpectedLines(ws)| == |ws|
    ensures ExpectedLines(ws)[i] == Line(LineId(ws[i]), Read(Printed(Corners(ws[i]))), [ExpectedWord(ws[i])])
    decreases |ws|
  {
    if |ws| == 1 {
      assert ExpectedLines(ws[1..]) == [];
    } else {
      ExpectedLineAt(ws[1..], if i == 0 then 0 else i - 1);
    }
  }

  /** Line by line: region `i` comes back as line `i`, with one word, its own text and its own box. */
  lemma RegionComesBack(ws: seq<Transcribed>, width: nat, height: nat, i: nat)
    requires AllWritable(ws) && Int64(width) && Int64(height)
    requires i < |ws| <= MAX_ANNOTATIONS && OnPage(ws[i])
    ensures
      var w := ws[i];
      var parsed := ParseTokens(Write(Document(ws, width, height)));
      && parsed.Some? && |parsed.value.lines| == |ws|
      && parsed.value.lines[i] == Line(LineId(w), Area(w), [Word(WordId(w), w.text, Area(w), 85.0, LineId(w))])
  {
    RoundTrip(ws, width, height);
    var lines := ExpectedLines(ws);
    assert |lines| == |ws| && lines[i] == Line(LineId(ws[i]), Area(ws[i]), [ExpectedWord(ws[i])]) by {
      ExpectedLineAt(ws, i);
      BoxKept(ws[i]);
    }
    BoxKept(ws[i]);
  }

  function Area(w: Transcribed): BBox {
    BBox(w.x, w.y, w.x + w.width, w.y + w.height)
  }

  lemma BoxKept(w: Transcribed)
    requires OnPage(w)
    ensures Read(Printed(Corners(w))) == Area(w)
  {
  }

  /** Workers only send trimmed text that is not blank. */
  lemma {:induction false} SentTextTrimmed(rs: seq<HocrPool.Region>, replies: HocrPool.Region -> HocrPool.Reply)
    ensures forall i :: 0 <= i < |HocrOrder.InOrder(rs, replies)| ==>
      var text := HocrOrder.InOrder(rs, replies)[i].text; text != "" && Trim(text) == text
    decreases |rs|
  {
    if |rs| > 0 {
      SentTextTrimmed(rs[1..], replies);
      var reply := replies(rs[0]);
      var out := HocrPool.Outcome(rs[0], reply);
      var own := HocrOrder.Collect(out);
      if reply.Reply? { TrimTwice(reply.text); }
      if |out| > 0 { assert out[1..] == [] && HocrOrder.Collect(out[1..]) == []; }
      assert forall i :: 0 <= i < |own| ==> own[i].text != "" && Trim(own[i].text) == own[i].text;
      assert HocrOrder.InOrder(rs, replies) == own + HocrOrder.InOrder(rs[1..], replies);
    }
  }

  /**
   From the pool to the parsed lines.  For every number of workers and every order
   of completion the document is the same; as tokens it is refused exactly when more
   than 10000 regions were transcribed, and otherwise parses back to one line with one word per
   transcribed region, in reading order.
   */
  lemma ScheduleRoundTrip(regions: seq<HocrPool.Region>, workers: nat, es: seq<HocrPool.Event>,
                          replies: HocrPool.Region -> HocrPool.Reply, width: nat, height: nat)
    requires HocrPool.Numbered(regions) && Int64(width) && Int64(height)
    requires HocrPool.IsRun(HocrPool.Start(regions, workers), es, replies)
    requires HocrPool.Finished(HocrPool.Exec(HocrPool.Start(regions, workers), es, replies))
    requires forall i :: 0 <= i < |HocrOrder.InOrder(regions, replies)| ==> Sized(HocrOrder.InOrder(regions, replies)[i])
    ensures
      var results := HocrPool.Exec(HocrPool.Start(regions, workers), es, replies).results;
      var ws := HocrOrder.InOrder(regions, replies);
      ParseTokens(Write(Document(HocrOrder.Sort(HocrOrder.Collect(results)), width, height)))
        == if |ws| <= MAX_ANNOTATIONS then Some(Parsed(ExpectedLines(ws), ExpectedWords(ws))) else None
  {
    HocrOrder.ScheduleIndependent(regions, workers, es, replies);
    SentTextTrimmed(regions, replies);
    RoundTrip(HocrOrder.InOrder(regions, replies), width, height);
  }

  // ----- from boxes to lines ----------------------------------------------------------------------

  /** A detected box on the page. */
  predicate BoxOnPage(b: HocrPool.WordBox) {
    && 0 <= b.x && 0 <= b.y && 0 <= b.width && 0 <= b.height
    && b.x + b.width <= HocrGlyphs.MAX_INT64 && b.y + b.height <= HocrGlyphs.MAX_INT64
  }

  /** Line and word for one box: number, corners, and one word with the text. */
  function BoxLine(n: nat, b: HocrPool.WordBox, text: string): Line {
    var area, id := BBox(b.x, b.y, b.x + b.width, b.y + b.height), "line_" + Decimal(n);
    Line(id, area, [Word("word_" + Decimal(n) + "_0", text, area, 85.0, id)])
  }

  lemma RenderedLine(w: Transcribed, n: nat, b: HocrPool.WordBox, text: string)
    requires BoxOnPage(b) && w == HocrPool.Transcribed(n, b.x, b.y, b.width, b.height, text)
    ensures Line(LineId(w), Read(Printed(Corners(w))), [ExpectedWord(w)]) == BoxLine(n, b, text)
  {
    BoxKept(w);
  }

  /** The reply to box `i`. */
  function ReplyTo(boxes: seq<HocrPool.WordBox>, replies: HocrPool.Region -> HocrPool.Reply, i: nat): HocrPool.Reply
    requires i < |boxes|
  {
    replies(HocrPool.Regions(boxes)[i])
  }

  /** Boxes on the page, and legible replies short enough for a word. */
  predicate Transcribable(boxes: seq<HocrPool.WordBox>, replies: HocrPool.Region -> HocrPool.Reply) {
    && |boxes| <= HocrGlyphs.MAX_INT64
    && forall i :: 0 <= i < |boxes| ==>
         BoxOnPage(boxes[i]) && (HocrPool.Legible(ReplyTo(boxes, replies, i)) ==> Bytes(Trim(ReplyTo(boxes, replies, i).text)) <= MAX_WORD_BYTES)
  }

  lemma ListedSized(boxes: seq<HocrPool.WordBox>, replies: HocrPool.Region -> HocrPool.Reply)
    requires Transcribable(boxes, replies)
    ensures var ws := HocrOrder.InOrder(HocrPool.Regions(boxes), replies); forall j :: 0 <= j < |ws| ==> Sized(ws[j])
  {
    var rs := HocrPool.Regions(boxes);
    var ws := HocrOrder.InOrder(rs, replies);
    forall j | 0 <= j < |ws| ensures Sized(ws[j]) {
      var i := HocrOrder.ListedIsLegible(rs, replies, j);
      assert ReplyTo(boxes, replies, i) == replies(rs[i]) && BoxOnPage(boxes[i]);
    }
  }

  /** One line per legible box from box `i` on, in reading order. */
  function LegibleLines(boxes: seq<HocrPool.WordBox>, replies: HocrPool.Region -> HocrPool.Reply, i: nat): seq<Line>
    requires i <= |boxes|
    decreases |boxes| - i
  {
    if i == |boxes| then []
    else
      var reply := ReplyTo(boxes, replies, i);
      (if HocrPool.Legible(reply) then [BoxLine(i, boxes[i], Trim(reply.text))] else []) + LegibleLines(boxes, replies, i + 1)
  }

  lemma {:induction false} LinesOfBoxes(boxes: seq<HocrPool.WordBox>, replies: HocrPool.Region -> HocrPool.Reply, i: nat)
    requires Transcribable(boxes, replies) && i <= |boxes|
    ensures ExpectedLines(HocrOrder.InOrder(HocrPool.Regions(boxes)[i..], replies)) == LegibleLines(boxes, replies, i)
    decreases |boxes| - i
  {
    var rs := HocrPool.Regions(boxes)[i..];
    if i < |boxes| {
      assert rs[1..] == HocrPool.Regions(boxes)[i + 1..];
      LinesOfBoxes(boxes, replies, i + 1);
      FirstBox(boxes, replies, i, HocrOrder.InOrder(rs[1..], replies));
    } else {
      assert rs == [];
    }
  }

  lemma FirstBox(boxes: seq<HocrPool.WordBox>, replies: HocrPool.Region -> HocrPool.Reply, i: nat, rest: seq<Transcribed>)
    requires Transcribable(boxes, replies) && i < |boxes|
    ensures
      var r, reply := HocrPool.Regions(boxes)[i], ReplyTo(boxes, replies, i);
      ExpectedLines(HocrOrder.Collect(HocrPool.Outcome(r, reply)) + rest)
        == (if HocrPool.Legible(reply) then [BoxLine(i, boxes[i], Trim(reply.text))] else []) + ExpectedLines(rest)
  {
    var r, reply := HocrPool.Regions(boxes)[i], ReplyTo(boxes, replies, i);
    var own := HocrOrder.Collect(HocrPool.Outcome(r, reply));
    HocrOrder.OwnExactly(r, reply);
    if HocrPool.Legible(reply) {
      assert own == [own[0]] && (own + rest)[1..] == rest;
      RenderedLine(own[0], i, boxes[i], Trim(reply.text));
    } else {
      assert own + rest == rest;
    }
  }

  /**
   From detected boxes to parsed lines, for every number of workers and every schedule:
   with more than 10000 legible boxes the document is refused; otherwise the lines are
   exactly one per legible box, in reading order, each with its own number, corners and
   trimmed text.
   */
  lemma BoxesComeBack(boxes: seq<HocrPool.WordBox>, workers: nat, es: seq<HocrPool.Event>,
                      replies: HocrPool.Region -> HocrPool.Reply, width: nat, height: nat)
    requires Transcribable(boxes, replies) && Int64(width) && Int64(height)
    requires HocrPool.IsRun(HocrPool.Start(HocrPool.Regions(boxes), workers), es, replies)
    requires HocrPool.Finished(HocrPool.Exec(HocrPool.Start(HocrPool.Regions(boxes), workers), es, replies))
    ensures
      var results := HocrPool.Exec(HocrPool.Start(HocrPool.Regions(boxes), workers), es, replies).results;
      var parsed := ParseTokens(Write(Document(HocrOrder.Sort(HocrOrder.Collect(results)), width, height)));
      var lines := LegibleLines(boxes, replies, 0);
      (parsed.Some? <==> |lines| <= MAX_ANNOTATIONS) && (parsed.Some? ==> parsed.value.lines == lines)
  {
    var rs := HocrPool.Regions(boxes);
    ListedSized(boxes, replies);
    ScheduleRoundTrip(rs, workers, es, replies, width, height);
    LinesOfBoxes(boxes, replies, 0);
    assert rs[0..] == rs;
    ExpectedCounts(HocrOrder.InOrder(rs, replies));
  }
}
