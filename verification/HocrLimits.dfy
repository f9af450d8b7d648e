/** The limits in their own terms, and writing the tree back. */
module HocrLimits {
  import opened Strings
  import opened Hocr
  import opened HocrDecode
  import opened HocrDocument

  function Max(a: nat, b: nat): nat {
    if a > b then a else b
  }

  function Depth(ns: Nodes): nat {
    match ns
    case Nil => 0
    case Elem(_, _, kids, rest) => Max(1 + Depth(kids), Depth(rest))
    case Unclosed(_, _, kids) => 1 + Depth(kids)
    case Chars(_, rest) => Depth(rest)
    case Skip(rest) => Depth(rest)
  }

  predicate EveryAttrsFit(ns: Nodes) {
    match ns
    case Nil => true
    case Elem(_, attrs, kids, rest) => AttrsFit(attrs) && EveryAttrsFit(kids) && EveryAttrsFit(rest)
    case Unclosed(_, attrs, kids) => AttrsFit(attrs) && EveryAttrsFit(kids)
    case Chars(_, rest) => EveryAttrsFit(rest)
    case Skip(rest) => EveryAttrsFit(rest)
  }

  /** No word below a word and no line below a line. */
  predicate NotNested(ns: Nodes, inWord: bool, inLine: bool) {
    match ns
    case Nil => true
    case Elem(_, attrs, kids, rest) =>
      && !(inWord && IsWord(attrs)) && !(inLine && IsLine(attrs))
      && NotNested(kids, inWord || IsWord(attrs), inLine || IsLine(attrs)) && NotNested(rest, inWord, inLine)
    case Unclosed(_, attrs, kids) =>
      && !(inWord && IsWord(attrs)) && !(inLine && IsLine(attrs))
      && NotNested(kids, inWord || IsWord(attrs), inLine || IsLine(attrs))
    case Chars(_, rest) => NotNested(rest, inWord, inLine)
    case Skip(rest) => NotNested(rest, inWord, inLine)
  }

  /** Every word's text, from all depths below it, is at most 4096 bytes. */
  predicate WordsFit(ns: Nodes) {
    match ns
    case Nil => true
    case Elem(_, attrs, kids, rest) =>
      (IsWord(attrs) ==> Bytes(TextOf(kids)) <= MAX_WORD_BYTES) && WordsFit(kids) && WordsFit(rest)
    case Unclosed(_, attrs, kids) => (IsWord(attrs) ==> Bytes(TextOf(kids)) <= MAX_WORD_BYTES) && WordsFit(kids)
    case Chars(_, rest) => WordsFit(rest)
    case Skip(rest) => WordsFit(rest)
  }

  predicate Limits(ns: Nodes, c: Context) {
    && c.depth + Depth(ns) <= MAX_DEPTH && c.count + Count(ns) <= MAX_ELEMENTS
    && EveryAttrsFit(ns) && NotNested(ns, c.inWord, c.inLine) && WordsFit(ns)
    && (c.inWord ==> c.used + Bytes(TextOf(ns)) <= MAX_WORD_BYTES)
  }

  /** What the stack checks as it goes is exactly the limits on the whole. */
  lemma {:induction false} FitsExactly(ns: Nodes, c: Context)
    requires c.depth <= MAX_DEPTH && c.count <= MAX_ELEMENTS && (c.inWord ==> c.used <= MAX_WORD_BYTES)
    ensures Fits(ns, c) <==> Limits(ns, c)
    decreases ns, 1
  {
    match ns
    case Nil =>
    case Chars(text, rest) =>
      BytesConcat(text, TextOf(rest));
      if c.inWord ==> c.used + Bytes(text) <= MAX_WORD_BYTES { FitsExactly(rest, Beyond(c, text, 0)); }
    case Skip(rest) => FitsExactly(rest, c);
    case Unclosed(_, attrs, kids) =>
      if OpenFits(c, attrs) { FitsExactly(kids, Inside(c, attrs)); }
    case Elem(_, _, _, _) => ElemFitsExactly(ns, c);
  }

  lemma {:induction false} ElemFitsExactly(ns: Nodes, c: Context)
    requires ns.Elem? && c.depth <= MAX_DEPTH && c.count <= MAX_ELEMENTS && (c.inWord ==> c.used <= MAX_WORD_BYTES)
    ensures Fits(ns, c) <==> Limits(ns, c)
    decreases ns, 0
  {
    BytesConcat(TextOf(ns.kids), TextOf(ns.rest));
    if OpenFits(c, ns.attrs) {
      FitsExactly(ns.kids, Inside(c, ns.attrs));
      if Fits(ns.kids, Inside(c, ns.attrs)) { FitsExactly(ns.rest, Beyond(c, TextOf(ns.kids), 1 + Count(ns.kids))); }
    }
  }

  /** Blank text around at most one element, nothing left open. */
  predicate OneRoot(ns: Nodes, seen: bool) {
    match ns
    case Nil => true
    case Elem(_, _, _, rest) => !seen && OneRoot(rest, true)
    case Unclosed(_, _, _) => false
    case Chars(text, rest) => Trim(text) == "" && OneRoot(rest, seen)
    case Skip(rest) => OneRoot(rest, seen)
  }

  lemma {:induction false} AfterRoot(ns: Nodes)
    requires OneRoot(ns, true)
    ensures TopFits(ns, true) && Depth(ns) == 0 && Count(ns) == 0 && EveryAttrsFit(ns) && NotNested(ns, false, false) && WordsFit(ns)
  {
    match ns
    case Nil =>
    case Chars(_, rest) => AfterRoot(rest);
    case Skip(rest) => AfterRoot(rest);
  }

  lemma {:induction false} TopFitsExactly(ns: Nodes, seen: bool)
    ensures TopFits(ns, seen) <==> OneRoot(ns, seen) && Limits(ns, Outside)
    decreases ns
  {
    match ns
    case Nil =>
    case Chars(_, rest) => TopFitsExactly(rest, seen);
    case Skip(rest) => TopFitsExactly(rest, seen);
    case Unclosed(_, _, _) =>
    case Elem(_, attrs, kids, rest) =>
      TopFitsExactly(rest, true);
      if OneRoot(rest, true) { AfterRoot(rest); }
      if OpenFits(Outside, attrs) { FitsExactly(kids, Inside(Outside, attrs)); }
  }

  /**
   A token stream is accepted exactly when it is one document, with nothing but
   blank text around its root, at most 128 deep, at most 80000 elements, every
   element's attributes within limits, no nested words or lines, and every word's
   text at most 4096 bytes.
   */
  lemma AcceptedExactly(ts: seq<Token>)
    ensures Decode(ts).Some? <==> Parse(ts).1 == [] && OneRoot(Parse(ts).0, false) && Limits(Parse(ts).0, Outside)
  {
    DecodeExactly(ts);
    TopFitsExactly(Parse(ts).0, false);
  }

  // ----- writing the tree back -----------------------------------------------------------------------

  /** The start and end tokens. */
  function Marks(ts: seq<Token>): seq<Token> {
    if |ts| == 0 then [] else (if ts[0].Start? || ts[0].End? then [ts[0]] else []) + Marks(ts[1..])
  }

  function WriteElement(e: Element): seq<Token> {
    [Start(e.name, e.attrs)] + WriteElements(e.children) + [End]
  }

  function WriteElements(es: seq<Element>): seq<Token> {
    if |es| == 0 then [] else WriteElement(es[0]) + WriteElements(es[1..])
  }

  lemma {:induction false} MarksConcat(ts: seq<Token>, us: seq<Token>)
    ensures Marks(ts + us) == Marks(ts) + Marks(us)
    decreases |ts|
  {
    if |ts| == 0 {
      assert ts + us == us;
    } else {
      assert ts + us == [ts[0]] + (ts[1..] + us) && ts == [ts[0]] + ts[1..];
      MarksOne(ts[0], ts[1..] + us);
      MarksConcat(ts[1..], us);
    }
  }

  lemma MarksOne(t: Token, ts: seq<Token>)
    ensures Marks([t] + ts) == (if t.Start? || t.End? then [t] else []) + Marks(ts)
  {
    assert ([t] + ts)[1..] == ts;
  }

  lemma {:induction false} TreesWriteBack(ns: Nodes)
    requires Closed(ns)
    ensures WriteElements(Trees(ns)) == Marks(Write(ns))
  {
    match ns
    case Nil =>
    case Chars(text, rest) => MarksOne(Text(text), Write(rest)); TreesWriteBack(rest);
    case Skip(rest) => MarksOne(Other, Write(rest)); TreesWriteBack(rest);
    case Elem(name, attrs, kids, rest) =>
      TreesWriteBack(kids);
      TreesWriteBack(rest);
      ElemMarks(Start(name, attrs), Write(kids), Write(rest));
      var e := Finished(name, attrs, kids);
      assert Trees(ns)[0] == e && Trees(ns)[1..] == Trees(rest);
  }

  lemma ElemMarks(t: Token, a: seq<Token>, b: seq<Token>)
    requires t.Start?
    ensures Marks([t] + a + [End] + b) == [t] + Marks(a) + [End] + Marks(b)
  {
    assert [t] + a + [End] + b == [t] + (a + ([End] + b));
    MarksOne(t, a + ([End] + b));
    MarksConcat(a, [End] + b);
    MarksOne(End, b);
  }

  /** For every accepted stream with an element, writing the tree back gives the stream's start and end tokens. */
  lemma WriteBack(ts: seq<Token>)
    requires Decode(ts).Some? && Count(Parse(ts).0) > 0
    ensures WriteElement(Decode(ts).value) == Marks(ts)
  {
    DecodeExactly(ts);
    ParseWrites(ts);
    var doc := Parse(ts).0;
    assert Write(doc) + [] == Write(doc);
    TopClosed(doc, false);
    TreesWriteBack(doc);
    OneTree(doc);
    assert WriteElements(Trees(doc)) == WriteElement(Trees(doc)[0]) + WriteElements([]);
  }

  lemma {:induction false} TopClosed(ns: Nodes, seen: bool)
    requires TopFits(ns, seen) && Proper(ns)
    ensures Closed(ns)
    decreases ns
  {
    match ns
    case Nil =>
    case Chars(_, rest) => TopClosed(rest, seen);
    case Skip(rest) => TopClosed(rest, seen);
    case Elem(_, _, _, rest) => TopClosed(rest, true);
  }

  lemma {:induction false} OneTree(ns: Nodes)
    requires TopFits(ns, false) && Count(ns) > 0
    ensures |Trees(ns)| == 1
  {
    match ns
    case Nil =>
    case Chars(_, rest) => OneTree(rest);
    case Skip(rest) => OneTree(rest);
    case Elem(_, _, _, rest) => NoSecondRoot(rest);
  }
}
