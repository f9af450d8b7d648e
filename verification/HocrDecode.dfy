/**
 The bounded decoder: a stack of open elements driven by tokens.  It is compared
 with a recursive reading of the same tokens as a document with mixed content.
 */
module HocrDecode {
  import opened Nullable
  import opened Strings
  import opened Hocr

  // ----- documents -------------------------------------------------------------------------

  /** A list of nodes; `Unclosed` is a last element whose end never comes. */
  datatype Nodes =
    | Nil
    | Elem(name: string, attrs: seq<Attr>, kids: Nodes, rest: Nodes)
    | Unclosed(name: string, attrs: seq<Attr>, kids: Nodes)
    | Chars(text: string, rest: Nodes)
    | Skip(rest: Nodes)

  function Write(ns: Nodes): seq<Token> {
    match ns
    case Nil => []
    case Elem(name, attrs, kids, rest) => [Start(name, attrs)] + Write(kids) + [End] + Write(rest)
    case Unclosed(name, attrs, kids) => [Start(name, attrs)] + Write(kids)
    case Chars(text, rest) => [Text(text)] + Write(rest)
    case Skip(rest) => [Other] + Write(rest)
  }

  predicate Closed(ns: Nodes) {
    match ns
    case Nil => true
    case Elem(_, _, kids, rest) => Closed(kids) && Closed(rest)
    case Unclosed(_, _, _) => false
    case Chars(_, rest) => Closed(rest)
    case Skip(rest) => Closed(rest)
  }

  /** Only the end of the list, or of an unclosed element's list, may be unclosed. */
  predicate Proper(ns: Nodes) {
    match ns
    case Nil => true
    case Elem(_, _, kids, rest) => Closed(kids) && Proper(kids) && Proper(rest)
    case Unclosed(_, _, kids) => Proper(kids)
    case Chars(_, rest) => Proper(rest)
    case Skip(rest) => Proper(rest)
  }

  /** All text below, in order. */
  function TextOf(ns: Nodes): string {
    match ns
    case Nil => ""
    case Elem(_, _, kids, rest) => TextOf(kids) + TextOf(rest)
    case Unclosed(_, _, kids) => TextOf(kids)
    case Chars(text, rest) => text + TextOf(rest)
    case Skip(rest) => TextOf(rest)
  }

  function Count(ns: Nodes): nat {
    match ns
    case Nil => 0
    case Elem(_, _, kids, rest) => 1 + Count(kids) + Count(rest)
    case Unclosed(_, _, kids) => 1 + Count(kids)
    case Chars(_, rest) => Count(rest)
    case Skip(rest) => Count(rest)
  }

  /** The tree of elements: a word keeps all the text below it, anything else keeps none. */
  function Trees(ns: Nodes): seq<Element> {
    match ns
    case Nil => []
    case Elem(name, attrs, kids, rest) =>
      [Element(name, attrs, if IsWord(attrs) then TextOf(kids) else "", Trees(kids))] + Trees(rest)
    case Unclosed(_, _, _) => []
    case Chars(_, rest) => Trees(rest)
    case Skip(rest) => Trees(rest)
  }

  /** Read tokens up to the first end that closes nothing. */
  function Parse(ts: seq<Token>): (r: (Nodes, seq<Token>))
    ensures |r.1| <= |ts|
    decreases |ts|
  {
    if |ts| == 0 then (Nil, []) else
    match ts[0]
    case End => (Nil, ts)
    case Text(text) => var (rest, more) := Parse(ts[1..]); (Chars(text, rest), more)
    case Other => var (rest, more) := Parse(ts[1..]); (Skip(rest), more)
    case Start(name, attrs) =>
      var (kids, more) := Parse(ts[1..]);
      if |more| == 0 then (Unclosed(name, attrs, kids), [])
      else
        var (rest, more') := Parse(more[1..]);
        (Elem(name, attrs, kids, rest), more')
  }

  /** Writing what was read gives the tokens back; only an end that closes nothing is left over. */
  predicate ReadsBack(ts: seq<Token>, ns: Nodes, more: seq<Token>) {
    Write(ns) + more == ts && Proper(ns) && (more != [] ==> more[0] == End && Closed(ns))
  }

  lemma ElemReadsBack(ts: seq<Token>, kids: Nodes, more: seq<Token>, rest: Nodes, more': seq<Token>)
    requires |ts| > 0 && ts[0].Start? && |more| > 0
    requires ReadsBack(ts[1..], kids, more) && ReadsBack(more[1..], rest, more')
    ensures ReadsBack(ts, Elem(ts[0].name, ts[0].attrs, kids, rest), more')
  {
    assert more == [End] + more[1..];
    assert ts == [ts[0]] + ts[1..];
    Regroup(ts[0], Write(kids), Write(rest), more');
  }

  lemma Regroup(t: Token, a: seq<Token>, b: seq<Token>, c: seq<Token>)
    ensures [t] + a + [End] + b + c == [t] + (a + ([End] + (b + c)))
  {
  }

  lemma {:induction false} ParseWrites(ts: seq<Token>)
    ensures ReadsBack(ts, Parse(ts).0, Parse(ts).1)
    decreases |ts|
  {
    if |ts| == 0 || ts[0].End? {
      assert [] + ts == ts;
    } else {
      var (ns, more) := Parse(ts[1..]);
      ParseWrites(ts[1..]);
      assert ts == [ts[0]] + ts[1..];
      if !ts[0].Start? {
        assert [ts[0]] + Write(ns) + more == [ts[0]] + (Write(ns) + more);
      } else if |more| > 0 {
        ParseWrites(more[1..]);
        ElemReadsBack(ts, ns, more, Parse(more[1..]).0, Parse(more[1..]).1);
      } else {
        assert more == [] && [ts[0]] + Write(ns) + [] == [ts[0]] + (Write(ns) + more);
      }
    }
  }

  // ----- the decoder's state -----------------------------------------------------------------

  datatype Frame = Frame(name: string, attrs: seq<Attr>, children: seq<Element>, capture: bool, isLine: bool, content: string)

  /** `root` is the finished document element. */
  datatype State = State(frames: seq<Frame>, count: nat, root: Option<Element>)

  predicate AnyCapture(frames: seq<Frame>) {
    exists i :: 0 <= i < |frames| && frames[i].capture
  }

  predicate AnyLine(frames: seq<Frame>) {
    exists i :: 0 <= i < |frames| && frames[i].isLine
  }

  /** Text goes to every word that is open. */
  function WriteText(frames: seq<Frame>, text: string): seq<Frame> {
    seq(|frames|, i requires 0 <= i < |frames| =>
      if frames[i].capture then frames[i].(content := frames[i].content + text) else frames[i])
  }

  predicate TextFits(frames: seq<Frame>, text: string) {
    forall i :: 0 <= i < |frames| && frames[i].capture ==> Bytes(frames[i].content) + Bytes(text) <= MAX_WORD_BYTES
  }

  function Open(st: State, name: string, attrs: seq<Attr>): Option<State> {
    if st.root.Some? || |st.frames| + 1 > MAX_DEPTH || st.count + 1 > MAX_ELEMENTS || !AttrsFit(attrs) then None
    else if IsWord(attrs) && AnyCapture(st.frames) then None
    else if IsLine(attrs) && AnyLine(st.frames) then None
    else Some(State(st.frames + [Frame(name, attrs, [], IsWord(attrs), IsLine(attrs), "")], st.count + 1, None))
  }

  function AddChild(f: Frame, e: Element): Frame {
    f.(children := f.children + [e])
  }

  function Close(st: State): Option<State> {
    if |st.frames| == 0 then None else
    var n := |st.frames| - 1;
    var f := st.frames[n];
    var e := Element(f.name, f.attrs, if f.capture then f.content else "", f.children);
    if n == 0 then Some(State([], st.count, Some(e)))
    else Some(st.(frames := st.frames[..n - 1] + [AddChild(st.frames[n - 1], e)]))
  }

  function Step(st: State, t: Token): Option<State> {
    match t
    case Start(name, attrs) => Open(st, name, attrs)
    case Text(text) =>
      if |st.frames| == 0 then (if Trim(text) == "" then Some(st) else None)
      else if TextFits(st.frames, text) then Some(st.(frames := WriteText(st.frames, text))) else None
    case End => Close(st)
    case Other => Some(st)
  }

  function Run(st: State, ts: seq<Token>): Option<State>
    decreases |ts|
  {
    if |ts| == 0 then Some(st)
    else match Step(st, ts[0])
      case None => None
      case Some(st') => Run(st', ts[1..])
  }

  const Initial := State([], 0, None)

  /** What is returned for input without any element. */
  const Blank := Element("", [], "", [])

  /** None for every error. */
  function Decode(ts: seq<Token>): Option<Element> {
    match Run(Initial, ts)
    case None => None
    case Some(st) => if |st.frames| != 0 then None else Some(st.root.GetOr(Blank))
  }

  // ----- the limits, as the stack meets them --------------------------------------------------------

  datatype Context = Context(depth: nat, count: nat, inWord: bool, used: nat, inLine: bool)

  predicate OpenFits(c: Context, attrs: seq<Attr>) {
    && c.depth + 1 <= MAX_DEPTH && c.count + 1 <= MAX_ELEMENTS && AttrsFit(attrs)
    && !(IsWord(attrs) && c.inWord) && !(IsLine(attrs) && c.inLine)
  }

  function Inside(c: Context, attrs: seq<Attr>): Context {
    Context(c.depth + 1, c.count + 1, c.inWord || IsWord(attrs), if IsWord(attrs) then 0 else c.used, c.inLine || IsLine(attrs))
  }

  function Beyond(c: Context, text: string, count: nat): Context {
    c.(count := c.count + count, used := if c.inWord then c.used + Bytes(text) else c.used)
  }

  predicate Fits(ns: Nodes, c: Context) {
    match ns
    case Nil => true
    case Elem(_, attrs, kids, rest) =>
      && OpenFits(c, attrs) && Fits(kids, Inside(c, attrs))
      && Fits(rest, Beyond(c, TextOf(kids), 1 + Count(kids)))
    case Unclosed(_, attrs, kids) => OpenFits(c, attrs) && Fits(kids, Inside(c, attrs))
    case Chars(text, rest) =>
      && (c.inWord ==> c.used + Bytes(text) <= MAX_WORD_BYTES)
      && Fits(rest, Beyond(c, text, 0))
    case Skip(rest) => Fits(rest, c)
  }

  /** The stack is in the given context. */
  predicate InContext(st: State, c: Context) {
    && |st.frames| == c.depth && st.count == c.count && st.root.None?
    && (c.inWord <==> AnyCapture(st.frames)) && (c.inLine <==> AnyLine(st.frames))
    && forall i :: 0 <= i < |st.frames| && st.frames[i].capture ==> Bytes(st.frames[i].content) == c.used
  }

  /** The stack after reading some text, finished elements and a number of starts inside an open element. */
  function Extend(st: State, text: string, trees: seq<Element>, count: nat): State
    requires |st.frames| > 0
  {
    var n := |st.frames| - 1;
    var frames := WriteText(st.frames, text);
    st.(frames := frames[n := frames[n].(children := frames[n].children + trees)], count := st.count + count)
  }

  function After(st: State, ns: Nodes): State
    requires |st.frames| > 0
  {
    Extend(st, TextOf(ns), Trees(ns), Count(ns))
  }

  // ----- the stack against the recursive reading -----------------------------------------------------

  lemma RunOne(st: State, t: Token, ts: seq<Token>)
    ensures Run(st, [t] + ts) == match Step(st, t) case None => None case Some(st') => Run(st', ts)
  {
    assert ([t] + ts)[1..] == ts;
  }

  lemma OpenContext(st: State, c: Context, name: string, attrs: seq<Attr>)
    requires InContext(st, c)
    ensures Open(st, name, attrs).Some? <==> OpenFits(c, attrs)
    ensures Open(st, name, attrs).Some? ==> InContext(Open(st, name, attrs).value, Inside(c, attrs))
  {
    if OpenFits(c, attrs) {
      var st' := Open(st, name, attrs).value;
      var n := |st.frames|;
      assert st'.frames[n] == Frame(name, attrs, [], IsWord(attrs), IsLine(attrs), "");
      assert forall i :: 0 <= i < n ==> st'.frames[i] == st.frames[i];
    }
  }

  lemma TextContext(st: State, c: Context, text: string)
    requires InContext(st, c) && |st.frames| > 0
    ensures TextFits(st.frames, text) <==> (c.inWord ==> c.used + Bytes(text) <= MAX_WORD_BYTES)
    ensures InContext(st.(frames := WriteText(st.frames, text)), Beyond(c, text, 0))
  {
    var frames := WriteText(st.frames, text);
    forall i | 0 <= i < |frames| && frames[i].capture ensures Bytes(frames[i].content) == c.used + Bytes(text) {
      BytesConcat(st.frames[i].content, text);
    }
    assert forall i :: 0 <= i < |frames| ==> frames[i].capture == st.frames[i].capture && frames[i].isLine == st.frames[i].isLine;
  }

  lemma ExtendTwice(st: State, t: string, es: seq<Element>, c: nat, t': string, es': seq<Element>, c': nat)
    requires |st.frames| > 0
    ensures Extend(Extend(st, t, es, c), t', es', c') == Extend(st, t + t', es + es', c + c')
  {
    var n := |st.frames| - 1;
    var a, b := Extend(Extend(st, t, es, c), t', es', c'), Extend(st, t + t', es + es', c + c');
    forall i | 0 <= i <= n ensures a.frames[i] == b.frames[i] {
      assert st.frames[i].content + t + t' == st.frames[i].content + (t + t');
      if i == n { assert st.frames[n].children + es + es' == st.frames[n].children + (es + es'); }
    }
    assert a.frames == b.frames;
  }

  lemma ExtendNothing(st: State)
    requires |st.frames| > 0
    ensures Extend(st, "", [], 0) == st
  {
    var a := Extend(st, "", [], 0);
    var n := |st.frames| - 1;
    forall i | 0 <= i <= n ensures a.frames[i] == st.frames[i] {
      assert st.frames[i].content + "" == st.frames[i].content && st.frames[i].children + [] == st.frames[i].children;
    }
    assert a.frames == st.frames;
  }

  /** Reading inside an element just opened. */
  lemma ExtendTop(frames: seq<Frame>, f: Frame, count: nat, text: string, trees: seq<Element>, more: nat)
    requires f.content == "" && f.children == []
    ensures
      Extend(State(frames + [f], count, None), text, trees, more)
      == State(WriteText(frames, text) + [f.(children := trees, content := if f.capture then text else "")], count + more, None)
  {
    assert "" + text == text && [] + trees == trees;
    var n := |frames|;
    var a := Extend(State(frames + [f], count, None), text, trees, more).frames;
    var b := WriteText(frames, text) + [f.(children := trees, content := if f.capture then text else "")];
    forall i | 0 <= i <= n ensures a[i] == b[i] {
      if i < n { assert (frames + [f])[i] == frames[i]; }
    }
    assert a == b;
  }

  /** Closing hands the element to the parent. */
  lemma CloseTop(frames: seq<Frame>, f: Frame, count: nat)
    requires |frames| > 0
    ensures
      var e := Element(f.name, f.attrs, if f.capture then f.content else "", f.children);
      var n := |frames| - 1;
      Close(State(frames + [f], count, None)) == Some(State(frames[n := AddChild(frames[n], e)], count, None))
  {
    var n := |frames| - 1;
    var e := Element(f.name, f.attrs, if f.capture then f.content else "", f.children);
    assert (frames + [f])[..n] + [AddChild(frames[n], e)] == frames[n := AddChild(frames[n], e)];
  }

  function Finished(name: string, attrs: seq<Attr>, kids: Nodes): Element {
    Element(name, attrs, if IsWord(attrs) then TextOf(kids) else "", Trees(kids))
  }

  /** Opening, reading the inside and closing is reading one finished element. */
  lemma OpenReadClose(st: State, name: string, attrs: seq<Attr>, kids: Nodes)
    requires |st.frames| > 0 && Open(st, name, attrs).Some?
    ensures Close(After(Open(st, name, attrs).value, kids))
         == Some(Extend(st, TextOf(kids), [Finished(name, attrs, kids)], 1 + Count(kids)))
  {
    var f := Frame(name, attrs, [], IsWord(attrs), IsLine(attrs), "");
    assert Open(st, name, attrs).value == State(st.frames + [f], st.count + 1, None);
    HandOver(st.frames, f, st.count + 1, TextOf(kids), Trees(kids), Count(kids));
  }

  lemma HandOver(frames: seq<Frame>, f: Frame, count: nat, text: string, trees: seq<Element>, more: nat)
    requires |frames| > 0 && f.content == "" && f.children == [] && count > 0
    ensures
      Close(Extend(State(frames + [f], count, None), text, trees, more))
      == Some(Extend(State(frames, count - 1, None), text, [Element(f.name, f.attrs, if f.capture then text else "", trees)], 1 + more))
  {
    ExtendTop(frames, f, count, text, trees, more);
    CloseTop(WriteText(frames, text), f.(children := trees, content := if f.capture then text else ""), count + more);
  }

  lemma ExtendContext(st: State, c: Context, text: string, trees: seq<Element>, count: nat)
    requires InContext(st, c) && |st.frames| > 0
    ensures InContext(Extend(st, text, trees, count), Beyond(c, text, count))
  {
    TextContext(st, c, text);
    var frames, after := WriteText(st.frames, text), Extend(st, text, trees, count).frames;
    assert forall i :: 0 <= i < |after| ==>
      after[i].capture == frames[i].capture && after[i].isLine == frames[i].isLine && after[i].content == frames[i].content;
  }

  /** What the stack makes of nodes inside an open element. */
  predicate Reads(st: State, c: Context, ns: Nodes, us: seq<Token>)
    requires |st.frames| > 0
  {
    ReadsTo(Run(st, Write(ns) + us), Fits(ns, c), Closed(ns), Run(After(st, ns), us))
  }

  predicate ReadsTo(r: Option<State>, fits: bool, closed: bool, done: Option<State>) {
    && (!fits ==> r.None?)
    && (fits && closed ==> r == done)
    && (!closed && r.Some? ==> |r.value.frames| > 0)
  }

  lemma {:induction false} RunNodes(st: State, c: Context, ns: Nodes, us: seq<Token>)
    requires InContext(st, c) && |st.frames| > 0 && Proper(ns) && (Closed(ns) || us == [])
    ensures Reads(st, c, ns, us)
    decreases ns, 1
  {
    match ns
    case Nil =>
      assert [] + us == us;
      ExtendNothing(st);
    case Chars(text, rest) =>
      RunOne(st, Text(text), Write(rest) + us);
      assert Write(ns) + us == [Text(text)] + (Write(rest) + us);
      TextContext(st, c, text);
      if TextFits(st.frames, text) { CharsRead(st, c, text, rest, us); }
    case Skip(rest) =>
      RunOne(st, Other, Write(rest) + us);
      assert Write(ns) + us == [Other] + (Write(rest) + us);
      RunNodes(st, c, rest, us);
    case Unclosed(name, attrs, kids) =>
      RunOne(st, Start(name, attrs), Write(kids));
      assert Write(ns) + us == [Start(name, attrs)] + Write(kids);
      OpenContext(st, c, name, attrs);
      if OpenFits(c, attrs) { UnclosedRead(Open(st, name, attrs).value, Inside(c, attrs), kids); }
    case Elem(name, attrs, kids, rest) =>
      ElemRead(st, c, name, attrs, kids, rest, us);
  }

  lemma {:induction false} CharsRead(st: State, c: Context, text: string, rest: Nodes, us: seq<Token>)
    requires InContext(st, c) && |st.frames| > 0 && Proper(rest) && (Closed(rest) || us == []) && TextFits(st.frames, text)
    ensures
      var st', c' := st.(frames := WriteText(st.frames, text)), Beyond(c, text, 0);
      Reads(st', c', rest, us) && After(st', rest) == After(st, Chars(text, rest))
    decreases rest, 2
  {
    TextContext(st, c, text);
    AfterChars(st, text, rest);
    RunNodes(st.(frames := WriteText(st.frames, text)), Beyond(c, text, 0), rest, us);
  }

  lemma AfterChars(st: State, text: string, rest: Nodes)
    requires |st.frames| > 0
    ensures After(st.(frames := WriteText(st.frames, text)), rest) == After(st, Chars(text, rest))
  {
    var st' := st.(frames := WriteText(st.frames, text));
    assert Extend(st, text, [], 0) == st' by {
      var n := |st.frames| - 1;
      assert st'.frames[n].children + [] == st'.frames[n].children;
      assert st'.frames[n := st'.frames[n]] == st'.frames;
    }
    ExtendTwice(st, text, [], 0, TextOf(rest), Trees(rest), Count(rest));
    assert [] + Trees(rest) == Trees(rest);
  }

  lemma AfterElem(st: State, name: string, attrs: seq<Attr>, kids: Nodes, rest: Nodes)
    requires |st.frames| > 0
    ensures
      After(Extend(st, TextOf(kids), [Finished(name, attrs, kids)], 1 + Count(kids)), rest)
      == After(st, Elem(name, attrs, kids, rest))
  {
    ExtendTwice(st, TextOf(kids), [Finished(name, attrs, kids)], 1 + Count(kids), TextOf(rest), Trees(rest), Count(rest));
  }

  lemma {:induction false} UnclosedRead(st: State, c: Context, kids: Nodes)
    requires InContext(st, c) && |st.frames| > 0 && Proper(kids)
    ensures var r := Run(st, Write(kids)); (!Fits(kids, c) ==> r.None?) && (r.Some? ==> |r.value.frames| > 0)
    decreases kids, 2
  {
    assert Write(kids) + [] == Write(kids);
    RunNodes(st, c, kids, []);
    if Closed(kids) && Fits(kids, c) { assert Run(After(st, kids), []) == Some(After(st, kids)); }
  }

  lemma {:induction false} ElemRead(st: State, c: Context, name: string, attrs: seq<Attr>, kids: Nodes, rest: Nodes, us: seq<Token>)
    requires InContext(st, c) && |st.frames| > 0 && Closed(kids) && Proper(kids) && Proper(rest) && (Closed(rest) || us == [])
    ensures Reads(st, c, Elem(name, attrs, kids, rest), us)
    decreases Elem(name, attrs, kids, rest), 0
  {
    ElemRun(st, c, name, attrs, kids, rest, us);
    var st2 := Extend(st, TextOf(kids), [Finished(name, attrs, kids)], 1 + Count(kids));
    var c2 := Beyond(c, TextOf(kids), 1 + Count(kids));
    AfterElem(st, name, attrs, kids, rest);
    RestRead(st, c, TextOf(kids), [Finished(name, attrs, kids)], 1 + Count(kids), rest, us);
    var opens := OpenFits(c, attrs) && Fits(kids, Inside(c, attrs));
    ThenRest(st, c, Elem(name, attrs, kids, rest), us, Run(st2, Write(rest) + us), opens, Fits(rest, c2), Closed(rest));
  }

  lemma {:induction false} RestRead(st: State, c: Context, text: string, trees: seq<Element>, count: nat, rest: Nodes, us: seq<Token>)
    requires InContext(st, c) && |st.frames| > 0 && Proper(rest) && (Closed(rest) || us == [])
    ensures Reads(Extend(st, text, trees, count), Beyond(c, text, count), rest, us)
    decreases rest, 2
  {
    ExtendContext(st, c, text, trees, count);
    RunNodes(Extend(st, text, trees, count), Beyond(c, text, count), rest, us);
  }

  /** Reading an element and then the rest is reading the two together. */
  lemma ThenRest(st: State, c: Context, ns: Nodes, us: seq<Token>, r: Option<State>, opens: bool, fits: bool, closed: bool)
    requires |st.frames| > 0 && Run(st, Write(ns) + us) == (if opens then r else None)
    requires ReadsTo(r, fits, closed, Run(After(st, ns), us)) && Fits(ns, c) == (opens && fits) && Closed(ns) == closed
    ensures Reads(st, c, ns, us)
  {
  }

  lemma {:induction false} ElemRun(st: State, c: Context, name: string, attrs: seq<Attr>, kids: Nodes, rest: Nodes, us: seq<Token>)
    requires InContext(st, c) && |st.frames| > 0 && Closed(kids) && Proper(kids)
    ensures
      Run(st, Write(Elem(name, attrs, kids, rest)) + us) ==
        if OpenFits(c, attrs) && Fits(kids, Inside(c, attrs))
        then Run(Extend(st, TextOf(kids), [Finished(name, attrs, kids)], 1 + Count(kids)), Write(rest) + us)
        else None
    decreases kids, 2
  {
    var tail := [End] + (Write(rest) + us);
    Regroup(Start(name, attrs), Write(kids), Write(rest), us);
    RunOne(st, Start(name, attrs), Write(kids) + tail);
    OpenContext(st, c, name, attrs);
    if OpenFits(c, attrs) {
      var st1 := Open(st, name, attrs).value;
      RunNodes(st1, Inside(c, attrs), kids, tail);
      RunOne(After(st1, kids), End, Write(rest) + us);
      OpenReadClose(st, name, attrs, kids);
    }
  }
}
