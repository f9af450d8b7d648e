/** Which token streams the decoder accepts, and the tree it returns for them. */
module HocrDocument {
  import opened Nullable
  import opened Strings
  import opened Hocr
  import opened HocrDecode

  // ----- the loop -------------------------------------------------------------------------------

  method SumAttrBytes(attrs: seq<Attr>) returns (n: nat)
    ensures n == AttrBytes(attrs)
  {
    n := 0;
    for i := 0 to |attrs|
      invariant n == AttrBytes(attrs[..i])
    {
      assert attrs[..i + 1][..i] == attrs[..i];
      n := n + attrs[i].size;
    }
    assert attrs[..|attrs|] == attrs;
  }

  method OpenElement(st: State, name: string, attrs: seq<Attr>) returns (r: Option<State>)
    ensures r == Open(st, name, attrs)
  {
    if st.root.Some? || |st.frames| + 1 > MAX_DEPTH { return None; }
    if st.count + 1 > MAX_ELEMENTS || |attrs| > MAX_ATTRIBUTES { return None; }
    var bytes := SumAttrBytes(attrs);
    if bytes > MAX_ATTRIBUTE_BYTES { return None; }
    var word, line := IsWord(attrs), IsLine(attrs);
    for i := 0 to |st.frames|
      invariant forall j :: 0 <= j < i ==> !(word && st.frames[j].capture) && !(line && st.frames[j].isLine)
    {
      if word && st.frames[i].capture { return None; }
      if line && st.frames[i].isLine { return None; }
    }
    r := Some(State(st.frames + [Frame(name, attrs, [], word, line, "")], st.count + 1, None));
  }

  method AppendText(frames: seq<Frame>, text: string) returns (r: Option<seq<Frame>>)
    ensures r == if TextFits(frames, text) then Some(WriteText(frames, text)) else None
  {
    var out := frames;
    for i := 0 to |frames|
      invariant |out| == |frames|
      invariant forall j :: 0 <= j < i ==> out[j] == WriteText(frames, text)[j]
      invariant forall j :: i <= j < |frames| ==> out[j] == frames[j]
      invariant forall j :: 0 <= j < i && frames[j].capture ==> Bytes(frames[j].content) + Bytes(text) <= MAX_WORD_BYTES
    {
      if frames[i].capture {
        if Bytes(frames[i].content) + Bytes(text) > MAX_WORD_BYTES { return None; }
        out := out[i := frames[i].(content := frames[i].content + text)];
      }
    }
    assert out == WriteText(frames, text);
    r := Some(out);
  }

  method DecodeBounded(ts: seq<Token>) returns (r: Option<Element>)
    ensures r == Decode(ts)
  {
    var st := Initial;
    assert ts[0..] == ts;
    for i := 0 to |ts|
      invariant Run(st, ts[i..]) == Run(Initial, ts)
    {
      assert ts[i..][0] == ts[i] && ts[i..][1..] == ts[i + 1..];
      match ts[i]
      case Start(name, attrs) =>
        var next := OpenElement(st, name, attrs);
        if next.None? { return None; }
        st := next.value;
      case Text(text) =>
        if |st.frames| == 0 {
          if Trim(text) != "" { return None; }
        } else {
          var frames := AppendText(st.frames, text);
          if frames.None? { return None; }
          st := st.(frames := frames.value);
        }
      case End =>
        if |st.frames| == 0 { return None; }
        st := Close(st).value;
      case Other =>
    }
    if |st.frames| != 0 { return None; }
    r := Some(st.root.GetOr(Blank));
  }

  // ----- documents ---------------------------------------------------------------------------------

  const Outside := Context(0, 0, false, 0, false)

  /** At the top: blank text, at most one element, and that element within limits. */
  predicate TopFits(ns: Nodes, seen: bool) {
    match ns
    case Nil => true
    case Elem(_, attrs, kids, rest) =>
      !seen && OpenFits(Outside, attrs) && Fits(kids, Inside(Outside, attrs)) && TopFits(rest, true)
    case Unclosed(_, _, _) => false
    case Chars(text, rest) => Trim(text) == "" && TopFits(rest, seen)
    case Skip(rest) => TopFits(rest, seen)
  }

  function RootAfter(root: Option<Element>, ns: Nodes): Option<Element> {
    if Trees(ns) == [] then root else Some(Trees(ns)[0])
  }

  lemma RootCloses(name: string, attrs: seq<Attr>, kids: Nodes)
    requires Open(Initial, name, attrs).Some?
    ensures Close(After(Open(Initial, name, attrs).value, kids)) == Some(State([], 1 + Count(kids), Some(Finished(name, attrs, kids))))
  {
    var f := Frame(name, attrs, [], IsWord(attrs), IsLine(attrs), "");
    ExtendTop([], f, 1, TextOf(kids), Trees(kids), Count(kids));
    assert Open(Initial, name, attrs).value == State([] + [f], 1, None);
    assert WriteText([], TextOf(kids)) == [];
  }

  /** The document element between its start and its end. */
  lemma RootElement(name: string, attrs: seq<Attr>, kids: Nodes, us: seq<Token>)
    requires Closed(kids) && Proper(kids)
    ensures
      Run(Initial, [Start(name, attrs)] + (Write(kids) + ([End] + us))) ==
        if OpenFits(Outside, attrs) && Fits(kids, Inside(Outside, attrs))
        then Run(State([], 1 + Count(kids), Some(Finished(name, attrs, kids))), us)
        else None
  {
    var tail := [End] + us;
    RunOne(Initial, Start(name, attrs), Write(kids) + tail);
    OpenContext(Initial, Outside, name, attrs);
    if OpenFits(Outside, attrs) {
      var st := Open(Initial, name, attrs).value;
      RunNodes(st, Inside(Outside, attrs), kids, tail);
      RunOne(After(st, kids), End, us);
      RootCloses(name, attrs, kids);
    }
  }

  lemma {:induction false} TopRun(st: State, ns: Nodes, us: seq<Token>)
    requires |st.frames| == 0 && Proper(ns) && (Closed(ns) || us == []) && (st.root.None? ==> st == Initial)
    ensures
      var r := Run(st, Write(ns) + us);
      && (TopFits(ns, st.root.Some?) ==> Closed(ns) && r == Run(State([], st.count + Count(ns), RootAfter(st.root, ns)), us))
      && (!TopFits(ns, st.root.Some?) ==> r.None? || |r.value.frames| > 0)
    decreases ns, 0
  {
    match ns
    case Nil => assert [] + us == us;
    case Chars(text, rest) =>
      RunOne(st, Text(text), Write(rest) + us);
      assert Write(ns) + us == [Text(text)] + (Write(rest) + us);
      TopRun(st, rest, us);
    case Skip(rest) =>
      RunOne(st, Other, Write(rest) + us);
      assert Write(ns) + us == [Other] + (Write(rest) + us);
      TopRun(st, rest, us);
    case Unclosed(name, attrs, kids) =>
      assert Write(ns) + us == [Start(name, attrs)] + Write(kids);
      NeverClosed(st, name, attrs, kids);
    case Elem(name, attrs, kids, rest) =>
      Regroup(Start(name, attrs), Write(kids), Write(rest), us);
      if st.root.Some? {
        RunOne(st, Start(name, attrs), Write(kids) + ([End] + (Write(rest) + us)));
      } else {
        RootRun(name, attrs, kids, rest, us);
      }
  }

  lemma NeverClosed(st: State, name: string, attrs: seq<Attr>, kids: Nodes)
    requires |st.frames| == 0 && Proper(kids) && (st.root.None? ==> st == Initial)
    ensures var r := Run(st, [Start(name, attrs)] + Write(kids)); r.None? || |r.value.frames| > 0
  {
    RunOne(st, Start(name, attrs), Write(kids));
    if st.root.None? {
      OpenContext(st, Outside, name, attrs);
      if OpenFits(Outside, attrs) { UnclosedRead(Open(st, name, attrs).value, Inside(Outside, attrs), kids); }
    }
  }

  lemma {:induction false} RootRun(name: string, attrs: seq<Attr>, kids: Nodes, rest: Nodes, us: seq<Token>)
    requires Closed(kids) && Proper(kids) && Proper(rest) && (Closed(rest) || us == [])
    ensures
      var ns := Elem(name, attrs, kids, rest);
      var r := Run(Initial, [Start(name, attrs)] + (Write(kids) + ([End] + (Write(rest) + us))));
      && (TopFits(ns, false) ==> Closed(ns) && r == Run(State([], Count(ns), RootAfter(None, ns)), us))
      && (!TopFits(ns, false) ==> r.None? || |r.value.frames| > 0)
    decreases rest, 1
  {
    RootElement(name, attrs, kids, Write(rest) + us);
    TopRun(State([], 1 + Count(kids), Some(Finished(name, attrs, kids))), rest, us);
    if TopFits(rest, true) { NoSecondRoot(rest); }
  }

  lemma {:induction false} NoSecondRoot(ns: Nodes)
    requires TopFits(ns, true)
    ensures Trees(ns) == []
  {
    match ns
    case Nil =>
    case Chars(_, rest) => NoSecondRoot(rest);
    case Skip(rest) => NoSecondRoot(rest);
  }

  /** For every token stream: the stack accepts exactly the documents within limits, and returns their tree. */
  lemma DecodeExactly(ts: seq<Token>)
    ensures
      var (doc, more) := Parse(ts);
      Decode(ts) == if more == [] && TopFits(doc, false) then Some(RootAfter(None, doc).GetOr(Blank)) else None
  {
    var (doc, more) := Parse(ts);
    ParseWrites(ts);
    TopRun(Initial, doc, more);
    if TopFits(doc, false) {
      var st := State([], Count(doc), RootAfter(None, doc));
      if more != [] { assert more == [End] + more[1..]; RunOne(st, End, more[1..]); }
    }
  }
}
