/** Parsing a document: decode, walk for lines and for words, and refuse too many of either. */
module HocrParse {
  import opened Nullable
  import opened Hocr
  import opened HocrDocument
  import opened HocrDecode
  import opened HocrTraversal

  datatype Parsed = Parsed(lines: seq<Line>, words: seq<Word>)

  function WordTotal(lines: seq<Line>): nat {
    if |lines| == 0 then 0 else WordTotal(lines[..|lines| - 1]) + |lines[|lines| - 1].words|
  }

  predicate Bounded(lines: seq<Line>, words: seq<Word>) {
    |lines| <= MAX_ANNOTATIONS && WordTotal(lines) <= MAX_ANNOTATIONS && |words| <= MAX_ANNOTATIONS
  }

  /** What a parse returns for a token stream. */
  function ParseTokens(ts: seq<Token>): Option<Parsed> {
    var root := Decode(ts);
    if root.Some? && Bounded(Lines(root.value), Words(root.value, ""))
    then Some(Parsed(Lines(root.value), Words(root.value, ""))) else None
  }

  lemma {:induction false} PrefixTotal(lines: seq<Line>, i: nat)
    requires i <= |lines|
    ensures WordTotal(lines[..i]) <= WordTotal(lines)
    decreases |lines| - i
  {
    if i == |lines| {
      assert lines[..i] == lines;
    } else {
      assert lines[..i + 1][..i] == lines[..i];
      PrefixTotal(lines, i + 1);
    }
  }

  /** The running total is compared before it is added to, so it never passes the limit. */
  method ValidateLines(lines: seq<Line>) returns (ok: bool)
    ensures ok <==> WordTotal(lines) <= MAX_ANNOTATIONS && |lines| <= MAX_ANNOTATIONS
  {
    var total := 0;
    for i := 0 to |lines|
      invariant total == WordTotal(lines[..i]) <= MAX_ANNOTATIONS
    {
      assert lines[..i + 1][..i] == lines[..i];
      if |lines[i].words| > MAX_ANNOTATIONS - total {
        PrefixTotal(lines, i + 1);
        return false;
      }
      total := total + |lines[i].words|;
    }
    assert lines[..|lines|] == lines;
    return |lines| <= MAX_ANNOTATIONS;
  }

  method ParseDocument(ts: seq<Token>) returns (r: Option<Parsed>)
    ensures r == ParseTokens(ts)
  {
    var root := DecodeBounded(ts);
    if root.None? { return None; }
    var lines := WalkLines(root.value, []);
    assert lines == Lines(root.value);
    var ok := ValidateLines(lines);
    if !ok { return None; }
    var words := WalkWords(root.value, [], "");
    assert words == Words(root.value, "");
    if |words| > MAX_ANNOTATIONS { return None; }
    return Some(Parsed(lines, words));
  }
}
