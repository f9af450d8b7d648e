/** Glyph boxes tile their word, and their texts make it up. */
module HocrTiling {
  import opened Strings
  import opened Hocr
  import opened HocrTraversal
  import opened HocrGlyphs

  // ----- dividing evenly -------------------------------------------------------------------------

  lemma NegativeFactor(a: int, n: nat)
    requires n > 0 && a * n < 0
    ensures a < 0
  {
  }

  lemma Cancel(x: int, y: int, n: nat)
    requires n > 0 && x * n < y * n + n
    ensures x <= y
  {
    assert (x - y - 1) * n == x * n - y * n - n;
    NegativeFactor(x - y - 1, n);
  }

  lemma DivStep(a: nat, w: nat, n: nat)
    requires n > 0
    ensures a / n <= (a + w) / n
    ensures w >= n ==> a / n < (a + w) / n
    ensures w <= n ==> (a + w) / n <= a / n + 1
  {
    var q, q' := a / n, (a + w) / n;
    assert q * n <= a < q * n + n && q' * n <= a + w < q' * n + n;
    assert (q + 1) * n == q * n + n;
    Cancel(q, q', n);
    if w >= n { Cancel(q + 1, q', n); }
    if w <= n { Cancel(q', q + 1, n); }
  }

  /** The `i`-th share of `w`, cut into `n`. */
  function Share(w: nat, n: nat, i: nat): nat
    requires n > 0
  {
    (w * i) / n
  }

  lemma ShareStep(w: nat, n: nat, i: nat)
    requires n > 0
    ensures Share(w, n, i) <= Share(w, n, i + 1)
    ensures w >= n ==> Share(w, n, i) < Share(w, n, i + 1)
    ensures w <= n ==> Share(w, n, i + 1) <= Share(w, n, i) + 1
  {
    assert w * (i + 1) == w * i + w;
    DivStep(w * i, w, n);
  }

  lemma ShareEnds(w: nat, n: nat)
    requires n > 0
    ensures Share(w, n, 0) == 0 && Share(w, n, n) == w
  {
    assert (w * n) / n == w by { DivExact(w, n); }
  }

  lemma DivExact(w: nat, n: nat)
    requires n > 0
    ensures (w * n) / n == w
  {
    var q := (w * n) / n;
    assert q * n <= w * n < q * n + n;
    Cancel(q, w, n);
    Cancel(w, q, n);
  }

  lemma ShareBelow(w: nat, n: nat, i: nat)
    requires i < n && w > 0
    ensures Share(w, n, i) < w
  {
    var q := Share(w, n, i);
    assert q * n <= w * i;
    assert w * i < w * n by { assert w * (n - i) == w * n - w * i; assert w * (n - i) > 0; }
    assert (q + 1) * n == q * n + n;
    Cancel(q + 1, w, n);
  }

  lemma WrapSmall(n: int)
    requires -MAX_INT64 - 1 <= n <= MAX_INT64
    ensures Wrap(n) == n
  {
  }

  /** The product fits in 64 bits. */
  predicate NoOverflow(x1: int, x2: int, n: nat) {
    (x2 - x1) * n <= MAX_INT64
  }

  lemma EvenBoundIs(x1: int, x2: int, n: nat, i: nat)
    requires 0 <= x1 < x2 <= MAX_INT64 && 0 < n && i <= n && NoOverflow(x1, x2, n)
    ensures EvenBound(x1, x2, n, i) == x1 + Share(x2 - x1, n, i) && Share(x2 - x1, n, i) <= x2 - x1
  {
    var w := x2 - x1;
    assert 0 <= w * i <= w * n by { assert w * (n - i) >= 0; assert w * (n - i) == w * n - w * i; }
    WrapSmall(w * i);
    ShareMonotone(w, n, i, n);
    ShareEnds(w, n);
    WrapSmall(x1 + Share(w, n, i));
  }

  lemma {:induction false} ShareMonotone(w: nat, n: nat, i: nat, j: nat)
    requires 0 < n && i <= j
    ensures Share(w, n, i) <= Share(w, n, j)
    ensures w >= n && i < j ==> Share(w, n, i) < Share(w, n, j)
    decreases j - i
  {
    if i < j {
      ShareStep(w, n, j - 1);
      ShareMonotone(w, n, i, j - 1);
    }
  }

  /** The last even boundary is the right edge exactly when the product does not overflow. */
  lemma EvenEndExactly(x1: int, x2: int, n: nat)
    requires 0 <= x1 < x2 <= MAX_INT64 && 0 < n <= MAX_INT64
    ensures EvenBound(x1, x2, n, n) == x2 <==> NoOverflow(x1, x2, n)
  {
    if NoOverflow(x1, x2, n) {
      EvenBoundIs(x1, x2, n, n);
      ShareEnds(x2 - x1, n);
    } else {
      var w := x2 - x1;
      WrapBelow(w * n);
      var v := Wrap(w * n);
      QuotientBelow(v, w, n);
      WrapSmall(x1 + Quotient(v, n));
    }
  }

  lemma WrapBelow(n: nat)
    requires n > MAX_INT64
    ensures Wrap(n) < n && Wrap(n) >= -MAX_INT64 - 1
  {
  }

  lemma DivBelow(v: nat, w: nat, n: nat)
    requires 0 < n && v < w * n
    ensures v / n < w
  {
    var q := v / n;
    assert q * n <= v && (q + 1) * n == q * n + n;
    Cancel(q + 1, w, n);
  }

  lemma DivShrinks(v: nat, n: nat)
    requires 0 < n
    ensures v / n <= v
  {
    assert v * n >= v by { assert v * (n - 1) == v * n - v; assert v * (n - 1) >= 0; }
    assert v < (v + 1) * n by { assert (v + 1) * n == v * n + n; }
    DivBelow(v, v + 1, n);
  }

  lemma QuotientBelow(v: int, w: nat, n: nat)
    requires 0 < n && 0 < w && v < w * n && v >= -MAX_INT64 - 1
    ensures -MAX_INT64 - 1 <= Quotient(v, n) < w
  {
    if v >= 0 { DivBelow(v, w, n); } else { DivShrinks(-v, n); }
  }

  /** When the product overflows, no even boundary reaches the right edge. */
  lemma EvenBelow(x1: int, x2: int, n: nat, i: nat)
    requires 0 <= x1 < x2 <= MAX_INT64 && 0 < n && i <= n && !NoOverflow(x1, x2, n)
    ensures EvenBound(x1, x2, n, i) < x2
  {
    var w := x2 - x1;
    if w * i <= MAX_INT64 {
      WrapSmall(w * i);
      ShareBelow(w, n, i);
      WrapSmall(x1 + Share(w, n, i));
    } else {
      assert w * i <= w * n by { assert w * (n - i) >= 0; assert w * (n - i) == w * n - w * i; }
      WrapBelow(w * i);
      QuotientBelow(Wrap(w * i), w, n);
      WrapSmall(x1 + Quotient(Wrap(w * i), n));
    }
  }

  /** Where a product first overflows. */
  lemma {:induction false} FirstOverflow(w: nat, n: nat) returns (i: nat)
    requires w <= MAX_INT64 < w * n
    ensures 1 < i <= n && w * (i - 1) <= MAX_INT64 < w * i
  {
    if w * (n - 1) <= MAX_INT64 { i := n; } else { i := FirstOverflow(w, n - 1); }
  }

  /** The first product to overflow wraps to a negative number. */
  lemma WrapOnce(v: nat)
    requires MAX_INT64 < v <= 2 * MAX_INT64
    ensures -MAX_INT64 - 1 <= Wrap(v) < 0
  {
  }

  lemma QuotientNegative(v: int, n: nat)
    requires n > 0 && -MAX_INT64 - 1 <= v < 0
    ensures -MAX_INT64 - 1 <= Quotient(v, n) <= 0
  {
    DivShrinks(-v, n);
  }

  lemma FittingBound(x1: int, x2: int, n: nat, i: nat)
    requires 0 <= x1 < x2 <= MAX_INT64 && i < n && (x2 - x1) * i <= MAX_INT64
    ensures EvenBound(x1, x2, n, i) >= x1
  {
    var w := x2 - x1;
    assert w * i >= 0;
    WrapSmall(w * i);
    ShareBelow(w, n, i);
    WrapSmall(x1 + Share(w, n, i));
  }

  lemma OverflownBound(x1: int, x2: int, n: nat, i: nat)
    requires 0 <= x1 < x2 <= MAX_INT64 && n > 0 && MAX_INT64 < (x2 - x1) * i <= 2 * MAX_INT64
    ensures EvenBound(x1, x2, n, i) <= x1
  {
    var v := Wrap((x2 - x1) * i);
    WrapOnce((x2 - x1) * i);
    QuotientNegative(v, n);
    WrapSmall(x1 + Quotient(v, n));
  }

  /** When the product overflows, some segment has no width. */
  lemma EvenStepsBack(x1: int, x2: int, n: nat) returns (i: nat)
    requires 0 <= x1 < x2 <= MAX_INT64 && 0 < n && !NoOverflow(x1, x2, n)
    ensures 0 < i <= n && EvenBound(x1, x2, n, i) <= EvenBound(x1, x2, n, i - 1)
  {
    var w := x2 - x1;
    i := FirstOverflow(w, n);
    assert w * i == w * (i - 1) + w;
    FittingBound(x1, x2, n, i - 1);
    OverflownBound(x1, x2, n, i);
  }

  // ----- glyphs -------------------------------------------------------------------------------------------

  /** First and past-the-last character of segment `i` of `n`; every segment gets at least one. */
  function StartAt(length: nat, n: nat, i: nat): nat
    requires n > 0
  {
    (i * length) / n
  }

  function EndAt(length: nat, n: nat, i: nat): nat
    requires n > 0
  {
    var s, e := StartAt(length, n, i), ((i + 1) * length) / n;
    if e > s then e else if s + 1 > length then length else s + 1
  }

  lemma SegmentRange(length: nat, n: nat, i: nat)
    requires length > 0 && i < n
    ensures StartAt(length, n, i) < EndAt(length, n, i) <= length
    ensures n <= length ==> EndAt(length, n, i) == StartAt(length, n, i + 1)
    ensures n >= length ==> EndAt(length, n, i) == StartAt(length, n, i) + 1
  {
    assert i * length == length * i && (i + 1) * length == length * (i + 1);
    ShareStep(length, n, i);
    ShareBelow(length, n, i);
    ShareMonotone(length, n, i + 1, n);
    ShareEnds(length, n);
  }

  /** The text of each of `n` segments. */
  function Segments(text: string, n: nat): seq<string>
    requires |text| > 0 && n > 0
  {
    seq(n, i requires 0 <= i < n => (SegmentRange(|text|, n, i); text[StartAt(|text|, n, i)..EndAt(|text|, n, i)]))
  }

  function GlyphAt(w: Word, bounds: seq<int>, texts: seq<string>, i: nat): Glyph
    requires i + 1 < |bounds| && i < |texts|
  {
    Glyph(i, texts[i], BBox(bounds[i], w.box.y1, bounds[i + 1], w.box.y2), w.id, w.line)
  }

  /** The glyphs of the first `n` segments; a segment without width yields none. */
  function Glyphs(w: Word, bounds: seq<int>, texts: seq<string>, n: nat): seq<Glyph>
    requires n < |bounds| && n <= |texts|
  {
    if n == 0 then []
    else Glyphs(w, bounds, texts, n - 1) + if bounds[n] <= bounds[n - 1] then [] else [GlyphAt(w, bounds, texts, n - 1)]
  }

  /** Each glyph is its word's: same line, same top and bottom, and its number is its segment's. */
  predicate OfWord(w: Word, gs: seq<Glyph>) {
    && (forall i :: 0 <= i < |gs| ==>
          gs[i].word == w.id && gs[i].line == w.line && gs[i].box.y1 == w.box.y1 && gs[i].box.y2 == w.box.y2 && gs[i].text != "")
    && forall i, j :: 0 <= i < j < |gs| ==> gs[i].index < gs[j].index
  }

  lemma {:induction false} GlyphsOfWord(w: Word, bounds: seq<int>, texts: seq<string>, n: nat)
    requires n < |bounds| && n <= |texts| && forall i :: 0 <= i < |texts| ==> texts[i] != ""
    ensures OfWord(w, Glyphs(w, bounds, texts, n))
    ensures forall i :: 0 <= i < |Glyphs(w, bounds, texts, n)| ==>
      var g := Glyphs(w, bounds, texts, n)[i];
      g.index < n && g.text == texts[g.index] && g.box.x1 == bounds[g.index] && g.box.x2 == bounds[g.index + 1]
  {
    if n > 0 { GlyphsOfWord(w, bounds, texts, n - 1); }
  }

  lemma SegmentsSpeak(text: string, n: nat)
    requires |text| > 0 && n > 0
    ensures forall i :: 0 <= i < n ==> Segments(text, n)[i] != ""
  {
    forall i | 0 <= i < n ensures Segments(text, n)[i] != "" { SegmentRange(|text|, n, i); }
  }

  /** Boxes side by side from `x1` to `x`, each with positive width. */
  predicate Tiles(gs: seq<Glyph>, x1: int, x: int) {
    if |gs| == 0 then x == x1
    else
      var g := gs[|gs| - 1];
      g.box.x2 == x && g.box.x1 < g.box.x2 && Tiles(gs[..|gs| - 1], x1, g.box.x1)
  }

  function Concat(gs: seq<Glyph>): string {
    if |gs| == 0 then "" else Concat(gs[..|gs| - 1]) + gs[|gs| - 1].text
  }

  function Join(texts: seq<string>): string {
    if |texts| == 0 then "" else Join(texts[..|texts| - 1]) + texts[|texts| - 1]
  }

  lemma {:induction false} GlyphsTile(w: Word, bounds: seq<int>, texts: seq<string>, n: nat)
    requires n < |bounds| && n <= |texts| && Sorted(bounds)
    ensures Tiles(Glyphs(w, bounds, texts, n), bounds[0], bounds[n])
  {
    if n > 0 {
      GlyphsTile(w, bounds, texts, n - 1);
      var gs := Glyphs(w, bounds, texts, n - 1);
      assert bounds[n - 1] <= bounds[n] && gs + [] == gs;
      assert (gs + [GlyphAt(w, bounds, texts, n - 1)])[..|gs|] == gs;
    }
  }

  /** When every segment has width, no text is skipped. */
  lemma {:induction false} NothingSkipped(w: Word, bounds: seq<int>, texts: seq<string>, n: nat)
    requires n < |bounds| && n <= |texts| && Increasing(bounds)
    ensures |Glyphs(w, bounds, texts, n)| == n && Concat(Glyphs(w, bounds, texts, n)) == Join(texts[..n])
  {
    if n > 0 {
      NothingSkipped(w, bounds, texts, n - 1);
      var gs, g := Glyphs(w, bounds, texts, n - 1), GlyphAt(w, bounds, texts, n - 1);
      assert (gs + [g])[..|gs|] == gs && texts[..n][..n - 1] == texts[..n - 1];
    }
  }

  /** One character each: as many characters as glyphs, and no more glyphs than columns. */
  lemma {:induction false} OneCharEach(w: Word, bounds: seq<int>, texts: seq<string>, n: nat)
    requires n < |bounds| && n <= |texts| && Sorted(bounds) && forall i :: 0 <= i < |texts| ==> |texts[i]| == 1
    ensures |Concat(Glyphs(w, bounds, texts, n))| == |Glyphs(w, bounds, texts, n)| <= bounds[n] - bounds[0]
  {
    if n > 0 {
      OneCharEach(w, bounds, texts, n - 1);
      var gs, g := Glyphs(w, bounds, texts, n - 1), GlyphAt(w, bounds, texts, n - 1);
      assert bounds[n - 1] <= bounds[n] && gs + [] == gs;
      assert (gs + [g])[..|gs|] == gs;
    }
  }

  /** A segment without width costs its character. */
  lemma {:induction false} SkippedSegment(w: Word, bounds: seq<int>, texts: seq<string>, n: nat, i: nat)
    requires 0 < i <= n < |bounds| && n <= |texts| && bounds[i] <= bounds[i - 1]
    ensures |Glyphs(w, bounds, texts, n)| < n
    decreases n
  {
    if i < n {
      SkippedSegment(w, bounds, texts, n - 1, i);
    } else {
      AtMostOneEach(w, bounds, texts, n - 1);
    }
  }

  lemma {:induction false} AtMostOneEach(w: Word, bounds: seq<int>, texts: seq<string>, n: nat)
    requires n < |bounds| && n <= |texts|
    ensures |Glyphs(w, bounds, texts, n)| <= n
  {
    if n > 0 { AtMostOneEach(w, bounds, texts, n - 1); }
  }

  lemma {:induction false} SingleTexts(w: Word, bounds: seq<int>, texts: seq<string>, n: nat)
    requires n < |bounds| && n <= |texts| && forall i :: 0 <= i < |texts| ==> |texts[i]| == 1
    ensures |Concat(Glyphs(w, bounds, texts, n))| == |Glyphs(w, bounds, texts, n)|
  {
    if n > 0 {
      SingleTexts(w, bounds, texts, n - 1);
      var gs, g := Glyphs(w, bounds, texts, n - 1), GlyphAt(w, bounds, texts, n - 1);
      assert gs + [] == gs && (gs + [g])[..|gs|] == gs;
    }
  }

  /** Boundaries that all stay left of `x` give glyphs that do. */
  lemma {:induction false} GlyphsStayLeft(w: Word, bounds: seq<int>, texts: seq<string>, n: nat, x: int)
    requires n < |bounds| && n <= |texts| && forall i :: 0 <= i <= n ==> bounds[i] < x
    ensures var gs := Glyphs(w, bounds, texts, n); |gs| > 0 ==> gs[|gs| - 1].box.x2 < x
  {
    if n > 0 { GlyphsStayLeft(w, bounds, texts, n - 1, x); }
  }

  /** With no more segments than characters, the segments make up the text. */
  lemma {:induction false} SegmentsJoin(text: string, n: nat, i: nat)
    requires 0 < n <= |text| && i <= n
    ensures StartAt(|text|, n, i) <= |text| && Join(Segments(text, n)[..i]) == text[..StartAt(|text|, n, i)]
  {
    if i > 0 {
      SegmentsJoin(text, n, i - 1);
      SegmentRange(|text|, n, i - 1);
      var texts := Segments(text, n);
      assert texts[..i][..i - 1] == texts[..i - 1] && texts[..i][i - 1] == texts[i - 1];
      var s, e := StartAt(|text|, n, i - 1), StartAt(|text|, n, i);
      assert text[..s] + text[s..e] == text[..e];
    }
  }

  lemma SegmentsSingle(text: string, n: nat)
    requires 0 < |text| <= n
    ensures forall i :: 0 <= i < n ==> |Segments(text, n)[i]| == 1
  {
    forall i | 0 <= i < n ensures |Segments(text, n)[i]| == 1 { SegmentRange(|text|, n, i); }
  }

  /** When every segment has width, the texts make up the word exactly when there are no more segments than characters. */
  lemma CutTextExactly(w: Word, bounds: seq<int>)
    requires |w.text| > 0 && |bounds| >= 2 && Increasing(bounds)
    ensures Concat(Glyphs(w, bounds, Segments(w.text, |bounds| - 1), |bounds| - 1)) == w.text <==> |bounds| - 1 <= |w.text|
  {
    var n := |bounds| - 1;
    var texts := Segments(w.text, n);
    NothingSkipped(w, bounds, texts, n);
    if n <= |w.text| {
      SegmentsJoin(w.text, n, n);
      DivExact(|w.text|, n);
      assert n * |w.text| == |w.text| * n && w.text[..|w.text|] == w.text;
    } else {
      SegmentsSingle(w.text, n);
      OneCharEach(w, bounds, texts, n);
    }
  }

  predicate EvenBounds(bounds: seq<int>, x1: int, x2: int, n: nat)
    requires n > 0
  {
    |bounds| == n + 1 && forall i :: 0 <= i <= n ==> bounds[i] == EvenBound(x1, x2, n, i)
  }

  lemma EvenBoundsSorted(bounds: seq<int>, x1: int, x2: int, n: nat)
    requires 0 <= x1 < x2 <= MAX_INT64 && 0 < n && EvenBounds(bounds, x1, x2, n) && NoOverflow(x1, x2, n)
    ensures Sorted(bounds) && bounds[0] == x1 && bounds[n] == x2
    ensures x2 - x1 >= n ==> Increasing(bounds)
  {
    forall i | 0 <= i <= n ensures bounds[i] == x1 + Share(x2 - x1, n, i) { EvenBoundIs(x1, x2, n, i); }
    forall i, j | 0 <= i < j < |bounds| ensures bounds[i] <= bounds[j] && (x2 - x1 >= n ==> bounds[i] < bounds[j]) {
      ShareMonotone(x2 - x1, n, i, j);
    }
    ShareEnds(x2 - x1, n);
  }

  /** Evenly split: the boxes tile the word exactly when the product does not overflow. */
  lemma EvenTilesExactly(w: Word, bounds: seq<int>)
    requires |w.text| > 0 && 0 <= w.box.x1 < w.box.x2 <= MAX_INT64
    requires EvenBounds(bounds, w.box.x1, w.box.x2, |w.text|)
    ensures Tiles(Glyphs(w, bounds, Segments(w.text, |w.text|), |w.text|), w.box.x1, w.box.x2)
       <==> NoOverflow(w.box.x1, w.box.x2, |w.text|)
  {
    var x1, x2, n := w.box.x1, w.box.x2, |w.text|;
    if NoOverflow(x1, x2, n) {
      EvenBoundsSorted(bounds, x1, x2, n);
      GlyphsTile(w, bounds, Segments(w.text, n), n);
    } else {
      forall i | 0 <= i <= n ensures bounds[i] < x2 { EvenBelow(x1, x2, n, i); }
      GlyphsStayLeft(w, bounds, Segments(w.text, n), n, x2);
    }
  }

  /** Evenly split: the texts make up the word exactly when, besides, the word is at least as wide as it is long. */
  lemma EvenTextExactly(w: Word, bounds: seq<int>)
    requires |w.text| > 0 && 0 <= w.box.x1 < w.box.x2 <= MAX_INT64
    requires EvenBounds(bounds, w.box.x1, w.box.x2, |w.text|)
    ensures Concat(Glyphs(w, bounds, Segments(w.text, |w.text|), |w.text|)) == w.text
       <==> NoOverflow(w.box.x1, w.box.x2, |w.text|) && w.box.x2 - w.box.x1 >= |w.text|
  {
    var x1, x2, n := w.box.x1, w.box.x2, |w.text|;
    SegmentsSingle(w.text, n);
    if !NoOverflow(x1, x2, n) {
      var i := EvenStepsBack(x1, x2, n);
      SkippedSegment(w, bounds, Segments(w.text, n), n, i);
      SingleTexts(w, bounds, Segments(w.text, n), n);
    } else {
      EvenBoundsSorted(bounds, x1, x2, n);
      if x2 - x1 >= n { CutTextExactly(w, bounds); } else { OneCharEach(w, bounds, Segments(w.text, n), n); }
    }
  }

  /** Two characters on a word 2^62 wide: the glyphs neither tile the word nor spell it. */
  lemma EvenSplitOverflows(w: Word, bounds: seq<int>)
    requires w.text == "ab" && w.box.x1 == 0 && w.box.x2 == 0x4000_0000_0000_0000
    requires EvenBounds(bounds, 0, 0x4000_0000_0000_0000, 2)
    ensures !Tiles(Glyphs(w, bounds, Segments("ab", 2), 2), 0, 0x4000_0000_0000_0000)
    ensures Concat(Glyphs(w, bounds, Segments("ab", 2), 2)) != "ab"
  {
    EvenTilesExactly(w, bounds);
    EvenTextExactly(w, bounds);
  }

  // ----- the method --------------------------------------------------------------------------------------------

  method CutGlyphs(w: Word, bounds: seq<int>) returns (glyphs: seq<Glyph>)
    requires |w.text| > 0 && |bounds| >= 2
    ensures glyphs == Glyphs(w, bounds, Segments(w.text, |bounds| - 1), |bounds| - 1)
  {
    ghost var texts := Segments(w.text, |bounds| - 1);
    var segments := |bounds| - 1;
    glyphs := [];
    for i := 0 to segments
      invariant glyphs == Glyphs(w, bounds, texts, i)
    {
      if bounds[i + 1] > bounds[i] {
        var start := (i * |w.text|) / segments;
        var end := ((i + 1) * |w.text|) / segments;
        if end <= start {
          end := start + 1;
          if end > |w.text| { end := |w.text|; }
        }
        SegmentRange(|w.text|, segments, i);
        assert texts[i] == w.text[start..end];
        glyphs := glyphs + [Glyph(i, w.text[start..end], BBox(bounds[i], w.box.y1, bounds[i + 1], w.box.y2), w.id, w.line)];
      }
    }
  }

  /** The boxes tile the word exactly when `tiled`, and the texts make it up exactly when `covered`. */
  predicate Cuts(w: Word, glyphs: seq<Glyph>, tiled: bool, covered: bool) {
    (Tiles(glyphs, w.box.x1, w.box.x2) <==> tiled) && (Concat(glyphs) == w.text <==> covered)
  }

  function BoundsOf(w: Word, cuts: seq<int>): (bounds: seq<int>)
    requires w.text != "" && w.box.x1 < w.box.x2
    ensures |bounds| >= 2
  {
    if cuts == [] then seq(|w.text| + 1, i requires 0 <= i => EvenBound(w.box.x1, w.box.x2, |w.text|, i))
    else Boundaries(w.box.x1, w.box.x2, cuts)
  }

  /** The glyphs of a word whose text is taken as it is. */
  function CutText(w: Word, cuts: seq<int>): seq<Glyph> {
    if w.text == "" || w.box.x2 <= w.box.x1 then []
    else
      var bounds := BoundsOf(w, cuts);
      Glyphs(w, bounds, Segments(w.text, |bounds| - 1), |bounds| - 1)
  }

  function Tidy(w: Word): Word {
    w.(text := Trim(w.text))
  }

  /** The glyphs of one word: its text is trimmed first. */
  function CutWord(w: Word, cuts: seq<int>): seq<Glyph> {
    CutText(Tidy(w), cuts)
  }

  lemma CutCount(x1: int, x2: int, cuts: seq<int>)
    requires x1 < x2
    ensures |Boundaries(x1, x2, cuts)| == |Wanted(x1, x2, cuts)|
  {
    assert Wanted(x1, x2, cuts) == set v | v in Boundaries(x1, x2, cuts) by { BoundariesWanted(x1, x2, cuts); }
    DistinctSize(Boundaries(x1, x2, cuts));
  }

  lemma {:induction false} DistinctSize(s: seq<int>)
    requires Increasing(s)
    ensures |s| == |set v | v in s|
    decreases |s|
  {
    if |s| > 0 {
      assert (set v | v in s) == {s[0]} + set v | v in s[1..] by { assert s == [s[0]] + s[1..]; }
      assert s[0] !in s[1..];
      DistinctSize(s[1..]);
    }
  }

  lemma TilesAlong(w: Word, bounds: seq<int>, texts: seq<string>)
    requires |bounds| >= 2 && |texts| == |bounds| - 1 && Increasing(bounds)
    ensures Tiles(Glyphs(w, bounds, texts, |texts|), bounds[0], bounds[|texts|])
  {
    assert Sorted(bounds);
    GlyphsTile(w, bounds, texts, |texts|);
  }

  lemma CutsJudged(w: Word, glyphs: seq<Glyph>, covered: bool)
    requires Tiles(glyphs, w.box.x1, w.box.x2) && (Concat(glyphs) == w.text <==> covered)
    ensures Cuts(w, glyphs, true, covered)
  {
  }

  lemma CutsExactly(w: Word, cuts: seq<int>)
    requires w.text != "" && w.box.x1 < w.box.x2 && cuts != []
    ensures Cuts(w, CutText(w, cuts), true, |Wanted(w.box.x1, w.box.x2, cuts)| - 1 <= |w.text|)
  {
    CutCount(w.box.x1, w.box.x2, cuts);
    CutAlong(w, Boundaries(w.box.x1, w.box.x2, cuts));
  }

  lemma CutAlong(w: Word, bounds: seq<int>)
    requires w.text != "" && |bounds| >= 2 && Increasing(bounds) && bounds[0] == w.box.x1 && bounds[|bounds| - 1] == w.box.x2
    ensures Cuts(w, Glyphs(w, bounds, Segments(w.text, |bounds| - 1), |bounds| - 1), true, |bounds| - 1 <= |w.text|)
  {
    TilesAlong(w, bounds, Segments(w.text, |bounds| - 1));
    CutTextExactly(w, bounds);
    CutsJudged(w, Glyphs(w, bounds, Segments(w.text, |bounds| - 1), |bounds| - 1), |bounds| - 1 <= |w.text|);
  }

  lemma EvenExactly(w: Word)
    requires w.text != "" && 0 <= w.box.x1 < w.box.x2 <= MAX_INT64
    ensures
      var fits := NoOverflow(w.box.x1, w.box.x2, |w.text|);
      Cuts(w, CutText(w, []), fits, fits && w.box.x2 - w.box.x1 >= |w.text|)
  {
    EvenTilesExactly(w, BoundsOf(w, []));
    EvenTextExactly(w, BoundsOf(w, []));
  }

  /**
   The boxes tile the word's width and the texts make up its text, each exactly when
   it should.  With cuts, the boxes always do, and the texts do when there are no more
   segments than characters.  Without cuts, the boxes do when the even split does not
   overflow, and the texts when, besides, the word is as wide as it is long.
   */
  ghost predicate CutRight(w: Word, cuts: seq<int>, glyphs: seq<Glyph>) {
    OfWord(w, glyphs) &&
    if w.text == "" || w.box.x2 <= w.box.x1 then glyphs == []
    else if cuts != [] then Cuts(w, glyphs, true, |Wanted(w.box.x1, w.box.x2, cuts)| - 1 <= |w.text|)
    else
      var fits := NoOverflow(w.box.x1, w.box.x2, |w.text|);
      Cuts(w, glyphs, fits, fits && w.box.x2 - w.box.x1 >= |w.text|)
  }

  lemma CutTextRight(w: Word, cuts: seq<int>)
    requires 0 <= w.box.x1 && w.box.x2 <= MAX_INT64
    ensures CutRight(w, cuts, CutText(w, cuts))
  {
    if w.text != "" && w.box.x1 < w.box.x2 {
      var bounds := BoundsOf(w, cuts);
      SegmentsSpeak(w.text, |bounds| - 1);
      GlyphsOfWord(w, bounds, Segments(w.text, |bounds| - 1), |bounds| - 1);
      if cuts == [] { EvenExactly(w); } else { CutsExactly(w, cuts); }
    }
  }

  /** Boxes read from digits are never negative. */
  method GlyphsFromWord(w: Word, cuts: seq<int>) returns (glyphs: seq<Glyph>)
    requires 0 <= w.box.x1 <= MAX_INT64 && 0 <= w.box.x2 <= MAX_INT64
    ensures glyphs == CutWord(w, cuts) && CutRight(Tidy(w), cuts, glyphs)
  {
    CutTextRight(Tidy(w), cuts);
    var v := w.(text := Trim(w.text));
    if v.text == "" || v.box.x2 <= v.box.x1 { return []; }
    var bounds := ChooseBounds(v, cuts);
    glyphs := CutGlyphs(v, bounds);
  }

  method ChooseBounds(w: Word, cuts: seq<int>) returns (bounds: seq<int>)
    requires w.text != "" && 0 <= w.box.x1 < w.box.x2 <= MAX_INT64
    ensures bounds == BoundsOf(w, cuts)
  {
    if |cuts| == 0 {
      bounds := EvenlySplit(w.box.x1, w.box.x2, |w.text|);
    } else {
      WrapSmall(w.box.x2 - w.box.x1);
      bounds := NormalizeBoundaries(w.box.x1, w.box.x2, cuts);
    }
  }
}
