/** Cutting a word into glyph boxes. */
module HocrGlyphs {
  import opened Hocr

  datatype Glyph = Glyph(index: nat, text: string, box: BBox, word: string, line: string)

  const MAX_INT64 := 0x7FFF_FFFF_FFFF_FFFF

  /** Two's complement wrap-around to 64 bits. */
  function Wrap(n: int): int {
    (n + 0x8000_0000_0000_0000) % 0x1_0000_0000_0000_0000 - 0x8000_0000_0000_0000
  }

  /** Division that truncates toward zero. */
  function Quotient(n: int, d: nat): int
    requires d > 0
  {
    if n >= 0 then n / d else -((-n) / d)
  }

  // ----- boundaries from cuts ----------------------------------------------------------------

  predicate Sorted(s: seq<int>) {
    forall i, j :: 0 <= i < j < |s| ==> s[i] <= s[j]
  }

  predicate Increasing(s: seq<int>) {
    forall i, j :: 0 <= i < j < |s| ==> s[i] < s[j]
  }

  function Insert(s: seq<int>, n: int): seq<int> {
    if |s| == 0 || n <= s[0] then [n] + s else [s[0]] + Insert(s[1..], n)
  }

  lemma {:induction false} InsertSorted(s: seq<int>, n: int)
    requires Sorted(s)
    ensures Sorted(Insert(s, n)) && |Insert(s, n)| > 0 && (Insert(s, n)[0] == n || (|s| > 0 && Insert(s, n)[0] == s[0]))
    decreases |s|
  {
    if |s| > 0 && n > s[0] {
      InsertSorted(s[1..], n);
      var r := Insert(s[1..], n);
      assert s[0] <= r[0];
    }
  }

  lemma {:induction false} InsertPermutes(s: seq<int>, n: int)
    ensures multiset(Insert(s, n)) == multiset(s) + multiset{n}
    decreases |s|
  {
    if |s| > 0 && n > s[0] {
      InsertPermutes(s[1..], n);
      assert s == [s[0]] + s[1..];
    }
  }

  /** sort.Ints. */
  function Sort(s: seq<int>): seq<int> {
    if |s| == 0 then [] else Insert(Sort(s[1..]), s[0])
  }

  lemma {:induction false} SortSorts(s: seq<int>)
    ensures Sorted(Sort(s)) && multiset(Sort(s)) == multiset(s)
    decreases |s|
  {
    if |s| > 0 {
      SortSorts(s[1..]);
      InsertSorted(Sort(s[1..]), s[0]);
      InsertPermutes(Sort(s[1..]), s[0]);
      assert s == [s[0]] + s[1..];
    }
  }

  /** A cut is an absolute column, or an offset when it lies outside the word. */
  function Placed(x1: int, x2: int, c: int): int {
    if c < x1 || c > x2 then Wrap(x1 + c) else c
  }

  predicate Inner(x1: int, x2: int, v: int) {
    x1 < v < x2
  }

  /** The boundaries the cuts ask for. */
  function Wanted(x1: int, x2: int, cuts: seq<int>): set<int> {
    {x1, x2} + set i | 0 <= i < |cuts| && Inner(x1, x2, Placed(x1, x2, cuts[i])) :: Placed(x1, x2, cuts[i])
  }

  /** The column `v` is asked for: as itself, or as an offset from the left edge that is no column of the word. */
  predicate AskedFor(x1: int, x2: int, cuts: seq<int>, v: int) {
    exists i :: 0 <= i < |cuts| && (cuts[i] == v || (!(x1 <= cuts[i] <= x2) && x1 + cuts[i] == v))
  }

  lemma PlacedExactly(x1: int, x2: int, c: int, v: int)
    requires 0 <= x1 < x2 <= MAX_INT64 && -MAX_INT64 - 1 <= c <= MAX_INT64 && x1 < v < x2
    ensures Placed(x1, x2, c) == v <==> c == v || (!(x1 <= c <= x2) && x1 + c == v)
  {
  }

  /** A boundary is an edge, or a column inside the word that some cut asks for; a sum out of range asks for none. */
  lemma WantedExactly(x1: int, x2: int, cuts: seq<int>, v: int)
    requires 0 <= x1 < x2 <= MAX_INT64 && forall i :: 0 <= i < |cuts| ==> -MAX_INT64 - 1 <= cuts[i] <= MAX_INT64
    ensures v in Wanted(x1, x2, cuts) <==> v == x1 || v == x2 || (x1 < v < x2 && AskedFor(x1, x2, cuts, v))
  {
    if x1 < v < x2 {
      forall i | 0 <= i < |cuts|
        ensures Placed(x1, x2, cuts[i]) == v <==> cuts[i] == v || (!(x1 <= cuts[i] <= x2) && x1 + cuts[i] == v)
      {
        PlacedExactly(x1, x2, cuts[i], v);
      }
    }
  }

  predicate Has(s: seq<int>, v: int) {
    v in s
  }

  predicate SameMembers(a: seq<int>, b: seq<int>) {
    && (forall i {:trigger Has(b, a[i])} :: 0 <= i < |a| ==> Has(b, a[i]))
    && (forall i {:trigger Has(a, b[i])} :: 0 <= i < |b| ==> Has(a, b[i]))
  }

  /** `v` in its place among increasing numbers. */
  function Include(s: seq<int>, v: int): (r: seq<int>)
    requires Increasing(s)
    ensures Increasing(r) && forall x :: x in r <==> x in s || x == v
    ensures |s| > 0 && s[0] < v < s[|s| - 1] ==> |r| >= |s| && r[0] == s[0] && r[|r| - 1] == s[|s| - 1]
  {
    if |s| == 0 || v > s[|s| - 1] then s + [v]
    else if v == s[|s| - 1] then s
    else
      var r := Include(s[..|s| - 1], v);
      assert s == s[..|s| - 1] + [s[|s| - 1]];
      IncludedBelow(s, v, r);
      r + [s[|s| - 1]]
  }

  lemma IncludedBelow(s: seq<int>, v: int, r: seq<int>)
    requires |s| > 0 && Increasing(s) && v < s[|s| - 1] && forall x :: x in r <==> x in s[..|s| - 1] || x == v
    ensures forall i :: 0 <= i < |r| ==> r[i] < s[|s| - 1]
  {
    forall i | 0 <= i < |r| ensures r[i] < s[|s| - 1] { assert r[i] in r; }
  }

  /** The boundaries the cuts ask for, in order, from edge to edge. */
  function Boundaries(x1: int, x2: int, cuts: seq<int>): (r: seq<int>)
    requires x1 < x2
    ensures Increasing(r) && |r| >= 2 && r[0] == x1 && r[|r| - 1] == x2
  {
    if |cuts| == 0 then [x1, x2]
    else
      var r, v := Boundaries(x1, x2, cuts[..|cuts| - 1]), Placed(x1, x2, cuts[|cuts| - 1]);
      if Inner(x1, x2, v) then Include(r, v) else r
  }

  lemma {:induction false} BoundariesWanted(x1: int, x2: int, cuts: seq<int>)
    requires x1 < x2
    ensures forall v :: v in Boundaries(x1, x2, cuts) <==> v in Wanted(x1, x2, cuts)
    decreases |cuts|
  {
    if |cuts| > 0 {
      var n := |cuts| - 1;
      BoundariesWanted(x1, x2, cuts[..n]);
      WantedNext(x1, x2, cuts, n);
      assert cuts[..n + 1] == cuts;
    }
  }

  /** Increasing numbers are determined by which they are. */
  lemma {:induction false} IncreasingUnique(a: seq<int>, b: seq<int>)
    requires Increasing(a) && Increasing(b) && SameMembers(a, b)
    ensures a == b
    decreases |a|
  {
    if |b| > 0 { assert Has(a, b[0]); }
    if |a| > 0 {
      assert Has(b, a[0]);
      SameLast(a, b);
      WithoutLast(a, b);
      IncreasingUnique(a[..|a| - 1], b[..|b| - 1]);
      assert a == a[..|a| - 1] + [a[|a| - 1]] && b == b[..|b| - 1] + [b[|b| - 1]];
    }
  }

  lemma SameLast(a: seq<int>, b: seq<int>)
    requires Increasing(a) && Increasing(b) && |a| > 0 && |b| > 0 && SameMembers(a, b)
    ensures a[|a| - 1] == b[|b| - 1]
  {
    assert Has(b, a[|a| - 1]) && Has(a, b[|b| - 1]);
  }

  lemma WithoutLast(a: seq<int>, b: seq<int>)
    requires Increasing(a) && Increasing(b) && |a| > 0 && |b| > 0 && SameMembers(a, b) && a[|a| - 1] == b[|b| - 1]
    ensures SameMembers(a[..|a| - 1], b[..|b| - 1])
  {
    forall i | 0 <= i < |a| - 1 ensures Has(b[..|b| - 1], a[i]) { assert Has(b, a[i]) && a[i] < a[|a| - 1]; }
    forall i | 0 <= i < |b| - 1 ensures Has(a[..|a| - 1], b[i]) { assert Has(a, b[i]) && b[i] < b[|b| - 1]; }
  }

  /** The loop drops an entry equal to `last`, which starts at -1. */
  method Dedup(s: seq<int>) returns (r: seq<int>)
    requires Sorted(s)
    ensures Increasing(r)
    ensures forall v :: v in r <==> v in s && !(v == -1 && s[0] == -1)
  {
    r := [];
    var last := -1;
    for i := 0 to |s|
      invariant Increasing(r)
      invariant forall v :: v in r <==> v in s[..i] && !(v == -1 && s[0] == -1)
      invariant i > 0 ==> last == s[i - 1]
      invariant i == 0 ==> last == -1
      invariant forall v :: v in r ==> v <= last
      invariant i > 0 && last !in r ==> last == -1 && s[0] == -1
    {
      assert s[..i + 1] == s[..i] + [s[i]];
      if s[i] != last {
        forall j | 0 <= j < |r| ensures r[j] < s[i] { assert r[j] in r && r[j] in s[..i]; }
        r := r + [s[i]];
        last := s[i];
      } else {
        assert i == 0 ==> s[0] == -1;
        assert i > 0 ==> s[i] in s[..i];
      }
    }
    assert s[..|s|] == s;
  }

  /** Both edges, then every cut placed strictly between them. */
  method PlaceCuts(x1: int, x2: int, cuts: seq<int>) returns (all: seq<int>)
    ensures x1 < x2 ==> forall v :: v in all <==> v in Wanted(x1, x2, cuts)
    ensures x2 < x1 ==> all == [x1, x2]
  {
    all := [x1, x2];
    for i := 0 to |cuts|
      invariant x1 < x2 ==> forall v :: v in all <==> v in Wanted(x1, x2, cuts[..i])
      invariant x2 < x1 ==> all == [x1, x2]
    {
      var v := cuts[i];
      if v < x1 || v > x2 { v := Wrap(x1 + cuts[i]); }
      WantedNext(x1, x2, cuts, i);
      if !(v <= x1 || v >= x2) { all := all + [v]; }
    }
    assert cuts[..|cuts|] == cuts;
  }

  /** The numbers of `all` in order, each once, without -1 if it is the least. */
  ghost predicate DistinctOf(bounds: seq<int>, all: seq<int>) {
    && Increasing(bounds)
    && forall v :: v in bounds <==> v in all && !(v == -1 && forall i :: 0 <= i < |all| ==> -1 <= all[i])
  }

  method SortDistinct(all: seq<int>) returns (bounds: seq<int>)
    requires |all| > 0
    ensures DistinctOf(bounds, all)
  {
    SortSorts(all);
    var sorted := Sort(all);
    assert forall v :: v in sorted <==> v in all by { SameMultiset(sorted, all); }
    assert |sorted| > 0 by { assert all[0] in sorted; }
    assert sorted[0] == -1 <==> -1 in all && forall i :: 0 <= i < |all| ==> -1 <= all[i] by { LeastFirst(sorted, all); }
    bounds := Dedup(sorted);
  }

  lemma LeastFirst(sorted: seq<int>, all: seq<int>)
    requires Sorted(sorted) && |sorted| > 0 && forall v :: v in sorted <==> v in all
    ensures sorted[0] in all && forall i :: 0 <= i < |all| ==> sorted[0] <= all[i]
  {
    assert sorted[0] in sorted;
    forall i | 0 <= i < |all| ensures sorted[0] <= all[i] { assert all[i] in all; }
  }

  lemma SameMultiset(a: seq<int>, b: seq<int>)
    requires multiset(a) == multiset(b)
    ensures forall v :: v in a <==> v in b
  {
    forall v ensures v in a <==> v in b {
      assert v in a <==> v in multiset(a);
      assert v in b <==> v in multiset(b);
    }
  }

  /** The width is computed in 64 bits; where it overflows the edges may come out backwards. */
  method NormalizeBoundaries(x1: int, x2: int, cuts: seq<int>) returns (bounds: seq<int>)
    ensures Wrap(x2 - x1) <= 0 ==> bounds == []
    ensures Wrap(x2 - x1) > 0 && x1 < x2 ==>
      Increasing(bounds) && forall v :: v in bounds <==> v in Wanted(x1, x2, cuts) && !(v == -1 && x1 == -1)
    ensures Wrap(x2 - x1) > 0 && x1 < x2 && x1 != -1 ==> bounds == Boundaries(x1, x2, cuts)
    ensures Wrap(x2 - x1) > 0 && x2 < x1 ==> bounds == if x2 == -1 then [x1] else [x2, x1]
  {
    if Wrap(x2 - x1) <= 0 { return []; }
    var all := PlaceCuts(x1, x2, cuts);
    assert |all| > 0 by { assert x1 < x2 ==> x1 in all; }
    bounds := SortDistinct(all);
    if x2 < x1 { DistinctBackwards(x1, x2, bounds); } else { DistinctForwards(x1, x2, cuts, all, bounds); }
  }

  lemma DistinctForwards(x1: int, x2: int, cuts: seq<int>, all: seq<int>, bounds: seq<int>)
    requires x1 < x2 && DistinctOf(bounds, all) && forall v :: v in all <==> v in Wanted(x1, x2, cuts)
    ensures forall v :: v in bounds <==> v in Wanted(x1, x2, cuts) && !(v == -1 && x1 == -1)
    ensures x1 != -1 ==> bounds == Boundaries(x1, x2, cuts)
  {
    assert x1 in all;
    forall i | 0 <= i < |all| ensures x1 <= all[i] { assert all[i] in all; }
    if x1 != -1 { AsWanted(x1, x2, cuts, bounds); }
  }

  lemma DistinctBackwards(x1: int, x2: int, bounds: seq<int>)
    requires x2 < x1 && DistinctOf(bounds, [x1, x2])
    ensures bounds == if x2 == -1 then [x1] else [x2, x1]
  {
    var goal := if x2 == -1 then [x1] else [x2, x1];
    var all := [x1, x2];
    assert all[1] == x2 && (x2 >= -1 <==> forall i :: 0 <= i < |all| ==> -1 <= all[i]);
    forall i | 0 <= i < |bounds| ensures Has(goal, bounds[i]) { assert bounds[i] in bounds; }
    forall i | 0 <= i < |goal| ensures Has(bounds, goal[i]) { assert goal[i] in all; }
    IncreasingUnique(bounds, goal);
  }

  lemma AsWanted(x1: int, x2: int, cuts: seq<int>, bounds: seq<int>)
    requires x1 < x2 && Increasing(bounds) && forall v :: v in bounds <==> v in Wanted(x1, x2, cuts)
    ensures bounds == Boundaries(x1, x2, cuts)
  {
    var r := Boundaries(x1, x2, cuts);
    BoundariesWanted(x1, x2, cuts);
    forall i | 0 <= i < |r| ensures Has(bounds, r[i]) { assert r[i] in r; }
    forall i | 0 <= i < |bounds| ensures Has(r, bounds[i]) { assert bounds[i] in bounds; }
    IncreasingUnique(bounds, r);
  }

  lemma WantedNext(x1: int, x2: int, cuts: seq<int>, i: nat)
    requires i < |cuts|
    ensures Wanted(x1, x2, cuts[..i + 1]) == Wanted(x1, x2, cuts[..i])
      + (if Inner(x1, x2, Placed(x1, x2, cuts[i])) then {Placed(x1, x2, cuts[i])} else {})
  {
    var a, b := cuts[..i], cuts[..i + 1];
    assert forall j :: 0 <= j < i ==> a[j] == b[j];
    assert b[i] == cuts[i];
  }

  // ----- even boundaries -----------------------------------------------------------------------------

  function EvenBound(x1: int, x2: int, n: nat, i: nat): int
    requires n > 0
  {
    Wrap(x1 + Quotient(Wrap((x2 - x1) * i), n))
  }

  method EvenlySplit(x1: int, x2: int, n: int) returns (bounds: seq<int>)
    ensures n <= 0 || x2 <= x1 ==> bounds == []
    ensures n > 0 && x1 < x2 ==> |bounds| == n + 1 && forall i :: 0 <= i <= n ==> bounds[i] == EvenBound(x1, x2, n, i)
  {
    bounds := [];
    if n <= 0 || x2 <= x1 { return; }
    for i := 0 to n + 1
      invariant |bounds| == i && forall j :: 0 <= j < i ==> bounds[j] == EvenBound(x1, x2, n, j)
    {
      bounds := bounds + [Wrap(x1 + Quotient(Wrap((x2 - x1) * i), n))];
    }
  }
}
