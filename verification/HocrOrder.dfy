/** From results in any order to one list of words in reading order. */
module HocrOrder {
  import opened Counting
  import opened HocrPool

  /** The words among the results, in the order they arrived. */
  function Collect(results: seq<Result>): seq<Transcribed> {
    if |results| == 0 then []
    else (if results[0].HasWord? then [results[0].word] else []) + Collect(results[1..])
  }

  predicate ByLine(ws: seq<Transcribed>) {
    forall i, j :: 0 <= i < j < |ws| ==> ws[i].id <= ws[j].id
  }

  predicate StrictlyByLine(ws: seq<Transcribed>) {
    forall i, j :: 0 <= i < j < |ws| ==> ws[i].id < ws[j].id
  }

  /** Before the first entry that is not smaller: equal entries keep their order. */
  function Insert(ws: seq<Transcribed>, w: Transcribed): seq<Transcribed> {
    if |ws| == 0 || w.id <= ws[0].id then [w] + ws else [ws[0]] + Insert(ws[1..], w)
  }

  /** sort.SliceStable on the line number. */
  function Sort(ws: seq<Transcribed>): seq<Transcribed> {
    if |ws| == 0 then [] else Insert(Sort(ws[1..]), ws[0])
  }

  /** The entries of one line, in order. */
  function OfLine(ws: seq<Transcribed>, id: nat): seq<Transcribed> {
    if |ws| == 0 then [] else (if ws[0].id == id then [ws[0]] else []) + OfLine(ws[1..], id)
  }

  lemma {:induction false} InsertSorted(ws: seq<Transcribed>, w: Transcribed)
    requires ByLine(ws)
    ensures ByLine(Insert(ws, w))
    ensures |Insert(ws, w)| > 0 && Insert(ws, w)[0].id == if |ws| == 0 || w.id <= ws[0].id then w.id else ws[0].id
    decreases |ws|
  {
    if |ws| > 0 && w.id > ws[0].id {
      InsertSorted(ws[1..], w);
      var rest := Insert(ws[1..], w);
      assert forall i :: 0 < i < |rest| ==> rest[0].id <= rest[i].id;
    }
  }

  lemma {:induction false} InsertCounts(ws: seq<Transcribed>, w: Transcribed, x: Transcribed)
    ensures Count(Insert(ws, w), x) == (if w == x then 1 else 0) + Count(ws, x)
    decreases |ws|
  {
    if |ws| == 0 || w.id <= ws[0].id {
      CountOne(w, ws, x);
    } else {
      InsertCounts(ws[1..], w, x);
      CountOne(ws[0], Insert(ws[1..], w), x);
    }
  }

  lemma OfLineOne(w: Transcribed, ws: seq<Transcribed>, id: nat)
    ensures OfLine([w] + ws, id) == (if w.id == id then [w] else []) + OfLine(ws, id)
  {
    assert ([w] + ws)[1..] == ws;
  }

  lemma {:induction false} InsertStable(ws: seq<Transcribed>, w: Transcribed, id: nat)
    ensures OfLine(Insert(ws, w), id) == (if w.id == id then [w] else []) + OfLine(ws, id)
    decreases |ws|
  {
    if |ws| == 0 || w.id <= ws[0].id {
      OfLineOne(w, ws, id);
    } else {
      InsertStable(ws[1..], w, id);
      OfLineOne(ws[0], Insert(ws[1..], w), id);
    }
  }

  /** Sorting orders by line, keeps every entry, and keeps the order within a line. */
  lemma {:induction false} SortCorrect(ws: seq<Transcribed>)
    ensures ByLine(Sort(ws)) && Permutation(Sort(ws), ws)
    ensures forall id: nat :: OfLine(Sort(ws), id) == OfLine(ws, id)
    decreases |ws|
  {
    if |ws| > 0 {
      SortCorrect(ws[1..]);
      InsertSorted(Sort(ws[1..]), ws[0]);
      forall x ensures Count(Sort(ws), x) == Count(ws, x) { InsertCounts(Sort(ws[1..]), ws[0], x); }
      forall id: nat ensures OfLine(Sort(ws), id) == OfLine(ws, id) { InsertStable(Sort(ws[1..]), ws[0], id); }
    }
  }

  lemma SameHead(a: seq<Transcribed>, b: seq<Transcribed>)
    requires ByLine(a) && StrictlyByLine(b) && Permutation(a, b) && |b| > 0
    ensures |a| > 0 && a[0] == b[0]
  {
    CountPositive(b, b[0]);
    CountPositive(a, b[0]);
    var j :| 0 <= j < |a| && a[j] == b[0];
    CountPositive(a, a[0]);
    CountPositive(b, a[0]);
    var i :| 0 <= i < |b| && b[i] == a[0];
    assert a[0].id <= a[j].id;
    assert i == 0;
  }

  /** A sorted permutation of a strictly sorted list is that list. */
  lemma {:induction false} SortedUnique(a: seq<Transcribed>, b: seq<Transcribed>)
    requires ByLine(a) && StrictlyByLine(b) && Permutation(a, b)
    ensures a == b
    decreases |b|
  {
    if |b| > 0 {
      SameHead(a, b);
      assert a == [a[0]] + a[1..] && b == [b[0]] + b[1..];
      forall x ensures Count(a[1..], x) == Count(b[1..], x) {
        assert Count(a, x) == Count(b, x);
      }
      SortedUnique(a[1..], b[1..]);
    } else if |a| > 0 {
      CountPositive(a, a[0]);
    }
  }

  // ----- every schedule gives one list -------------------------------------------------------------

  /** The transcribed regions in reading order. */
  function InOrder(rs: seq<Region>, replies: Region -> Reply): seq<Transcribed> {
    if |rs| == 0 then [] else Collect(Outcome(rs[0], replies(rs[0]))) + InOrder(rs[1..], replies)
  }

  lemma {:induction false} CollectConcat(a: seq<Result>, b: seq<Result>)
    ensures Collect(a + b) == Collect(a) + Collect(b)
    decreases |a|
  {
    if |a| == 0 {
      assert a + b == b;
    } else {
      assert (a + b)[0] == a[0] && (a + b)[1..] == a[1..] + b;
      CollectConcat(a[1..], b);
    }
  }

  lemma {:induction false} CollectCounts(results: seq<Result>, w: Transcribed)
    ensures Count(Collect(results), w) == Count(results, HasWord(w))
    decreases |results|
  {
    if |results| > 0 {
      CollectCounts(results[1..], w);
      CountConcat(if results[0].HasWord? then [results[0].word] else [], Collect(results[1..]), w);
    }
  }

  lemma {:induction false} CollectSequential(rs: seq<Region>, replies: Region -> Reply)
    ensures Collect(Sequential(rs, replies)) == InOrder(rs, replies)
    decreases |rs|
  {
    if |rs| > 0 {
      CollectSequential(rs[1..], replies);
      CollectConcat(Outcome(rs[0], replies(rs[0])), Sequential(rs[1..], replies));
    }
  }

  lemma {:induction false} InOrderStrict(rs: seq<Region>, replies: Region -> Reply)
    requires Numbered(rs)
    ensures StrictlyByLine(InOrder(rs, replies))
    ensures forall i :: 0 <= i < |InOrder(rs, replies)| ==> |rs| > 0 && rs[0].id <= InOrder(rs, replies)[i].id
    decreases |rs|
  {
    if |rs| > 0 {
      InOrderStrict(rs[1..], replies);
      var own, rest := Collect(Outcome(rs[0], replies(rs[0]))), InOrder(rs[1..], replies);
      OwnWord(rs[0], replies(rs[0]));
      assert forall i :: 0 <= i < |rest| ==> rs[0].id < rest[i].id;
    }
  }

  lemma OwnWord(r: Region, reply: Reply)
    ensures var own := Collect(Outcome(r, reply)); |own| <= 1 && (|own| == 1 ==> own[0].id == r.id)
  {
    var out := Outcome(r, reply);
    if |out| == 1 { assert out[1..] == []; }
  }

  lemma OwnExactly(r: Region, reply: Reply)
    ensures var own := Collect(Outcome(r, reply));
      (Legible(reply) ==> |own| == 1 && Renders(own[0], r, reply)) && (!Legible(reply) ==> own == [])
  {
    OutcomeExactly(r, reply);
    var out := Outcome(r, reply);
    if |out| == 1 { assert out[1..] == []; }
  }

  /** Where region `i` stands in the list: it is there exactly when its reply is legible, with its own box and text. */
  lemma {:induction false} LegibleIsListed(rs: seq<Region>, replies: Region -> Reply, i: nat) returns (j: nat)
    requires i < |rs| && Legible(replies(rs[i]))
    ensures j < |InOrder(rs, replies)| && Renders(InOrder(rs, replies)[j], rs[i], replies(rs[i]))
    decreases |rs|
  {
    OwnExactly(rs[0], replies(rs[0]));
    if i == 0 {
      j := 0;
    } else {
      var k := LegibleIsListed(rs[1..], replies, i - 1);
      j := |Collect(Outcome(rs[0], replies(rs[0])))| + k;
    }
  }

  /** Where entry `j` of the list comes from. */
  lemma {:induction false} ListedIsLegible(rs: seq<Region>, replies: Region -> Reply, j: nat) returns (i: nat)
    requires j < |InOrder(rs, replies)|
    ensures i < |rs| && Legible(replies(rs[i])) && Renders(InOrder(rs, replies)[j], rs[i], replies(rs[i]))
    decreases |rs|
  {
    OwnExactly(rs[0], replies(rs[0]));
    var own := Collect(Outcome(rs[0], replies(rs[0])));
    if j < |own| {
      i := 0;
    } else {
      var k := ListedIsLegible(rs[1..], replies, j - |own|);
      i := k + 1;
    }
  }

  /**
   Whatever the number of workers and whatever order they finish in, collecting
   and sorting gives the transcribed regions in reading order.
   */
  lemma ScheduleIndependent(regions: seq<Region>, workers: nat, es: seq<Event>, replies: Region -> Reply)
    requires Numbered(regions)
    requires IsRun(Start(regions, workers), es, replies) && Finished(Exec(Start(regions, workers), es, replies))
    ensures Sort(Collect(Exec(Start(regions, workers), es, replies).results)) == InOrder(regions, replies)
  {
    var results := Exec(Start(regions, workers), es, replies).results;
    var words := Collect(results);
    EveryScheduleSameResults(regions, workers, es, replies);
    CollectSequential(regions, replies);
    InOrderStrict(regions, replies);
    SortCorrect(words);
    forall w ensures Count(Sort(words), w) == Count(InOrder(regions, replies), w) {
      CollectCounts(results, w);
      CollectCounts(Sequential(regions, replies), w);
    }
    SortedUnique(Sort(words), InOrder(regions, replies));
  }
}
