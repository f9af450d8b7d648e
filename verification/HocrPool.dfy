/**
 Transcribing lines with a pool of workers: jobs are taken from one queue and
 results arrive in whatever order workers finish.
 */
module HocrPool {
  import opened Nullable
  import opened Strings
  import opened Counting

  /** A segmented line; `id` is its place in reading order. */
  datatype Region = Region(id: nat, x: int, y: int, width: int, height: int)

  /** What cropping and the provider make of a region. */
  datatype Reply = Failed | Reply(text: string)

  datatype Transcribed = Transcribed(id: nat, x: int, y: int, width: int, height: int, text: string)

  /** A result: a word, or a line skipped as empty or unreadable. */
  datatype Result = Skipped | HasWord(word: Transcribed)

  datatype WordBox = WordBox(x: int, y: int, width: int, height: int)

  /** Every detected box is its own line; regions are numbered in that order. */
  function Regions(boxes: seq<WordBox>): (rs: seq<Region>)
    ensures |rs| == |boxes| && Numbered(rs)
    ensures forall i :: 0 <= i < |rs| ==>
      var b := boxes[i]; rs[i].id == i && (rs[i].x, rs[i].y, rs[i].width, rs[i].height) == (b.x, b.y, b.width, b.height)
  {
    seq(|boxes|, i requires 0 <= i < |boxes| => Region(i, boxes[i].x, boxes[i].y, boxes[i].width, boxes[i].height))
  }

  predicate Numbered(rs: seq<Region>) {
    forall i, j :: 0 <= i < j < |rs| ==> rs[i].id < rs[j].id
  }

  predicate Refusal(text: string) {
    Lower(Trim(text)) == "not legible"
  }

  function Lower(s: string): string {
    seq(|s|, i requires 0 <= i < |s| => if 'A' <= s[i] <= 'Z' then s[i] - 'A' + 'a' else s[i])
  }

  /** What a worker sends for a region: nothing after a failure. */
  function Outcome(r: Region, reply: Reply): seq<Result> {
    match reply
    case Failed => []
    case Reply(text) =>
      if Trim(text) == "" || Refusal(Trim(text)) then [Skipped]
      else [HasWord(Transcribed(r.id, r.x, r.y, r.width, r.height, Trim(text)))]
  }

  /** The same letter, in either case. */
  predicate SameLetter(c: char, lower: char) {
    c == lower || ('A' <= c <= 'Z' && c as int + 32 == lower as int)
  }

  predicate SaysNotLegible(t: string) {
    |t| == 11 && forall i :: 0 <= i < 11 ==> SameLetter(t[i], "not legible"[i])
  }

  /** A reply with something to keep: not blank, and not the sentinel in any letter case. */
  predicate Legible(reply: Reply) {
    reply.Reply? && Trim(reply.text) != "" && !SaysNotLegible(Trim(reply.text))
  }

  lemma RefusalExactly(t: string)
    ensures Refusal(t) <==> SaysNotLegible(Trim(t))
  {
    var u, lower := Trim(t), Lower(Trim(t));
    if |u| == 11 {
      forall i | 0 <= i < 11 ensures lower[i] == "not legible"[i] <==> SameLetter(u[i], "not legible"[i]) { }
      if SaysNotLegible(u) { assert lower == "not legible"; }
    }
  }

  /** The word a worker makes of a legible region: its own box, and the trimmed text. */
  predicate Renders(w: Transcribed, r: Region, reply: Reply) {
    && reply.Reply? && w.id == r.id && w.text == Trim(reply.text)
    && w.x == r.x && w.y == r.y && w.width == r.width && w.height == r.height
  }

  /** A worker sends one word for a legible region, a skip for an illegible one, and nothing after a failure. */
  lemma OutcomeExactly(r: Region, reply: Reply)
    ensures var out := Outcome(r, reply);
      && (reply.Failed? <==> out == [])
      && (Legible(reply) <==> |out| == 1 && out[0].HasWord? && Renders(out[0].word, r, reply))
      && (reply.Reply? && !Legible(reply) ==> out == [Skipped])
  {
    if reply.Reply? {
      TrimTwice(reply.text);
      RefusalExactly(Trim(reply.text));
    }
  }

  // ----- the pool ---------------------------------------------------------------------------

  datatype Pool = Pool(queue: seq<Region>, busy: seq<Option<Region>>, results: seq<Result>)

  datatype Event = Take(worker: nat) | Finish(worker: nat)

  predicate Enabled(p: Pool, e: Event) {
    && e.worker < |p.busy|
    && match e
       case Take(k) => p.busy[k].None? && |p.queue| > 0
       case Finish(k) => p.busy[k].Some?
  }

  function Step(p: Pool, e: Event, replies: Region -> Reply): Pool
    requires Enabled(p, e)
  {
    match e
    case Take(k) => Pool(p.queue[1..], p.busy[k := Some(p.queue[0])], p.results)
    case Finish(k) => Pool(p.queue, p.busy[k := None], p.results + Outcome(p.busy[k].value, replies(p.busy[k].value)))
  }

  function Start(regions: seq<Region>, workers: nat): Pool {
    Pool(regions, seq(workers, _ => None), [])
  }

  predicate IsRun(p: Pool, es: seq<Event>, replies: Region -> Reply)
    decreases |es|
  {
    |es| == 0 || (Enabled(p, es[0]) && IsRun(Step(p, es[0], replies), es[1..], replies))
  }

  function Exec(p: Pool, es: seq<Event>, replies: Region -> Reply): Pool
    requires IsRun(p, es, replies)
    decreases |es|
  {
    if |es| == 0 then p else Exec(Step(p, es[0], replies), es[1..], replies)
  }

  /** All jobs taken and all workers idle: the results channel is closed. */
  predicate Finished(p: Pool) {
    p.queue == [] && forall k :: 0 <= k < |p.busy| ==> p.busy[k].None?
  }

  // ----- what every schedule yields --------------------------------------------------------------

  /** How many results equal to `x` a worker holding `b` will send. */
  function Of(b: Option<Region>, replies: Region -> Reply, x: Result): nat {
    if b.Some? then Count(Outcome(b.value, replies(b.value)), x) else 0
  }

  function Queued(rs: seq<Region>, replies: Region -> Reply, x: Result): nat {
    if |rs| == 0 then 0 else Of(Some(rs[0]), replies, x) + Queued(rs[1..], replies, x)
  }

  function InHand(busy: seq<Option<Region>>, replies: Region -> Reply, x: Result): nat {
    if |busy| == 0 then 0 else Of(busy[0], replies, x) + InHand(busy[1..], replies, x)
  }

  /** Results equal to `x`: sent, in hand and still to come. */
  function Total(p: Pool, replies: Region -> Reply, x: Result): nat {
    Count(p.results, x) + InHand(p.busy, replies, x) + Queued(p.queue, replies, x)
  }

  lemma {:induction false} InHandUpdate(busy: seq<Option<Region>>, k: nat, b: Option<Region>, replies: Region -> Reply, x: Result)
    requires k < |busy|
    ensures InHand(busy[k := b], replies, x) + Of(busy[k], replies, x) == InHand(busy, replies, x) + Of(b, replies, x)
    decreases |busy|
  {
    var after := busy[k := b];
    if k > 0 {
      assert after[1..] == busy[1..][k - 1 := b] && after[0] == busy[0];
      InHandUpdate(busy[1..], k - 1, b, replies, x);
    } else {
      assert after[1..] == busy[1..] && after[0] == b;
    }
  }

  /** No step loses, repeats or changes a result. */
  lemma StepConserves(p: Pool, e: Event, replies: Region -> Reply, x: Result)
    requires Enabled(p, e)
    ensures Total(Step(p, e, replies), replies, x) == Total(p, replies, x)
  {
    InHandUpdate(p.busy, e.worker, if e.Take? then Some(p.queue[0]) else None, replies, x);
    if e.Finish? {
      var r := p.busy[e.worker].value;
      CountConcat(p.results, Outcome(r, replies(r)), x);
    }
  }

  lemma {:induction false} RunConserves(p: Pool, es: seq<Event>, replies: Region -> Reply, x: Result)
    requires IsRun(p, es, replies)
    ensures Total(Exec(p, es, replies), replies, x) == Total(p, replies, x)
    decreases |es|
  {
    if |es| > 0 {
      StepConserves(p, es[0], replies, x);
      RunConserves(Step(p, es[0], replies), es[1..], replies, x);
    }
  }

  lemma {:induction false} IdleHoldsNothing(busy: seq<Option<Region>>, replies: Region -> Reply, x: Result)
    requires forall k :: 0 <= k < |busy| ==> busy[k].None?
    ensures InHand(busy, replies, x) == 0
    decreases |busy|
  {
    if |busy| > 0 { IdleHoldsNothing(busy[1..], replies, x); }
  }

  /** Results of all regions, one after the other. */
  function Sequential(rs: seq<Region>, replies: Region -> Reply): seq<Result> {
    if |rs| == 0 then [] else Outcome(rs[0], replies(rs[0])) + Sequential(rs[1..], replies)
  }

  lemma {:induction false} SequentialCounts(rs: seq<Region>, replies: Region -> Reply, x: Result)
    ensures Count(Sequential(rs, replies), x) == Queued(rs, replies, x)
    decreases |rs|
  {
    if |rs| > 0 {
      SequentialCounts(rs[1..], replies, x);
      CountConcat(Outcome(rs[0], replies(rs[0])), Sequential(rs[1..], replies), x);
    }
  }

  /** For every number of workers and every order of completion, the results are those of one worker, up to order. */
  lemma EveryScheduleSameResults(regions: seq<Region>, workers: nat, es: seq<Event>, replies: Region -> Reply)
    requires IsRun(Start(regions, workers), es, replies) && Finished(Exec(Start(regions, workers), es, replies))
    ensures Permutation(Exec(Start(regions, workers), es, replies).results, Sequential(regions, replies))
  {
    var p := Start(regions, workers);
    var t := Exec(p, es, replies);
    forall x ensures Count(t.results, x) == Count(Sequential(regions, replies), x) {
      RunConserves(p, es, replies, x);
      IdleHoldsNothing(p.busy, replies, x);
      IdleHoldsNothing(t.busy, replies, x);
      SequentialCounts(regions, replies, x);
    }
  }

  // ----- the pool always finishes ------------------------------------------------------------------------

  function Busy(busy: seq<Option<Region>>): nat {
    if |busy| == 0 then 0 else (if busy[0].Some? then 1 else 0) + Busy(busy[1..])
  }

  /** Steps left: two per queued job, one per job in hand. */
  function StepsLeft(p: Pool): nat {
    2 * |p.queue| + Busy(p.busy)
  }

  lemma {:induction false} BusyUpdate(busy: seq<Option<Region>>, k: nat, b: Option<Region>)
    requires k < |busy|
    ensures Busy(busy[k := b]) == Busy(busy) - (if busy[k].Some? then 1 else 0) + (if b.Some? then 1 else 0)
    decreases |busy|
  {
    if k > 0 {
      assert busy[k := b][1..] == busy[1..][k - 1 := b];
      BusyUpdate(busy[1..], k - 1, b);
    } else {
      assert busy[k := b][1..] == busy[1..];
    }
  }

  /** With at least one worker, an unfinished pool can always step, and every step brings the end nearer. */
  lemma PoolFinishes(p: Pool, replies: Region -> Reply)
    requires |p.busy| > 0
    ensures Finished(p) || exists e :: Enabled(p, e)
    ensures forall e :: Enabled(p, e) ==> StepsLeft(Step(p, e, replies)) == StepsLeft(p) - 1
  {
    if !Finished(p) {
      if k :| 0 <= k < |p.busy| && p.busy[k].Some? {
        assert Enabled(p, Finish(k));
      } else {
        assert Enabled(p, Take(0));
      }
    }
    forall e | Enabled(p, e) ensures StepsLeft(Step(p, e, replies)) == StepsLeft(p) - 1 {
      BusyUpdate(p.busy, e.worker, if e.Take? then Some(p.queue[0]) else None);
    }
  }
}
