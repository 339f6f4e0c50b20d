/**
 * The queue of documents whose search index is to be rebuilt. Pushing an update and
 * raising the pending generation is one transaction; the worker notes the generation,
 * rebuilds the index, and only then marks that generation as indexed.
 */
module IndexQueue {
  import opened Common

  type Doc = string

  datatype Row = Row(pending: nat, indexed: nat, pendingAt: int)

  // ------------------------------------------------------------ all interleavings

  /** A rebuild of one document's index between its read of the body and its replace. */
  datatype Rebuild = Rebuild(doc: Doc, updates: nat)

  /** The worker's batch; the head is being rebuilt (by task), or has been. */
  datatype Worker = Idle | Next(batch: seq<(Doc, nat)>) | Rebuilding(batch: seq<(Doc, nat)>, task: nat) | Rebuilt(batch: seq<(Doc, nat)>)

  /**
   * `body[d]` counts the updates pushed to `d`; `index[d]` how many of them the index
   * shows, as an index is always built from a whole body.
   */
  datatype System = System(rows: map<Doc, Row>, body: map<Doc, nat>, index: map<Doc, nat>,
                           rebuilds: map<nat, Rebuild>, worker: Worker)

  datatype Event =
    | Push(doc: Doc, now: int)
    | Tick(batch: seq<Doc>)
    | WorkerReads(task: nat)
    | WorkerFails
    | WorkerReplaces
    | WorkerMarks
    | TimerReads(task: nat, doc: Doc)
    | TimerReplaces(task: nat)

  const START := System(map[], map[], map[], map[], Idle)

  function Count(m: map<Doc, nat>, d: Doc): nat {
    if d in m then m[d] else 0
  }

  predicate Enabled(s: System, e: Event) {
    match e
    case Push(_, _) => true
    case Tick(batch) => s.worker.Idle? && forall d <- batch :: d in s.rows
    case WorkerReads(t) => s.worker.Next? && s.worker.batch != [] && t !in s.rebuilds
    case WorkerFails => (s.worker.Next? || s.worker.Rebuilding?) && s.worker.batch != []
    case WorkerReplaces => s.worker.Rebuilding? && s.worker.batch != [] && s.worker.task in s.rebuilds
    case WorkerMarks => s.worker.Rebuilt? && s.worker.batch != []
    case TimerReads(t, _) => t !in s.rebuilds
    case TimerReplaces(t) => t in s.rebuilds && (s.worker.Rebuilding? ==> s.worker.task != t)
  }

  function Rest(batch: seq<(Doc, nat)>): Worker {
    if |batch| <= 1 then Idle else Next(batch[1..])
  }

  function Generations(s: System, batch: seq<Doc>): seq<(Doc, nat)>
    requires forall d <- batch :: d in s.rows
  {
    seq(|batch|, i requires 0 <= i < |batch| => (batch[i], s.rows[batch[i]].pending))
  }

  function Replace(s: System, task: nat): System
    requires task in s.rebuilds
  {
    var r := s.rebuilds[task];
    s.(index := s.index[r.doc := r.updates], rebuilds := s.rebuilds - {task})
  }

  function Step(s: System, e: Event): System
    requires Enabled(s, e)
  {
    match e
    case Push(d, now) =>
      var row := if d in s.rows then s.rows[d].(pending := s.rows[d].pending + 1, pendingAt := now) else Row(1, 0, now);
      s.(rows := s.rows[d := row], body := s.body[d := Count(s.body, d) + 1])
    case Tick(batch) => s.(worker := if batch == [] then Idle else Worker.Next(Generations(s, batch)))
    case WorkerReads(t) =>
      var d := s.worker.batch[0].0;
      s.(rebuilds := s.rebuilds[t := Rebuild(d, Count(s.body, d))], worker := Rebuilding(s.worker.batch, t))
    case WorkerFails =>
      s.(worker := Rest(s.worker.batch),
         rebuilds := if s.worker.Rebuilding? then s.rebuilds - {s.worker.task} else s.rebuilds)
    case WorkerReplaces => Replace(s, s.worker.task).(worker := Rebuilt(s.worker.batch))
    case WorkerMarks =>
      var (d, generation) := s.worker.batch[0];
      s.(rows := if d in s.rows && s.rows[d].indexed < generation then s.rows[d := s.rows[d].(indexed := generation)] else s.rows,
         worker := Rest(s.worker.batch))
    case TimerReads(t, d) => s.(rebuilds := s.rebuilds[t := Rebuild(d, Count(s.body, d))])
    case TimerReplaces(t) => Replace(s, t)
  }

  /** A push raises the pending generation and the body by one and leaves every other document alone. */
  lemma PushMeans(s: System, d: Doc, now: int, other: Doc)
    ensures var after := Step(s, Push(d, now));
            && d in after.rows && after.rows[d].pendingAt == now && Count(after.body, d) == Count(s.body, d) + 1
            && after.rows[d].pending == (if d in s.rows then s.rows[d].pending + 1 else 1)
            && after.rows[d].indexed == (if d in s.rows then s.rows[d].indexed else 0)
            && after.index == s.index && after.rebuilds == s.rebuilds && after.worker == s.worker
            && (other != d ==> && (other in after.rows <==> other in s.rows)
                               && (other in s.rows ==> after.rows[other] == s.rows[other])
                               && Count(after.body, other) == Count(s.body, other))
  {
  }

  /** A round of the worker nobody disturbs indexes the whole body and marks the pending generation; a failed one does neither. */
  lemma WorkerRound(s: System, d: Doc, t: nat, other: Doc)
    requires s.worker.Idle? && d in s.rows && s.rows[d].indexed <= s.rows[d].pending && t !in s.rebuilds
    ensures Enabled(s, Tick([d]))
    ensures var s1 := Step(s, Tick([d]));
            && Enabled(s1, WorkerReads(t))
            && var s2 := Step(s1, WorkerReads(t));
               && Enabled(s2, WorkerReplaces)
               && var s3 := Step(s2, WorkerReplaces);
                  && Enabled(s3, WorkerMarks)
                  && var s4 := Step(s3, WorkerMarks);
                     && s4.worker.Idle? && s4.body == s.body && s4.rebuilds == s.rebuilds
                     && Count(s4.index, d) == Count(s.body, d)
                     && d in s4.rows && s4.rows[d] == Row(s.rows[d].pending, s.rows[d].pending, s.rows[d].pendingAt)
                     && (other != d ==> && Count(s4.index, other) == Count(s.index, other)
                                        && (other in s4.rows <==> other in s.rows)
                                        && (other in s.rows ==> s4.rows[other] == s.rows[other]))
    ensures var s1 := Step(s, Tick([d])); Enabled(s1, WorkerFails) && Step(s1, WorkerFails) == s
  {
    var s1 := Step(s, Tick([d]));
    assert s1.worker.batch == [(d, s.rows[d].pending)];
    var s3 := Step(Step(s1, WorkerReads(t)), WorkerReplaces);
    assert s3.rebuilds == s.rebuilds;
  }

  /** A rebuild from the other timer makes the index show the whole body and marks nothing. */
  lemma TimerRound(s: System, t: nat, d: Doc, other: Doc)
    requires t !in s.rebuilds && (s.worker.Rebuilding? ==> s.worker.task != t)
    ensures var s1 := Step(s, TimerReads(t, d));
            && Enabled(s1, TimerReplaces(t))
            && var s2 := Step(s1, TimerReplaces(t));
               && Count(s2.index, d) == Count(s.body, d) && (other != d ==> Count(s2.index, other) == Count(s.index, other))
               && s2.rows == s.rows && s2.body == s.body && s2.rebuilds == s.rebuilds && s2.worker == s.worker
  {
    assert Step(Step(s, TimerReads(t, d)), TimerReplaces(t)).rebuilds == s.rebuilds;
  }

  /** The queue's promise: a document with nothing pending is fully indexed. */
  ghost predicate Fresh(s: System) {
    forall d <- s.rows | s.rows[d].indexed == s.rows[d].pending :: Count(s.index, d) == Count(s.body, d)
  }

  /** Generations count pushes; nothing is indexed, or about to be, that was not pushed. */
  ghost predicate Counts(s: System) {
    && (forall d <- s.rows :: s.rows[d].indexed <= s.rows[d].pending == Count(s.body, d))
    && (forall d <- s.body :: d in s.rows)
    && (forall d <- s.index :: s.index[d] <= Count(s.body, d))
    && (forall t <- s.rebuilds :: s.rebuilds[t].updates <= Count(s.body, s.rebuilds[t].doc))
  }

  /** What the worker noted, and, once it has rebuilt, that marking it would be right. */
  ghost predicate WorkerInv(s: System) {
    match s.worker
    case Idle => true
    case Next(batch) => Noted(s, batch)
    case Rebuilding(batch, t) =>
      && Noted(s, batch) && batch != [] && t in s.rebuilds
      && s.rebuilds[t].doc == batch[0].0 && batch[0].1 <= s.rebuilds[t].updates
    case Rebuilt(batch) => Noted(s, batch) && batch != [] && MarkIsRight(s, batch[0].0, batch[0].1)
  }

  /** The generations of a batch were all noted after the updates they stand for. */
  ghost predicate Noted(s: System, batch: seq<(Doc, nat)>) {
    forall i :: 0 <= i < |batch| ==> batch[i].0 in s.rows && batch[i].1 <= s.rows[batch[i].0].pending
  }

  /** A mark up to the pending generation may only follow a complete rebuild. */
  predicate MarkIsRight(s: System, d: Doc, generation: nat) {
    d in s.rows && s.rows[d].pending == generation ==> Count(s.index, d) == Count(s.body, d)
  }

  ghost predicate Inv(s: System) {
    Counts(s) && Fresh(s) && WorkerInv(s)
  }

  /** The rebuild an event is about to replace the index by. */
  function ReplacedBy(s: System, e: Event): Option<Rebuild>
    requires Enabled(s, e)
  {
    if e.WorkerReplaces? then Some(s.rebuilds[s.worker.task])
    else if e.TimerReplaces? then Some(s.rebuilds[e.task])
    else None
  }

  /** The worker is about to mark the document up to its pending generation. */
  predicate AboutToMark(s: System, d: Doc) {
    s.worker.Rebuilt? && s.worker.batch != [] && s.worker.batch[0].0 == d && d in s.rows && s.rows[d].pending == s.worker.batch[0].1
  }

  /** The index is replaced by less than the whole body with nothing left to make up for it. */
  predicate Harmful(s: System, e: Event)
    requires Enabled(s, e)
  {
    var r := ReplacedBy(s, e);
    r.Some? && var d := r.value.doc;
    && d in s.rows && r.value.updates < Count(s.body, d)
    && (s.rows[d].indexed == s.rows[d].pending || AboutToMark(s, d))
  }

  lemma PushKeepsCounts(s: System, d: Doc, now: int)
    requires Counts(s)
    ensures Counts(Step(s, Push(d, now)))
  {
    var s' := Step(s, Push(d, now));
    assert forall x :: Count(s'.body, x) == Count(s.body, x) + if x == d then 1 else 0;
  }

  lemma PushKeepsFresh(s: System, d: Doc, now: int)
    requires Counts(s) && Fresh(s)
    ensures Fresh(Step(s, Push(d, now)))
  {
    var s' := Step(s, Push(d, now));
    assert s'.rows[d].indexed < s'.rows[d].pending;
    assert forall x | x != d :: Count(s'.body, x) == Count(s.body, x);
  }

  lemma PushKeepsInv(s: System, d: Doc, now: int)
    requires Inv(s)
    ensures Inv(Step(s, Push(d, now)))
  {
    var s' := Step(s, Push(d, now));
    PushKeepsCounts(s, d, now);
    PushKeepsFresh(s, d, now);
    assert forall x <- s.rows :: x in s'.rows && s'.rows[x].pending >= s.rows[x].pending;
    if !s.worker.Idle? {
      assert Noted(s, s.worker.batch);
      assert Noted(s', s.worker.batch);
    }
  }

  lemma ReplaceKeepsInvIff(s: System, e: Event)
    requires Inv(s) && Enabled(s, e) && (e.WorkerReplaces? || e.TimerReplaces?)
    ensures Inv(Step(s, e)) <==> !Harmful(s, e)
  {
    ReplaceKeepsCounts(s, e);
    ReplaceKeepsWorkerIff(s, e);
  }

  lemma ReplaceKeepsCounts(s: System, e: Event)
    requires Inv(s) && Enabled(s, e) && (e.WorkerReplaces? || e.TimerReplaces?)
    ensures var s', r := Step(s, e), ReplacedBy(s, e).value;
            && Counts(s')
            && (Fresh(s') <==> (r.doc in s.rows && s.rows[r.doc].indexed == s.rows[r.doc].pending ==> r.updates == Count(s.body, r.doc)))
  {
    var s', r := Step(s, e), ReplacedBy(s, e).value;
    assert forall d :: Count(s'.index, d) == if d == r.doc then r.updates else Count(s.index, d);
  }

  lemma ReplaceKeepsWorkerIff(s: System, e: Event)
    requires Inv(s) && Enabled(s, e) && (e.WorkerReplaces? || e.TimerReplaces?)
    ensures var s', r := Step(s, e), ReplacedBy(s, e).value;
            WorkerInv(s') <==> (AboutToMark(s, r.doc) ==> r.updates == Count(s.body, r.doc))
  {
    var s', r := Step(s, e), ReplacedBy(s, e).value;
    if !s.worker.Idle? {
      assert Noted(s', s.worker.batch) <==> Noted(s, s.worker.batch);
    }
    if s.worker.Rebuilt? {
      var d := s.worker.batch[0].0;
      assert Count(s'.index, d) == if d == r.doc then r.updates else Count(s.index, d);
    }
  }

  lemma TickKeepsInv(s: System, batch: seq<Doc>)
    requires Inv(s) && Enabled(s, Tick(batch))
    ensures Inv(Step(s, Tick(batch)))
  {
  }

  lemma MarkKeepsInv(s: System)
    requires Inv(s) && Enabled(s, WorkerMarks)
    ensures Inv(Step(s, WorkerMarks))
  {
    var batch := s.worker.batch;
    assert Noted(s, batch) && MarkIsRight(s, batch[0].0, batch[0].1);
    var s' := Step(s, WorkerMarks);
    if |batch| > 1 {
      assert Noted(s', batch[1..]);
    }
  }

  lemma OtherStepsKeepInv(s: System, e: Event)
    requires Inv(s) && Enabled(s, e) && (e.WorkerReads? || e.WorkerFails? || e.TimerReads?)
    ensures Inv(Step(s, e))
  {
    if !e.TimerReads? {
      assert Noted(s, s.worker.batch);
      if |s.worker.batch| > 1 {
        assert Noted(s, s.worker.batch[1..]);
      }
    }
  }

  /** The invariant survives a step exactly when the step is not harmful. */
  lemma InvKeptIff(s: System, e: Event)
    requires Inv(s) && Enabled(s, e)
    ensures Inv(Step(s, e)) <==> !Harmful(s, e)
  {
    match e
    case Push(d, now) => PushKeepsInv(s, d, now);
    case Tick(batch) => TickKeepsInv(s, batch);
    case WorkerReplaces => ReplaceKeepsInvIff(s, e);
    case TimerReplaces(_) => ReplaceKeepsInvIff(s, e);
    case WorkerMarks => MarkKeepsInv(s);
    case _ => OtherStepsKeepInv(s, e);
  }

  /** The promise holds, and holds after the mark the worker may be about to make. */
  ghost predicate Promised(s: System) {
    Fresh(s) && (Enabled(s, WorkerMarks) ==> Fresh(Step(s, WorkerMarks)))
  }

  /** A step breaks the promise, at once or by the mark that follows, exactly when it is harmful. */
  lemma StepKeepsPromiseIff(s: System, e: Event)
    requires Inv(s) && Enabled(s, e)
    ensures Promised(Step(s, e)) <==> !Harmful(s, e)
  {
    InvKeptIff(s, e);
    var s' := Step(s, e);
    if Harmful(s, e) {
      HarmBreaksPromise(s, e);
    } else if Enabled(s', WorkerMarks) {
      MarkKeepsInv(s');
    }
  }

  lemma HarmBreaksPromise(s: System, e: Event)
    requires Inv(s) && Enabled(s, e) && Harmful(s, e)
    ensures !Promised(Step(s, e))
  {
    var s', d := Step(s, e), ReplacedBy(s, e).value.doc;
    assert Count(s'.index, d) < Count(s'.body, d) && s'.rows == s.rows;
    if s.rows[d].indexed < s.rows[d].pending {
      assert AboutToMark(s, d);
      assert e.TimerReplaces? && Enabled(s', WorkerMarks);
      assert Step(s', WorkerMarks).rows[d].indexed == Step(s', WorkerMarks).rows[d].pending;
    }
  }

  /** Marks only move forward, whatever else happens. */
  lemma MarksNeverFall(s: System, e: Event, d: Doc)
    requires Enabled(s, e) && d in s.rows
    ensures d in Step(s, e).rows && s.rows[d].indexed <= Step(s, e).rows[d].indexed
    ensures s.rows[d].pending <= Step(s, e).rows[d].pending
  {
  }

  ghost predicate Run(s: System, es: seq<Event>)
    decreases |es|
  {
    es == [] || (Enabled(s, es[0]) && Run(Step(s, es[0]), es[1..]))
  }

  /** No step of the run is harmful. */
  ghost predicate Harmless(s: System, es: seq<Event>)
    requires Run(s, es)
    decreases |es|
  {
    es == [] || (!Harmful(s, es[0]) && Harmless(Step(s, es[0]), es[1..]))
  }

  /** The promise holds in every state of the run. */
  ghost predicate AlwaysPromised(s: System, es: seq<Event>)
    requires Run(s, es)
    decreases |es|
  {
    Promised(s) && (es == [] || AlwaysPromised(Step(s, es[0]), es[1..]))
  }

  ghost function Final(s: System, es: seq<Event>): System
    requires Run(s, es)
    decreases |es|
  {
    if es == [] then s else Final(Step(s, es[0]), es[1..])
  }

  lemma InvMeansPromised(s: System)
    requires Inv(s)
    ensures Promised(s) && forall d <- s.rows :: s.rows[d].indexed <= s.rows[d].pending
  {
    if Enabled(s, WorkerMarks) {
      MarkKeepsInv(s);
    }
  }

  lemma {:induction false} RunKeepsPromiseIff(s: System, es: seq<Event>)
    requires Inv(s) && Run(s, es)
    ensures AlwaysPromised(s, es) <==> Harmless(s, es)
    ensures Harmless(s, es) ==> Inv(Final(s, es))
    decreases |es|
  {
    InvMeansPromised(s);
    if es != [] {
      InvKeptIff(s, es[0]);
      StepKeepsPromiseIff(s, es[0]);
      if !Harmful(s, es[0]) {
        RunKeepsPromiseIff(Step(s, es[0]), es[1..]);
      }
    }
  }

  /**
   * From the start: the queue keeps its promise throughout a run exactly when no step
   * replaces an index by less than the whole body with nothing left to make up for it.
   */
  lemma QueueIsFreshIff(es: seq<Event>)
    requires Run(START, es)
    ensures AlwaysPromised(START, es) <==> Harmless(START, es)
    ensures Harmless(START, es) ==>
              var s := Final(START, es); Fresh(s) && forall d <- s.rows :: s.rows[d].indexed <= s.rows[d].pending
  {
    RunKeepsPromiseIff(START, es);
    if Harmless(START, es) {
      InvMeansPromised(Final(START, es));
    }
  }

  /** Every rebuild of an index reads the body and replaces the index with nothing in between. */
  ghost predicate Atomic(es: seq<Event>)
    decreases |es|
  {
    if es == [] then true
    else match es[0]
      case WorkerReads(_) => |es| >= 2 && es[1] == WorkerReplaces && Atomic(es[2..])
      case TimerReads(t, _) => |es| >= 2 && es[1] == TimerReplaces(t) && Atomic(es[2..])
      case WorkerReplaces => false
      case TimerReplaces(_) => false
      case _ => Atomic(es[1..])
  }

  ghost predicate AtRest(s: System) {
    Inv(s) && s.rebuilds == map[] && !s.worker.Rebuilding?
  }

  lemma PairKeepsRest(s: System, e: Event, f: Event)
    requires AtRest(s) && Enabled(s, e)
    requires (e.WorkerReads? && f == WorkerReplaces) || (e.TimerReads? && f == TimerReplaces(e.task))
    ensures var s1 := Step(s, e); Inv(s1) && Enabled(s1, f) && !Harmful(s1, f) && AtRest(Step(s1, f))
  {
    var s1 := Step(s, e);
    InvKeptIff(s, e);
    assert !Harmful(s1, f);
    InvKeptIff(s1, f);
    assert Step(s1, f).rebuilds == map[];
  }

  lemma {:induction false} AtomicIsHarmless(s: System, es: seq<Event>)
    requires AtRest(s) && Run(s, es) && Atomic(es)
    ensures Harmless(s, es)
    decreases |es|
  {
    if es != [] {
      var e, s1 := es[0], Step(s, es[0]);
      if e.WorkerReads? || e.TimerReads? {
        assert es[1..][0] == es[1] && es[1..][1..] == es[2..];
        PairKeepsRest(s, e, es[1]);
        AtomicIsHarmless(Step(s1, es[1]), es[2..]);
      } else {
        InvKeptIff(s, e);
        AtomicIsHarmless(s1, es[1..]);
      }
    }
  }

  /** With atomic rebuilds the queue keeps its promise in every run. */
  lemma AtomicQueueIsFresh(es: seq<Event>)
    requires Run(START, es) && Atomic(es)
    ensures AlwaysPromised(START, es) && Fresh(Final(START, es))
  {
    AtomicIsHarmless(START, es);
    QueueIsFreshIff(es);
  }

  /** Two rebuilds of one document: the timer read first and replaces last. */
  const OVERTAKEN: seq<Event> :=
    [Push("d", 0)] + ([TimerReads(0, "d")] + ([Push("d", 1)] + ([Tick(["d"])] + WORKED_AND_OVERTAKEN)))

  const WORKED_AND_OVERTAKEN: seq<Event> := [WorkerReads(1)] + ([WorkerReplaces] + ([WorkerMarks] + [TimerReplaces(0)]))

  lemma RunFrom(s: System, e: Event, rest: seq<Event>)
    requires Enabled(s, e) && Run(Step(s, e), rest)
    ensures Run(s, [e] + rest) && Final(s, [e] + rest) == Final(Step(s, e), rest)
  {
  }

  /** The worker rebuilds and marks, and then the timer's older rebuild replaces the index. */
  lemma TimerComesLast(s: System)
    requires s.worker == Worker.Next([("d", 2)]) && s.rebuilds == map[0 := Rebuild("d", 1)]
    requires s.rows == map["d" := Row(2, 0, 1)] && s.body == map["d" := 2]
    ensures Run(s, WORKED_AND_OVERTAKEN)
    ensures var last := Final(s, WORKED_AND_OVERTAKEN);
            && "d" in last.rows && last.rows["d"].indexed == last.rows["d"].pending == 2
            && Count(last.body, "d") == 2 && Count(last.index, "d") == 1 && last.worker.Idle?
  {
    var s5 := Step(s, WorkerReads(1));
    var s6 := Step(s5, WorkerReplaces);
    var s7 := Step(s6, WorkerMarks);
    RunFrom(s7, TimerReplaces(0), []);
    assert [TimerReplaces(0)] + [] == [TimerReplaces(0)];
    RunFrom(s6, WorkerMarks, [TimerReplaces(0)]);
    RunFrom(s5, WorkerReplaces, [WorkerMarks] + [TimerReplaces(0)]);
    RunFrom(s, WorkerReads(1), [WorkerReplaces] + ([WorkerMarks] + [TimerReplaces(0)]));
  }

  /** With its read and its replace apart, a rebuild can leave an update out of the index for good. */
  lemma OvertakenRebuildLosesUpdate()
    ensures Run(START, OVERTAKEN)
    ensures var s := Final(START, OVERTAKEN);
            && "d" in s.rows && s.rows["d"].indexed == s.rows["d"].pending == 2
            && Count(s.body, "d") == 2 && Count(s.index, "d") == 1 && s.worker.Idle?
  {
    var s1 := Step(START, Push("d", 0));
    var s2 := Step(s1, TimerReads(0, "d"));
    var s3 := Step(s2, Push("d", 1));
    var s4 := Step(s3, Tick(["d"]));
    TimerComesLast(s4);
    RunFrom(s3, Tick(["d"]), WORKED_AND_OVERTAKEN);
    var r3 := [Tick(["d"])] + WORKED_AND_OVERTAKEN;
    RunFrom(s2, Push("d", 1), r3);
    RunFrom(s1, TimerReads(0, "d"), [Push("d", 1)] + r3);
    RunFrom(START, Push("d", 0), [TimerReads(0, "d")] + ([Push("d", 1)] + r3));
  }
}
