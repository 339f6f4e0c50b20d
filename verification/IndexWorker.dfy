/**
 * The worker of the index queue, one tick at a time: it takes the oldest quiet
 * documents that need work, rebuilds each and marks the generation it noted before.
 */
module IndexWorker {
  import opened IndexQueue

  const QUIET_MS := 3000
  const BATCH_SIZE := 20

  predicate NeedsWork(row: Row, quietBefore: int) {
    row.pendingAt <= quietBefore && row.indexed < row.pending
  }

  function QuietPending(rows: map<Doc, Row>, quietBefore: int): set<Doc> {
    set d | d in rows && NeedsWork(rows[d], quietBefore)
  }

  function AtMostBatch(n: nat): nat {
    if n < BATCH_SIZE then n else BATCH_SIZE
  }

  predicate Distinct(batch: seq<Doc>) {
    forall i, j :: 0 <= i < j < |batch| ==> batch[i] != batch[j]
  }

  /** What the query returns: the oldest first, at most `BATCH_SIZE`, and no older one left out. */
  ghost predicate IsBatch(rows: map<Doc, Row>, quietBefore: int, batch: seq<Doc>) {
    var todo := QuietPending(rows, quietBefore);
    && Distinct(batch)
    && (forall d <- batch :: d in todo)
    && (forall i :: 0 <= i < |batch| ==> batch[i] in rows)
    && |batch| == AtMostBatch(|todo|)
    && (forall i, j :: 0 <= i < j < |batch| ==> rows[batch[i]].pendingAt <= rows[batch[j]].pendingAt)
    && (forall d, x :: d in batch && x in todo && x !in batch ==> rows[d].pendingAt <= rows[x].pendingAt)
  }

  lemma {:induction false} OldestExists(rows: map<Doc, Row>, left: set<Doc>)
    requires left != {} && left <= rows.Keys
    ensures exists d :: d in left && forall x <- left :: rows[d].pendingAt <= rows[x].pendingAt
  {
    var d :| d in left;
    if left != {d} {
      OldestExists(rows, left - {d});
      var m :| m in left - {d} && forall x <- left - {d} :: rows[m].pendingAt <= rows[x].pendingAt;
      var best := if rows[m].pendingAt <= rows[d].pendingAt then m else d;
      assert forall x <- left :: x == d || x in left - {d};
      assert best in left && forall x <- left :: rows[best].pendingAt <= rows[x].pendingAt;
    } else {
      assert forall x <- left :: x == d;
    }
  }

  lemma {:induction false} DistinctSize(batch: seq<Doc>)
    requires Distinct(batch)
    ensures |(set d | d in batch)| == |batch|
  {
    if batch != [] {
      var front, last := batch[..|batch| - 1], batch[|batch| - 1];
      assert batch == front + [last];
      DistinctSize(front);
      assert (set d | d in batch) == (set d | d in front) + {last};
    }
  }

  /** Of `todo`, the oldest are in the batch and the others left. */
  ghost predicate Selecting(rows: map<Doc, Row>, todo: set<Doc>, left: set<Doc>, batch: seq<Doc>) {
    && left <= todo <= rows.Keys && Distinct(batch) && |left| + |batch| == |todo|
    && (forall d :: d in batch <==> d in todo && d !in left)
    && (forall i, j :: 0 <= i < j < |batch| ==>
          batch[i] in rows && batch[j] in rows && rows[batch[i]].pendingAt <= rows[batch[j]].pendingAt)
    && (forall d, x :: d in batch && x in left ==> d in rows && rows[d].pendingAt <= rows[x].pendingAt)
  }

  lemma SelectNext(rows: map<Doc, Row>, todo: set<Doc>, left: set<Doc>, batch: seq<Doc>, d: Doc)
    requires Selecting(rows, todo, left, batch) && d in left && forall x <- left :: rows[d].pendingAt <= rows[x].pendingAt
    ensures Selecting(rows, todo, left - {d}, batch + [d])
  {
  }

  class IndexQueueService {
    var rows: map<Doc, Row>
    /** Updates pushed to each document, and how many of them its index shows. */
    var body: map<Doc, nat>
    var index: map<Doc, nat>
    var running: bool

    ghost predicate Valid()
      reads this
    {
      var s := System(rows, body, index, map[], Idle);
      Counts(s) && Fresh(s)
    }

    constructor ()
      ensures Valid() && rows == map[] && !running
    {
      rows, body, index, running := map[], map[], map[], false;
    }

    /** Saving an update raises the pending generation in the same transaction. */
    method Push(d: Doc, now: int)
      requires Valid()
      modifies this
      ensures Valid() && d in rows && rows[d].indexed < rows[d].pending && rows[d].pendingAt == now
      ensures body == old(body)[d := Count(old(body), d) + 1] && index == old(index) && running == old(running)
      ensures forall x <- old(rows) | x != d :: x in rows && rows[x] == old(rows)[x]
    {
      ghost var before := System(rows, body, index, map[], Idle);
      var row := if d in rows then rows[d].(pending := rows[d].pending + 1, pendingAt := now) else Row(1, 0, now);
      rows := rows[d := row];
      body := body[d := Count(body, d) + 1];
      PushKeepsCounts(before, d, now);
      PushKeepsFresh(before, d, now);
      assert System(rows, body, index, map[], Idle) == Step(before, IndexQueue.Push(d, now));
    }

    method SelectBatch(quietBefore: int) returns (batch: seq<Doc>)
      ensures IsBatch(rows, quietBefore, batch)
    {
      batch := [];
      ghost var todo := QuietPending(rows, quietBefore);
      var left := QuietPending(rows, quietBefore);
      while left != {} && |batch| < BATCH_SIZE
        invariant Selecting(rows, todo, left, batch) && |batch| <= BATCH_SIZE
      {
        OldestExists(rows, left);
        var d :| d in left && forall x <- left :: rows[d].pendingAt <= rows[x].pendingAt;
        SelectNext(rows, todo, left, batch, d);
        batch := batch + [d];
        left := left - {d};
      }
    }

    /** Rebuilds the index of one document from its whole body; it may fail. */
    method IndexDocument(d: Doc, fails: bool) returns (ok: bool)
      requires Valid() && d in rows
      modifies this`index
      ensures Valid() && ok == !fails
      ensures index == if fails then old(index) else old(index)[d := Count(body, d)]
    {
      ok := !fails;
      if ok {
        index := index[d := Count(body, d)];
      }
    }

    /** Rebuilds one document and marks the generation noted before; a failure leaves the mark. */
    method ProcessRow(d: Doc, generation: nat, fails: bool)
      requires Valid() && d in rows && rows[d].indexed < generation <= rows[d].pending
      modifies this`rows, this`index
      ensures Valid()
      ensures rows == if fails then old(rows) else old(rows)[d := old(rows)[d].(indexed := generation)]
      ensures index == if fails then old(index) else old(index)[d := Count(body, d)]
    {
      var ok := IndexDocument(d, fails);
      if ok && rows[d].indexed < generation {
        rows := rows[d := rows[d].(indexed := generation)];
      }
    }

    /**
     * Works off a batch. What succeeds is indexed up to its pending generation;
     * what fails, and everything outside the batch, stays as it is.
     */
    method WorkOff(batch: seq<Doc>, failing: set<Doc>)
      requires Valid() && Distinct(batch)
      requires forall i :: 0 <= i < |batch| ==> batch[i] in rows && rows[batch[i]].indexed < rows[batch[i]].pending
      modifies this`rows, this`index
      ensures Valid() && rows == Marked(old(rows), batch, failing)
      ensures forall i :: 0 <= i < |batch| && batch[i] !in failing ==> Count(index, batch[i]) == Count(body, batch[i])
    {
      ghost var before := rows;
      assert Marked(before, [], failing) == before;
      for i := 0 to |batch|
        invariant Valid() && rows == Marked(before, batch[..i], failing)
        invariant forall k :: 0 <= k < i && batch[k] !in failing ==> Count(index, batch[k]) == Count(body, batch[k])
      {
        var d := batch[i];
        MarkedSnoc(before, batch, failing, i);
        ProcessRow(d, rows[d].pending, d in failing);
      }
      assert batch[..|batch|] == batch;
    }

    method ProcessPending(quietBefore: int, failing: set<Doc>) returns (batch: seq<Doc>)
      requires Valid()
      modifies this`rows, this`index
      ensures Valid() && Worked(old(rows), rows, quietBefore, failing, batch)
      ensures forall i :: 0 <= i < |batch| && batch[i] !in failing ==> Count(index, batch[i]) == Count(body, batch[i])
    {
      batch := SelectBatch(quietBefore);
      WorkOff(batch, failing);
    }

    /** A tick that finds another one running does nothing. */
    method Tick(now: int, failing: set<Doc>) returns (batch: seq<Doc>)
      requires Valid()
      modifies this
      ensures Valid() && running == old(running) && body == old(body)
      ensures old(running) ==> rows == old(rows) && index == old(index)
      ensures !old(running) ==> Worked(old(rows), rows, now - QUIET_MS, failing, batch)
    {
      if running {
        return [];
      }
      running := true;
      batch := ProcessPending(now - QUIET_MS, failing);
      running := false;
    }
  }

  /** The rows with everything in `batch` that does not fail marked as indexed. */
  function Marked(rows: map<Doc, Row>, batch: seq<Doc>, failing: set<Doc>): map<Doc, Row> {
    map d | d in rows :: if d in batch && d !in failing then rows[d].(indexed := rows[d].pending) else rows[d]
  }

  /** A document of the batch that does not fail has its pending generation indexed, and nothing else changes. */
  lemma MarkedMeans(rows: map<Doc, Row>, batch: seq<Doc>, failing: set<Doc>, d: Doc)
    ensures d in Marked(rows, batch, failing) <==> d in rows
    ensures d in rows ==>
              Marked(rows, batch, failing)[d] == Row(rows[d].pending,
                                                     if d in batch && d !in failing then rows[d].pending else rows[d].indexed,
                                                     rows[d].pendingAt)
  {
  }

  lemma MarkedSnoc(rows: map<Doc, Row>, batch: seq<Doc>, failing: set<Doc>, i: nat)
    requires i < |batch| && Distinct(batch) && batch[i] in rows && rows[batch[i]].indexed < rows[batch[i]].pending
    ensures var d := batch[i];
            var before := Marked(rows, batch[..i], failing);
            && before[d] == rows[d]
            && Marked(rows, batch[..i + 1], failing)
               == if d in failing then before else before[d := rows[d].(indexed := rows[d].pending)]
  {
  }

  /** The rows after a batch has been worked off. */
  ghost predicate Worked(before: map<Doc, Row>, after: map<Doc, Row>, quietBefore: int, failing: set<Doc>, batch: seq<Doc>) {
    IsBatch(before, quietBefore, batch) && after == Marked(before, batch, failing)
  }

  /** Without failures a tick takes min(20, remaining) documents off the quiet pending ones. */
  lemma TickMakesProgress(before: map<Doc, Row>, after: map<Doc, Row>, quietBefore: int, batch: seq<Doc>)
    requires Worked(before, after, quietBefore, {}, batch)
    ensures QuietPending(after, quietBefore) == QuietPending(before, quietBefore) - (set d | d in batch)
    ensures |QuietPending(after, quietBefore)| == |QuietPending(before, quietBefore)| -
            AtMostBatch(|QuietPending(before, quietBefore)|)
  {
    var done := set d | d in batch;
    var todo := QuietPending(before, quietBefore);
    DistinctSize(batch);
    assert done <= todo;
    assert QuietPending(after, quietBefore) == todo - done;
  }

  /** A tick changes no row exactly when its whole batch fails. */
  lemma FailingBatchBlocks(before: map<Doc, Row>, after: map<Doc, Row>, quietBefore: int, failing: set<Doc>, batch: seq<Doc>)
    requires Worked(before, after, quietBefore, failing, batch)
    ensures (forall d <- batch :: d in failing) <==> after == before
  {
  }
}
