/**
 * Ticks in a row, without pushes, when some documents always fail: which of the others
 * are reached, and when.
 */
module IndexStarvation {
  import opened Common
  import opened IndexQueue
  import opened IndexWorker

  type Rows = map<Doc, Row>

  ghost predicate TickTakes(before: Rows, after: Rows, quietBefore: int, failing: set<Doc>) {
    exists batch :: Worked(before, after, quietBefore, failing, batch)
  }

  /** `rows[i + 1]` is what the tick with limit `limits[i]` makes of `rows[i]`; the clock never runs back. */
  ghost predicate Ticks(rows: seq<Rows>, limits: seq<int>, failing: set<Doc>) {
    && |rows| == |limits| + 1
    && (forall i :: 0 <= i < |limits| ==> TickTakes(rows[i], rows[i + 1], limits[i], failing))
    && (forall i :: 0 <= i < |limits| - 1 ==> limits[i] <= limits[i + 1])
  }

  lemma TicksRest(rows: seq<Rows>, limits: seq<int>, failing: set<Doc>)
    requires Ticks(rows, limits, failing) && limits != []
    ensures Ticks(rows[1..], limits[1..], failing)
  {
  }

  predicate Waiting(rows: Rows, limit: int, d: Doc) {
    d in rows && NeedsWork(rows[d], limit)
  }

  /** The failing documents waiting that are older than `d`. */
  function OlderFailing(rows: Rows, limit: int, failing: set<Doc>, d: Doc): set<Doc>
    requires d in rows
  {
    set x | x in QuietPending(rows, limit) && x in failing && rows[x].pendingAt < rows[d].pendingAt
  }

  /** The documents waiting that are as old as `d` or older, those that fail and those that do not. */
  function AsOld(rows: Rows, limit: int, d: Doc): set<Doc>
    requires d in rows
  {
    set x | x in QuietPending(rows, limit) && rows[x].pendingAt <= rows[d].pendingAt
  }

  // -------------------------------------------------------------------- starvation

  /** A batch that holds `d` holds everything that is older. */
  lemma OlderAreTaken(rows: Rows, limit: int, failing: set<Doc>, batch: seq<Doc>, d: Doc)
    requires IsBatch(rows, limit, batch) && d in batch && d in rows
    ensures OlderFailing(rows, limit, failing, d) <= (set x | x in batch) - {d}
  {
  }

  /** Behind twenty older failing documents, `d` is in no batch. */
  lemma TickPassesOver(before: Rows, after: Rows, limit: int, failing: set<Doc>, d: Doc)
    requires TickTakes(before, after, limit, failing) && d in before && |OlderFailing(before, limit, failing, d)| >= BATCH_SIZE
    ensures d in after && after[d] == before[d]
    ensures forall x <- before :: x in failing ==> x in after && after[x] == before[x]
  {
    var batch :| Worked(before, after, limit, failing, batch);
    if d in batch {
      OlderAreTaken(before, limit, failing, batch, d);
      SubsetSize(OlderFailing(before, limit, failing, d), (set x | x in batch) - {d});
      DistinctSize(batch);
      assert false;
    }
  }

  /** Later limits let no older document of the failing ones go. */
  lemma OlderFailingStays(before: Rows, after: Rows, limit: int, later: int, failing: set<Doc>, d: Doc)
    requires d in before && d in after && after[d] == before[d] && limit <= later
    requires forall x <- before :: x in failing ==> x in after && after[x] == before[x]
    ensures |OlderFailing(before, limit, failing, d)| <= |OlderFailing(after, later, failing, d)|
  {
    SubsetSize(OlderFailing(before, limit, failing, d), OlderFailing(after, later, failing, d));
  }

  /** A document with twenty older ones that always fail is never reached, however many ticks there are. */
  lemma {:induction false} NeverReached(rows: seq<Rows>, limits: seq<int>, failing: set<Doc>, d: Doc, n: nat)
    requires Ticks(rows, limits, failing) && limits != [] && n <= |limits|
    requires d in rows[0] && |OlderFailing(rows[0], limits[0], failing, d)| >= BATCH_SIZE
    ensures d in rows[n] && rows[n][d] == rows[0][d]
    decreases n
  {
    if n > 0 {
      assert TickTakes(rows[0], rows[0 + 1], limits[0], failing);
      TickPassesOver(rows[0], rows[1], limits[0], failing, d);
      if |limits| > 1 {
        assert limits[0] <= limits[0 + 1];
        OlderFailingStays(rows[0], rows[1], limits[0], limits[1], failing, d);
        TicksRest(rows, limits, failing);
        NeverReached(rows[1..], limits[1..], failing, d, n - 1);
      }
    }
  }

  // ------------------------------------------------------------------------ progress

  /** Taking a full batch from the documents ahead takes at least the ones that are not stuck. */
  lemma ShrinkSizes(ahead: set<Doc>, failing: set<Doc>, taken: set<Doc>)
    requires taken <= ahead && |taken| == BATCH_SIZE
    ensures |ahead - failing - taken| + BATCH_SIZE <= |ahead - failing| + |ahead * failing|
  {
    SubsetSize(taken * failing, ahead * failing);
    assert taken == taken * failing + (taken - failing);
    assert ahead - failing == (ahead - failing - taken) + (taken - failing);
  }

  /** What is ahead of `d` after a batch: the failing ones as before, of the others those not taken. */
  lemma AsOldAfter(before: Rows, after: Rows, limit: int, failing: set<Doc>, batch: seq<Doc>, d: Doc)
    requires Worked(before, after, limit, failing, batch) && Waiting(before, limit, d) && d !in batch
    ensures AsOld(after, limit, d) - failing == AsOld(before, limit, d) - failing - (set x | x in batch)
    ensures AsOld(after, limit, d) * failing == AsOld(before, limit, d) * failing
    ensures (set x | x in batch) <= AsOld(before, limit, d)
  {
    assert after[d] == before[d];
  }

  /** A tick takes `d`, or a full batch of documents as old as it or older. */
  lemma TickTakesOrShrinks(before: Rows, after: Rows, limit: int, failing: set<Doc>, d: Doc)
    requires TickTakes(before, after, limit, failing) && Waiting(before, limit, d) && d !in failing
    ensures d in after && after[d].pending == before[d].pending
    ensures after[d].indexed == after[d].pending || after[d] == before[d]
    ensures after[d] == before[d] ==>
              var ahead := AsOld(before, limit, d);
              && |AsOld(after, limit, d) - failing| + BATCH_SIZE <= |ahead - failing| + |ahead * failing|
              && AsOld(after, limit, d) * failing == ahead * failing
  {
    var batch :| Worked(before, after, limit, failing, batch);
    if d !in batch {
      FullBatch(before, limit, batch, d);
      DistinctSize(batch);
      AsOldAfter(before, after, limit, failing, batch, d);
      ShrinkSizes(AsOld(before, limit, d), failing, set x | x in batch);
    }
  }

  lemma FullBatch(rows: Rows, limit: int, batch: seq<Doc>, d: Doc)
    requires IsBatch(rows, limit, batch) && d in QuietPending(rows, limit) && d !in batch
    ensures |batch| == BATCH_SIZE
  {
    var todo, taken := QuietPending(rows, limit), set x | x in batch;
    DistinctSize(batch);
    SubsetSize(taken, todo - {d});
  }

  /** Waiting longer brings in only younger documents. */
  lemma AsOldSettles(rows: Rows, limit: int, later: int, d: Doc)
    requires Waiting(rows, limit, d) && limit <= later
    ensures AsOld(rows, later, d) == AsOld(rows, limit, d)
  {
  }

  /** After `n` ticks the document is indexed up to the generation it had at the start. */
  predicate Reached(rows: seq<Rows>, d: Doc, n: nat, generation: nat) {
    n < |rows| && d in rows[n] && rows[n][d].indexed == rows[n][d].pending == generation
  }

  /**
   * With fewer than twenty failing documents as old as `d` or older, every tick clears
   * at least the rest of a batch, and `d` is reached once that adds up.
   */
  lemma {:induction false} ReachedInTime(rows: seq<Rows>, limits: seq<int>, failing: set<Doc>, d: Doc, stuck: nat)
    requires Ticks(rows, limits, failing) && limits != []
    requires Waiting(rows[0], limits[0], d) && d !in failing
    requires |AsOld(rows[0], limits[0], d) * failing| == stuck < BATCH_SIZE
    requires |limits| * (BATCH_SIZE - stuck) >= |AsOld(rows[0], limits[0], d) - failing|
    ensures exists n :: 0 < n <= |limits| && Reached(rows, d, n, rows[0][d].pending)
    decreases |limits|
  {
    var generation := rows[0][d].pending;
    assert TickTakes(rows[0], rows[0 + 1], limits[0], failing);
    TickTakesOrShrinks(rows[0], rows[1], limits[0], failing, d);
    if rows[1][d] != rows[0][d] {
      assert Reached(rows, d, 1, generation);
    } else {
      var fewer := AsOld(rows[1], limits[0], d) - failing;
      assert d in fewer;
      Shrink(|limits|, BATCH_SIZE - stuck, |AsOld(rows[0], limits[0], d) - failing|, |fewer|);
      assert limits[0] <= limits[0 + 1];
      AsOldSettles(rows[1], limits[0], limits[1], d);
      TicksRest(rows, limits, failing);
      ReachedInTime(rows[1..], limits[1..], failing, d, stuck);
      var n :| 0 < n <= |limits| - 1 && Reached(rows[1..], d, n, generation);
      assert Reached(rows, d, n + 1, generation);
    }
  }

  lemma Shrink(n: nat, k: nat, a: nat, b: nat)
    requires n > 0 && n * k >= a && 0 < b && b + k <= a
    ensures (n - 1) * k >= b && n > 1
  {
  }

  /**
   * Given as many ticks as there are healthy documents ahead, and no failing document
   * saved at the same instant: `d` is reached exactly when fewer than twenty failing
   * documents are older.
   */
  lemma ReachedIff(rows: seq<Rows>, limits: seq<int>, failing: set<Doc>, d: Doc)
    requires Ticks(rows, limits, failing) && limits != []
    requires Waiting(rows[0], limits[0], d) && d !in failing
    requires forall x <- QuietPending(rows[0], limits[0]) | x in failing :: rows[0][x].pendingAt != rows[0][d].pendingAt
    requires |limits| >= |AsOld(rows[0], limits[0], d) - failing|
    ensures (exists n :: 0 < n <= |limits| && Reached(rows, d, n, rows[0][d].pending))
            <==> |OlderFailing(rows[0], limits[0], failing, d)| < BATCH_SIZE
  {
    var stuck := OlderFailing(rows[0], limits[0], failing, d);
    assert AsOld(rows[0], limits[0], d) * failing == stuck;
    if |stuck| < BATCH_SIZE {
      AtLeast(|limits|, BATCH_SIZE - |stuck|);
      ReachedInTime(rows, limits, failing, d, |stuck|);
    } else {
      forall n | 0 < n <= |limits|
        ensures !Reached(rows, d, n, rows[0][d].pending)
      {
        NeverReached(rows, limits, failing, d, n);
      }
    }
  }

  lemma AtLeast(n: nat, k: nat)
    requires k >= 1
    ensures n * k >= n
  {
  }

  // ----------------------------------------------------------- ties, left to chance

  /** With `d` waiting behind or beside twenty others, the batch can be filled without it. */
  lemma {:induction false} BatchWithout(rows: Rows, limit: int, d: Doc, n: nat) returns (left: set<Doc>, batch: seq<Doc>)
    requires Waiting(rows, limit, d) && n <= BATCH_SIZE && |AsOld(rows, limit, d) - {d}| >= BATCH_SIZE
    ensures Selecting(rows, QuietPending(rows, limit), left, batch) && |batch| == n && d in left
  {
    if n == 0 {
      left, batch := QuietPending(rows, limit), [];
    } else {
      left, batch := BatchWithout(rows, limit, d, n - 1);
      var m := OldestBut(rows, limit, d, left, batch);
      SelectNext(rows, QuietPending(rows, limit), left, batch, m);
      left, batch := left - {m}, batch + [m];
    }
  }

  lemma OldestBut(rows: Rows, limit: int, d: Doc, left: set<Doc>, batch: seq<Doc>) returns (m: Doc)
    requires Waiting(rows, limit, d) && |AsOld(rows, limit, d) - {d}| >= BATCH_SIZE > |batch|
    requires Selecting(rows, QuietPending(rows, limit), left, batch) && d in left
    ensures m in left && m != d && forall x <- left :: rows[m].pendingAt <= rows[x].pendingAt
  {
    var ahead, taken := AsOld(rows, limit, d) - {d}, set x | x in batch;
    DistinctSize(batch);
    if ahead <= taken {
      SubsetSize(ahead, taken);
      assert false;
    }
    var x :| x in ahead && x !in taken;
    OldestExists(rows, left - {d});
    m :| m in left - {d} && forall y <- left - {d} :: rows[m].pendingAt <= rows[y].pendingAt;
    assert rows[m].pendingAt <= rows[x].pendingAt <= rows[d].pendingAt;
  }

  /** A tick that passes `d` over, as the query may when twenty others are as old or older. */
  lemma TickMayPassOver(rows: Rows, limit: int, failing: set<Doc>, d: Doc) returns (after: Rows)
    requires Waiting(rows, limit, d) && d !in failing && |AsOld(rows, limit, d) * failing| >= BATCH_SIZE
    ensures TickTakes(rows, after, limit, failing) && d in after && after[d] == rows[d]
    ensures forall x <- rows :: x in failing ==> x in after && after[x] == rows[x]
  {
    SubsetSize(AsOld(rows, limit, d) * failing, AsOld(rows, limit, d) - {d});
    var left, batch := BatchWithout(rows, limit, d, BATCH_SIZE);
    SelectedIsBatch(rows, limit, left, batch);
    after := Marked(rows, batch, failing);
    assert Worked(rows, after, limit, failing, batch);
  }

  lemma SelectedIsBatch(rows: Rows, limit: int, left: set<Doc>, batch: seq<Doc>)
    requires Selecting(rows, QuietPending(rows, limit), left, batch) && |batch| == BATCH_SIZE
    ensures IsBatch(rows, limit, batch)
  {
    assert forall i :: 0 <= i < |batch| ==> batch[i] in batch;
  }

  predicate Rising(limits: seq<int>) {
    forall i :: 0 <= i < |limits| - 1 ==> limits[i] <= limits[i + 1]
  }

  /** A run of ticks that never reaches `d`, when twenty failing documents are as old as it or older. */
  lemma {:induction false} TicksMayPassOver(first: Rows, limits: seq<int>, failing: set<Doc>, d: Doc) returns (rows: seq<Rows>)
    requires Rising(limits) && limits != [] && Waiting(first, limits[0], d) && d !in failing
    requires |AsOld(first, limits[0], d) * failing| >= BATCH_SIZE
    ensures Ticks(rows, limits, failing) && rows[0] == first
    ensures forall n :: 0 <= n < |rows| ==> d in rows[n] && rows[n][d] == first[d]
    decreases |limits|
  {
    var second := TickMayPassOver(first, limits[0], failing, d);
    if |limits| == 1 {
      rows := [first, second];
    } else {
      assert limits[0] <= limits[0 + 1];
      SubsetSize(AsOld(first, limits[0], d) * failing, AsOld(second, limits[1], d) * failing);
      var rest := TicksMayPassOver(second, limits[1..], failing, d);
      rows := [first] + rest;
      TicksFront(first, rest, limits, failing);
    }
  }

  lemma TicksFront(first: Rows, rest: seq<Rows>, limits: seq<int>, failing: set<Doc>)
    requires Rising(limits) && limits != [] && Ticks(rest, limits[1..], failing) && TickTakes(first, rest[0], limits[0], failing)
    ensures Ticks([first] + rest, limits, failing)
  {
    var rows := [first] + rest;
    forall i | 0 <= i < |limits|
      ensures TickTakes(rows[i], rows[i + 1], limits[i], failing)
    {
      if i > 0 {
        assert TickTakes(rest[i - 1], rest[i - 1 + 1], limits[1..][i - 1], failing);
      }
    }
  }

  /** Every run of these ticks from `first` indexes `d`, whatever order the query gives to ties. */
  ghost predicate AlwaysReached(first: Rows, limits: seq<int>, failing: set<Doc>, d: Doc)
    requires d in first
  {
    forall rows | Ticks(rows, limits, failing) && rows[0] == first ::
      exists n :: 0 < n <= |limits| && Reached(rows, d, n, first[d].pending)
  }

  /**
   * Given as many ticks as there are healthy documents ahead, `d` is sure to be reached
   * exactly when fewer than twenty failing documents are as old as it or older.
   */
  lemma AlwaysReachedIff(first: Rows, limits: seq<int>, failing: set<Doc>, d: Doc)
    requires Rising(limits) && limits != [] && Waiting(first, limits[0], d) && d !in failing
    requires |limits| >= |AsOld(first, limits[0], d) - failing|
    ensures AlwaysReached(first, limits, failing, d) <==> |AsOld(first, limits[0], d) * failing| < BATCH_SIZE
  {
    var stuck := AsOld(first, limits[0], d) * failing;
    if |stuck| < BATCH_SIZE {
      AtLeast(|limits|, BATCH_SIZE - |stuck|);
      forall rows | Ticks(rows, limits, failing) && rows[0] == first
        ensures exists n :: 0 < n <= |limits| && Reached(rows, d, n, first[d].pending)
      {
        ReachedInTime(rows, limits, failing, d, |stuck|);
      }
    } else {
      var rows := TicksMayPassOver(first, limits, failing, d);
      assert forall n :: 0 < n <= |limits| ==> !Reached(rows, d, n, first[d].pending);
    }
  }

  // ------------------------------------------------------------------------- a run

  function Name(i: nat): Doc {
    seq(i, k => 'x')
  }

  const STUCK: seq<Doc> := seq(BATCH_SIZE, i requires 0 <= i < BATCH_SIZE => Name(i))

  const HEALTHY: Doc := "healthy"

  /** Twenty documents saved at time zero, and one saved later. */
  const STARVED: Rows := (map d | d in STUCK :: Row(1, 0, 0))[HEALTHY := Row(1, 0, 1)]

  lemma NamesDiffer()
    ensures Distinct(STUCK) && HEALTHY !in STUCK
  {
    forall i, j | 0 <= i < j < BATCH_SIZE
      ensures STUCK[i] != STUCK[j]
    {
      assert |STUCK[i]| == i && |STUCK[j]| == j;
    }
    forall i | 0 <= i < BATCH_SIZE
      ensures STUCK[i] != HEALTHY
    {
      assert HEALTHY[0] == 'h';
      assert i > 0 ==> STUCK[i][0] == 'x';
      assert |STUCK[i]| == i;
    }
  }

  lemma StarvedIsStuck()
    ensures Worked(STARVED, STARVED, 1, (set d | d in STUCK), STUCK)
  {
    NamesDiffer();
    DistinctSize(STUCK);
    AllStarved();
  }

  lemma AllStarved()
    ensures forall d <- STUCK :: d in STARVED && STARVED[d] == Row(1, 0, 0)
    ensures QuietPending(STARVED, 1) == (set d | d in STUCK) + {HEALTHY}
    ensures Marked(STARVED, STUCK, set d | d in STUCK) == STARVED
  {
    NamesDiffer();
  }

  /** Any number of ticks may leave the healthy document waiting, with nothing ever indexed. */
  lemma StarvationHappens(n: nat)
    ensures var failing := set d | d in STUCK;
            Ticks(seq(n + 1, i => STARVED), seq(n, i => 1), failing) && HEALTHY !in failing && Waiting(STARVED, 1, HEALTHY)
  {
    NamesDiffer();
    StarvedIsStuck();
  }
}
