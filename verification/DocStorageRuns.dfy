/**
 * What holds over whole runs of the storage steps: every run does to the document
 * what the same pushes, purges, recoveries and deletions would do to it one at a time.
 */
module DocStorageRuns {
  import opened Common
  import opened DocStorage

  // --------------------------------------------------------- the atomic document

  /** What one step does to the document when it is seen as a single value. */
  datatype Effect = Keeps | Adds(update: Content) | Scrubs(removed: set<Op>) | Becomes(content: Content)

  function Act(effect: Effect, doc: Content): Content {
    match effect
    case Keeps => doc
    case Adds(u) => Merge(doc, u)
    case Scrubs(removed) => Scrub(doc, removed)
    case Becomes(c) => c
  }

  function ActAll(effects: seq<Effect>, doc: Content): Content {
    if effects == [] then doc else ActAll(effects[1..], Act(effects[0], doc))
  }

  ghost function EffectOf(s: System, e: Event): Effect
    requires Enabled(s, e)
  {
    match e
    case Push(_, u) => Adds(u)
    case PurgeCommit(t, _) => if Writes(s, e) then Scrubs(s.tasks[t].removed) else Keeps
    case RecoverCommit(t, _) => Becomes(s.tasks[t].blob)
    case HardDelete => Becomes(EMPTY)
    case _ => Keeps
  }

  // ------------------------------------------------------------------ one commit

  /** Every row a rebuild or purge merged is still in the log, or its content is stored anyway. */
  ghost predicate ReadRowsAccounted(s: System, rows: map<nat, Content>) {
    forall id <- rows | id !in s.tables.log :: Within(rows[id], Stored(s.tables))
  }

  /** A rebuild that writes keeps the document exactly when no row it merged was deleted for good. */
  lemma RebuildKeepsDocumentIff(s: System, t: TaskId, version: int)
    requires Inv(s) && Enabled(s, RebuildCommit(t, version))
    ensures var s' := Next(s, RebuildCommit(t, version));
            if Writes(s, RebuildCommit(t, version))
            then Stored(s'.tables) == Stored(s.tables) <==> ReadRowsAccounted(s, s.tasks[t].rows)
            else s'.tables == s.tables
  {
    var task := s.tasks[t];
    assert TaskInv(s, task);
    if Writes(s, RebuildCommit(t, version)) {
      SnapshotReadIsCurrent(s, task.snapshot);
      CommitKeepsContentIff(s, task.snapshot, task.rows, version);
    }
  }

  /** A version that is still current stands for the snapshot that was read. */
  lemma SnapshotReadIsCurrent(s: System, read: Option<Snapshot>)
    requires Inv(s) && Registered(s, read) && SnapshotWriteApplies(s.tables, read)
    ensures read == s.tables.snapshot
  {
  }

  lemma CommitKeepsContentIff(s: System, read: Option<Snapshot>, rows: map<nat, Content>, version: int)
    requires RowsRegistered(s, rows) && RowsRegistered(s, s.tables.log) && read == s.tables.snapshot
    ensures Stored(RebuildTx(s.tables, read, rows, version)) == Stored(s.tables) <==> ReadRowsAccounted(s, rows)
  {
    var after := Stored(RebuildTx(s.tables, read, rows, version));
    assert forall id <- s.tables.log :: id in rows || id in s.tables.log - rows.Keys;
    assert Within(Stored(s.tables), after);
    if ReadRowsAccounted(s, rows) {
      assert Within(LogContent(rows), Stored(s.tables));
    } else {
      var id :| id in rows && id !in s.tables.log && !Within(rows[id], Stored(s.tables));
      assert Within(rows[id], after);
    }
  }

  /**
   * The same without any assumption about versions: a rebuild that writes keeps the
   * document exactly when all it merged is stored anyway, and the snapshot it replaces
   * is part of what it merged or of the rows it leaves.
   */
  lemma RebuildTxKeepsIff(t: Tables, read: Option<Snapshot>, rows: map<nat, Content>, version: int)
    requires SnapshotWriteApplies(t, read) && forall id <- rows | id in t.log :: rows[id] == t.log[id]
    ensures Stored(RebuildTx(t, read, rows, version)) == Stored(t)
            <==> Within(Merged(read, rows), Stored(t))
                 && Within(SnapshotContent(t.snapshot), Merge(Merged(read, rows), LogContent(t.log - rows.Keys)))
  {
    var merged, left := Merged(read, rows), t.log - rows.Keys;
    assert Stored(RebuildTx(t, read, rows, version)) == Merge(merged, LogContent(left));
    assert forall id <- t.log :: id in rows || id in left;
    assert forall id <- t.log | id in rows :: Within(t.log[id], LogContent(rows));
    assert Within(LogContent(t.log), Merge(merged, LogContent(left)));
    assert Within(LogContent(left), LogContent(t.log));
  }

  /** The ids of a log are all among the ones a purge read and is about to delete. */
  ghost predicate UnreadGuard(s: System, e: Event)
    requires Enabled(s, e)
  {
    e.PurgeCommit? && Writes(s, e) ==> s.tables.log.Keys <= s.tasks[e.task].rows.Keys
  }

  /** With ids rising, the check for newer rows catches every row the purge did not read. */
  lemma RisingIdsGuardPurge(s: System, e: Event)
    requires Inv(s) && LaterRowsNewer(s) && Enabled(s, e)
    ensures UnreadGuard(s, e)
  {
  }

  lemma NewRowAdds(log: map<nat, Content>, id: nat, u: Content)
    requires id !in log
    ensures LogContent(log[id := u]) == Merge(LogContent(log), u)
  {
    var log' := log[id := u];
    assert log'[id] == u;
    assert forall i <- log :: i in log' && log'[i] == log[i];
  }

  /** The row has nothing that scrubbing would leave and `x` does not have. */
  predicate CoveredBy(row: Content, x: Content, removed: set<Op>) {
    row.dead <= x.dead + removed && row.ops <= x.ops + x.dead + removed
  }

  lemma SameScrubIff(a: Content, b: Content, removed: set<Op>)
    ensures Scrub(a, removed) == Scrub(b, removed) <==> CoveredBy(a, b, removed) && CoveredBy(b, a, removed)
  {
    var x, y := Scrub(a, removed), Scrub(b, removed);
    assert a.ops <= x.ops + x.dead && b.ops <= y.ops + y.dead;
    if CoveredBy(a, b, removed) && CoveredBy(b, a, removed) {
      assert x.dead == y.dead;
      assert x.ops == y.ops;
    }
  }

  lemma LogCoveredIff(first: Content, rows: map<nat, Content>, x: Content, removed: set<Op>)
    requires Within(first, x)
    ensures CoveredBy(Merge(first, LogContent(rows)), x, removed) <==> forall id <- rows :: CoveredBy(rows[id], x, removed)
  {
    assert forall id <- rows :: Within(rows[id], LogContent(rows));
  }

  /**
   * A purge that writes takes just the chosen operations from what readers see, with
   * every tombstone kept, exactly when every row it read that has gone is covered by what
   * is stored, and every row it did not read is covered by what it merged: tombstones and
   * what it removes anyway count as covered.
   */
  lemma PurgeIsScrubIff(s: System, t: TaskId, version: int)
    requires Inv(s) && Enabled(s, PurgeCommit(t, version)) && Writes(s, PurgeCommit(t, version))
    ensures var task := s.tasks[t];
            Stored(Next(s, PurgeCommit(t, version)).tables)
            == Content(Visible(Stored(s.tables)) - task.removed, Stored(s.tables).dead + task.removed)
            <==> (forall id <- task.rows | id !in s.tables.log :: CoveredBy(task.rows[id], Stored(s.tables), task.removed))
                 && (forall id <- s.tables.log | id !in task.rows ::
                       CoveredBy(s.tables.log[id], Merged(task.snapshot, task.rows), task.removed))
  {
    var task, stored := s.tasks[t], Stored(s.tables);
    assert TaskInv(s, task);
    SnapshotReadIsCurrent(s, task.snapshot);
    var first, merged := SnapshotContent(task.snapshot), Merged(task.snapshot, task.rows);
    PurgeWritesRebuilt(s, t, version);
    SameScrubIff(merged, stored, task.removed);
    LogCoveredIff(first, task.rows, stored, task.removed);
    LogCoveredIff(first, s.tables.log, merged, task.removed);
    assert forall id <- task.rows | id in s.tables.log :: Within(task.rows[id], stored) && Within(s.tables.log[id], merged);
  }

  lemma PurgeWritesRebuilt(s: System, t: TaskId, version: int)
    requires Enabled(s, PurgeCommit(t, version)) && Writes(s, PurgeCommit(t, version))
    ensures Stored(Next(s, PurgeCommit(t, version)).tables) == Scrub(Merged(s.tasks[t].snapshot, s.tasks[t].rows), s.tasks[t].removed)
  {
    assert Next(s, PurgeCommit(t, version)).tables.log == map[];
  }

  lemma PurgeStepIsAtomic(s: System, t: TaskId, v: int)
    requires Inv(s) && Enabled(s, PurgeCommit(t, v))
    requires CreateGuard(s, PurgeCommit(t, v)) && UnreadGuard(s, PurgeCommit(t, v)) && Writes(s, PurgeCommit(t, v))
    ensures Merged(s.tasks[t].snapshot, s.tasks[t].rows) == Stored(s.tables)
    ensures Next(s, PurgeCommit(t, v)).tables
            == Tables(Some(Snapshot(Scrub(Stored(s.tables), s.tasks[t].removed), v)), map[], map[])
  {
  }

  lemma StepIsAtomic(s: System, e: Event)
    requires Inv(s) && Enabled(s, e) && CreateGuard(s, e) && UnreadGuard(s, e)
    ensures Stored(Next(s, e).tables) == Act(EffectOf(s, e), Stored(s.tables))
  {
    assert LogContent(map[]) == EMPTY;
    if e.Push? {
      NewRowAdds(s.tables.log, e.id, e.update);
    } else if e.RebuildCommit? {
      assert TaskInv(s, s.tasks[e.task]);
      RebuildKeepsDocumentIff(s, e.task, e.version);
    } else if e.PurgeCommit? {
      if Writes(s, e) {
        PurgeStepIsAtomic(s, e.task, e.version);
      }
    } else if !e.RecoverCommit? && !e.HardDelete? {
      assert Next(s, e).tables.log == s.tables.log;
    }
  }

  /**
   * An index purge that commits is one atomic purge at that instant, history
   * included; one that meets a conflict changes nothing.
   */
  lemma PurgeIsAtomic(s: System, t: TaskId, version: int)
    requires Inv(s) && LaterRowsNewer(s)
    requires Enabled(s, PurgeCommit(t, version)) && CreateGuard(s, PurgeCommit(t, version))
    ensures var e := PurgeCommit(t, version);
            Next(s, e).tables ==
            if Writes(s, e)
            then Tables(Some(Snapshot(Scrub(Stored(s.tables), s.tasks[t].removed), version)), map[], map[])
            else s.tables
    ensures var e := PurgeCommit(t, version);
            Writes(s, e) ==>
              Stored(Next(s, e).tables)
              == Content(Visible(Stored(s.tables)) - s.tasks[t].removed, Stored(s.tables).dead + s.tasks[t].removed)
  {
    var e := PurgeCommit(t, version);
    assert LogContent(map[]) == EMPTY;
    RisingIdsGuardPurge(s, e);
    if Writes(s, e) {
      PurgeStepIsAtomic(s, t, version);
    }
  }

  // ------------------------------------------------------------------------ runs

  ghost predicate Run(s: System, es: seq<Event>)
    decreases |es|
  {
    es == [] || (Enabled(s, es[0]) && Run(Next(s, es[0]), es[1..]))
  }

  ghost function Final(s: System, es: seq<Event>): System
    requires Run(s, es)
    decreases |es|
  {
    if es == [] then s else Final(Next(s, es[0]), es[1..])
  }

  ghost function Effects(s: System, es: seq<Event>): seq<Effect>
    requires Run(s, es)
    decreases |es|
  {
    if es == [] then [] else [EffectOf(s, es[0])] + Effects(Next(s, es[0]), es[1..])
  }

  /** The clock never repeats a snapshot version in the run. */
  ghost predicate FreshVersions(s: System, es: seq<Event>)
    requires Run(s, es)
    decreases |es|
  {
    es == [] || (FreshVersion(s, es[0]) && FreshVersions(Next(s, es[0]), es[1..]))
  }

  /** Log ids become visible in increasing order throughout the run. */
  ghost predicate RisingIds(s: System, es: seq<Event>)
    requires Run(s, es)
    decreases |es|
  {
    es == [] || (RisingId(s, es[0]) && RisingIds(Next(s, es[0]), es[1..]))
  }

  ghost predicate Guarded(s: System, es: seq<Event>)
    requires Run(s, es)
    decreases |es|
  {
    es == [] || (CreateGuard(s, es[0]) && UnreadGuard(s, es[0]) && Guarded(Next(s, es[0]), es[1..]))
  }

  /** Every guarded run acts on the document like its effects applied one at a time. */
  lemma {:induction false} RunIsAtomic(s: System, es: seq<Event>)
    requires Inv(s) && Run(s, es) && FreshVersions(s, es) && Guarded(s, es)
    ensures Inv(Final(s, es))
    ensures Stored(Final(s, es).tables) == ActAll(Effects(s, es), Stored(s.tables))
    decreases |es|
  {
    if es != [] {
      StepIsAtomic(s, es[0]);
      NextKeepsInv(s, es[0]);
      RunIsAtomic(Next(s, es[0]), es[1..]);
      assert Effects(s, es)[1..] == Effects(Next(s, es[0]), es[1..]);
    }
  }

  /** No task that saw no snapshot has lost rows while there still is none. */
  ghost predicate NothingDeleted(s: System) {
    forall t <- s.tasks | s.tasks[t].RebuildRead? || s.tasks[t].PurgeRead? || s.tasks[t].PurgeReady? ::
      s.tasks[t].snapshot.None? && s.tables.snapshot.None? ==> s.tasks[t].rows.Keys <= s.tables.log.Keys
  }

  lemma NextKeepsNothingDeleted(s: System, e: Event)
    requires Inv(s) && NothingDeleted(s) && Enabled(s, e) && e != HardDelete
    ensures NothingDeleted(Next(s, e)) && CreateGuard(s, e)
  {
    var s' := Next(s, e);
    forall t | t in s'.tasks && (s'.tasks[t].RebuildRead? || s'.tasks[t].PurgeRead? || s'.tasks[t].PurgeReady?)
      ensures s'.tasks[t].snapshot.None? && s'.tables.snapshot.None? ==> s'.tasks[t].rows.Keys <= s'.tables.log.Keys
    {
    }
  }

  /** Without hard deletes the guards always hold; only purges need rising ids. */
  lemma {:induction false} GuardsHold(s: System, es: seq<Event>)
    requires Inv(s) && NothingDeleted(s) && Run(s, es) && FreshVersions(s, es)
    requires HardDelete !in es
    requires (LaterRowsNewer(s) && RisingIds(s, es)) || (forall e <- es :: !e.PurgeCommit?)
    ensures Guarded(s, es)
    decreases |es|
  {
    if es != [] {
      var e, s' := es[0], Next(s, es[0]);
      NextKeepsInv(s, e);
      assert e in es && e != HardDelete;
      NextKeepsNothingDeleted(s, e);
      if LaterRowsNewer(s) && RisingIds(s, es) {
        RisingIdsGuardPurge(s, e);
        NextKeepsLaterRowsNewer(s, e);
      }
      assert forall e' <- es[1..] :: e' in es;
      GuardsHold(s', es[1..]);
    }
  }

  // ------------------------------------------------------------- nothing is lost

  /** The content of all pushes of a run, in whatever order they came. */
  function Pushed(es: seq<Event>): Content {
    Content(set e, o | e in es && e.Push? && o in e.update.ops :: o,
            set e, o | e in es && e.Push? && o in e.update.dead :: o)
  }

  predicate Resets(e: Event) {
    e.PurgeCommit? || e.RecoverCommit? || e.HardDelete?
  }

  /**
   * Between resets the document is what it was plus exactly the updates pushed since,
   * however pushes, rebuilds and loads interleave.
   */
  lemma {:induction false} OnlyPushesAdd(s: System, es: seq<Event>)
    requires Inv(s) && Run(s, es) && FreshVersions(s, es) && Guarded(s, es)
    requires forall e <- es :: !Resets(e)
    ensures Stored(Final(s, es).tables) == Merge(Stored(s.tables), Pushed(es))
    decreases |es|
  {
    if es != [] {
      var e, rest := es[0], es[1..];
      assert es == [e] + rest && !Resets(e);
      StepIsAtomic(s, e);
      NextKeepsInv(s, e);
      OnlyPushesAdd(Next(s, e), rest);
      PushedFirst(e, rest);
      MergeAssoc(Stored(s.tables), if e.Push? then e.update else EMPTY, Pushed(rest));
    }
  }

  lemma MergeAssoc(a: Content, b: Content, c: Content)
    ensures Merge(Merge(a, b), c) == Merge(a, Merge(b, c)) && Merge(a, EMPTY) == a && Merge(EMPTY, c) == c
  {
  }

  lemma PushedFirst(e: Event, rest: seq<Event>)
    ensures Pushed([e] + rest) == if e.Push? then Merge(e.update, Pushed(rest)) else Pushed(rest)
  {
  }

  /** From the start, with fresh versions alone: no push is lost and nothing is invented. */
  lemma NoUpdateLost(es: seq<Event>)
    requires Run(INITIAL, es) && FreshVersions(INITIAL, es)
    requires forall e <- es :: !Resets(e)
    ensures Stored(Final(INITIAL, es).tables) == Pushed(es)
  {
    assert HardDelete !in es;
    GuardsHold(INITIAL, es);
    OnlyPushesAdd(INITIAL, es);
  }

  // -------------------------------------------------------- old reads never commit

  /** A snapshot read that can no longer pass the check of a commit. */
  ghost predicate Stale(s: System, read: Option<Snapshot>) {
    !SnapshotWriteApplies(s.tables, read) && (read.None? ==> s.tables.snapshot.Some?)
  }

  lemma {:induction false} StaleForever(s: System, es: seq<Event>, read: Option<Snapshot>)
    requires Inv(s) && Run(s, es) && FreshVersions(s, es) && Registered(s, read) && Stale(s, read)
    requires read.Some? || HardDelete !in es
    ensures Stale(Final(s, es), read)
    decreases |es|
  {
    if es != [] {
      NextKeepsInv(s, es[0]);
      assert read.None? ==> es[0] in es && es[0] != HardDelete;
      StaleForever(Next(s, es[0]), es[1..], read);
    }
  }

  /**
   * Once a recovery, purge or rebuild has written the snapshot, no rebuild or purge
   * that read before it ever writes, on the CAS branch and on the create branch.
   */
  lemma OldReadsNeverCommit(s: System, e: Event, es: seq<Event>, read: Option<Snapshot>)
    requires Inv(s) && Run(s, [e] + es) && FreshVersions(s, [e] + es)
    requires Registered(s, read) && Enabled(s, e)
    requires Writes(s, e) || (e.HardDelete? && read.Some?)
    requires read.Some? || HardDelete !in es
    ensures var t := Final(s, [e] + es).tables;
            && (forall rows, v :: RebuildTx(t, read, rows, v) == t)
            && (forall b, rebuilt, v :: PurgeTx(t, read, b, rebuilt, v) == t)
  {
    assert ([e] + es)[1..] == es;
    NextKeepsInv(s, e);
    StaleForever(Next(s, e), es, read);
  }

  /**
   * After a recovery or a purge has committed, the document is the recovered or purged
   * content plus exactly the updates pushed since, whatever was in flight before.
   */
  lemma StoredAfterReset(s: System, e: Event, es: seq<Event>)
    requires Inv(s) && NothingDeleted(s) && Run(s, [e] + es) && FreshVersions(s, [e] + es)
    requires e.RecoverCommit? || (e.PurgeCommit? && LaterRowsNewer(s) && Enabled(s, e) && Writes(s, e))
    requires forall e' <- es :: !Resets(e')
    ensures Stored(Final(s, [e] + es).tables)
            == Merge(if e.RecoverCommit? then s.tasks[e.task].blob
                     else Scrub(Stored(s.tables), s.tasks[e.task].removed), Pushed(es))
  {
    assert ([e] + es)[1..] == es;
    NextKeepsNothingDeleted(s, e);
    RisingOrRecovered(s, e);
    StepIsAtomic(s, e);
    NextKeepsInv(s, e);
    assert HardDelete !in es;
    GuardsHold(Next(s, e), es);
    OnlyPushesAdd(Next(s, e), es);
  }

  lemma RisingOrRecovered(s: System, e: Event)
    requires Inv(s) && Enabled(s, e) && (e.PurgeCommit? ==> LaterRowsNewer(s))
    ensures UnreadGuard(s, e)
  {
  }

  lemma {:induction false} RunKeepsAssumptions(s: System, es: seq<Event>)
    requires Inv(s) && NothingDeleted(s) && Run(s, es) && FreshVersions(s, es) && HardDelete !in es
    ensures Inv(Final(s, es)) && NothingDeleted(Final(s, es))
    ensures LaterRowsNewer(s) && RisingIds(s, es) ==> LaterRowsNewer(Final(s, es))
    decreases |es|
  {
    if es != [] {
      NextKeepsInv(s, es[0]);
      NextKeepsNothingDeleted(s, es[0]);
      if LaterRowsNewer(s) && RisingIds(s, es) {
        NextKeepsLaterRowsNewer(s, es[0]);
      }
      RunKeepsAssumptions(Next(s, es[0]), es[1..]);
    }
  }

  /** From the start: whatever ran before a recovery or a purge, only later pushes add to its result. */
  lemma DocumentAfterReset(before: seq<Event>, e: Event, es: seq<Event>)
    requires Run(INITIAL, before) && FreshVersions(INITIAL, before) && HardDelete !in before
    requires e.PurgeCommit? ==> RisingIds(INITIAL, before)
    requires var s := Final(INITIAL, before);
             && Run(s, [e] + es) && FreshVersions(s, [e] + es)
             && (e.RecoverCommit? || (e.PurgeCommit? && Enabled(s, e) && Writes(s, e)))
    requires forall e' <- es :: !Resets(e')
    ensures var s := Final(INITIAL, before);
            Stored(Final(s, [e] + es).tables)
            == Merge(if e.RecoverCommit? then s.tasks[e.task].blob
                     else Scrub(Stored(s.tables), s.tasks[e.task].removed), Pushed(es))
  {
    RunKeepsAssumptions(INITIAL, before);
    StoredAfterReset(Final(INITIAL, before), e, es);
  }

  /** What a purge removed stays hidden, even when an old copy pushes it again. */
  lemma {:induction false} RemovedStaysHidden(s: System, es: seq<Event>, removed: set<Op>)
    requires Inv(s) && Run(s, es) && FreshVersions(s, es) && Guarded(s, es)
    requires forall e <- es :: !e.RecoverCommit? && !e.HardDelete?
    requires removed <= Stored(s.tables).dead
    ensures removed !! Visible(Stored(Final(s, es).tables))
    decreases |es|
  {
    if es != [] {
      assert es[0] in es;
      StepIsAtomic(s, es[0]);
      NextKeepsInv(s, es[0]);
      RemovedStaysHidden(Next(s, es[0]), es[1..], removed);
    }
  }

  // --------------------------------------------------------------------- loading

  ghost predicate TaskWithin(task: Task, ops: set<Op>) {
    match task
    case RecoverRead(blob) => blob.ops <= ops
    case SaveRead(blob) => blob.ops <= ops
    case RebuildSnap(snap) => SnapshotContent(snap).ops <= ops
    case PurgeSnap(snap) => SnapshotContent(snap).ops <= ops
    case LoadSnap(snap) => SnapshotContent(snap).ops <= ops
    case _ => SnapshotContent(task.snapshot).ops <= ops && forall id <- task.rows :: task.rows[id].ops <= ops
  }

  /** Everything anybody stores or holds came from `ops`. */
  ghost predicate AllWithin(s: System, ops: set<Op>) {
    && SnapshotContent(s.tables.snapshot).ops <= ops
    && (forall id <- s.tables.log :: s.tables.log[id].ops <= ops)
    && (forall h <- s.tables.histories :: s.tables.histories[h].ops <= ops)
    && (forall t <- s.tasks :: TaskWithin(s.tasks[t], ops))
  }

  lemma NextTablesWithin(s: System, e: Event, ops: set<Op>)
    requires AllWithin(s, ops) && Enabled(s, e) && (e.Push? ==> e.update.ops <= ops)
    ensures AllWithin(s.(tables := NextTables(s, e)), ops)
  {
  }

  lemma NextKeepsWithin(s: System, e: Event, ops: set<Op>)
    requires AllWithin(s, ops) && Enabled(s, e) && (e.Push? ==> e.update.ops <= ops)
    ensures AllWithin(Next(s, e), ops)
  {
    NextTablesWithin(s, e, ops);
    var s' := Next(s, e);
    forall t | t in s'.tasks
      ensures TaskWithin(s'.tasks[t], ops)
    {
      if t in s.tasks {
        assert TaskWithin(s.tasks[t], ops);
      }
    }
  }

  lemma {:induction false} RunKeepsWithin(s: System, es: seq<Event>, ops: set<Op>)
    requires Run(s, es) && AllWithin(s, ops) && forall e <- es | e.Push? :: e.update.ops <= ops
    ensures AllWithin(Final(s, es), ops)
    decreases |es|
  {
    if es != [] {
      assert es[0] in es;
      NextKeepsWithin(s, es[0], ops);
      RunKeepsWithin(Next(s, es[0]), es[1..], ops);
    }
  }

  /** A load never returns an operation nobody pushed, whatever happens between its reads. */
  lemma LoadInventsNothing(es: seq<Event>, t: TaskId)
    requires Run(INITIAL, es)
    requires var s := Final(INITIAL, es); t in s.tasks && s.tasks[t].LoadSnap?
    ensures LoadResult(Final(INITIAL, es), t).ops <= Pushed(es).ops
  {
    assert forall e <- es | e.Push? :: e.update.ops <= Pushed(es).ops;
    RunKeepsWithin(INITIAL, es, Pushed(es).ops);
    assert TaskWithin(Final(INITIAL, es).tasks[t], Pushed(es).ops);
  }

  /** The rows the log held at some time between two states. */
  ghost function Parts(s0: System, s: System): map<nat, Content> {
    map id | id in s.ids && (id in s0.tables.log || id !in s0.ids) :: s.ids[id]
  }

  /** Every row that left the log between the two states has its content in `result`. */
  ghost predicate DepartedRowsCovered(s0: System, s: System, result: Content) {
    forall id <- Parts(s0, s) | id !in s.tables.log :: Within(Parts(s0, s)[id], result)
  }

  /** What entered the log between two states. */
  ghost function Entered(s0: System, s: System): map<nat, Content> {
    s.ids - s0.ids.Keys
  }

  lemma {:induction false} PushedEntered(s: System, es: seq<Event>)
    requires Run(s, es)
    ensures s.ids.Keys <= Final(s, es).ids.Keys && (forall id <- s.ids :: Final(s, es).ids[id] == s.ids[id])
    ensures Pushed(es) == LogContent(Entered(s, Final(s, es)))
    decreases |es|
  {
    if es == [] {
      assert Entered(s, s) == map[];
    } else {
      var e, s1, last := es[0], Next(s, es[0]), Final(s, es);
      PushedEntered(s1, es[1..]);
      assert es == [e] + es[1..];
      PushedFirst(e, es[1..]);
      if e.Push? {
        assert last.ids[e.id] == e.update;
        assert Entered(s, last) == Entered(s1, last)[e.id := e.update];
        NewRowAdds(Entered(s1, last), e.id, e.update);
        assert Pushed(es) == Merge(e.update, LogContent(Entered(s1, last)));
      } else {
        assert Entered(s, last) == Entered(s1, last);
      }
    }
  }

  lemma {:induction false} LoadStays(s: System, es: seq<Event>, t: TaskId)
    requires Run(s, es) && t in s.tasks && s.tasks[t].LoadSnap? && LoadReadLog(t) !in es
    ensures t in Final(s, es).tasks && Final(s, es).tasks[t] == s.tasks[t]
    decreases |es|
  {
    if es != [] {
      assert es[0] in es;
      LoadStays(Next(s, es[0]), es[1..], t);
    }
  }

  /** With `parts` in the log now or departed, a load has them all exactly when it has the departed ones. */
  lemma LoadHasAllIff(first: Content, now: map<nat, Content>, parts: map<nat, Content>)
    requires forall id <- now :: id in parts ==> now[id] == parts[id]
    ensures Within(Merge(first, LogContent(parts)), Merge(first, LogContent(now)))
            <==> forall id <- parts | id !in now :: Within(parts[id], Merge(first, LogContent(now)))
  {
    var result := Merge(first, LogContent(now));
    assert forall id <- now :: Within(now[id], result);
    if Within(Merge(first, LogContent(parts)), result) {
      assert forall id <- parts :: Within(parts[id], LogContent(parts));
    } else {
      assert !Within(LogContent(parts), result);
    }
  }

  /**
   * A load that begins in `s` and reads the log after `es` returns the whole document
   * exactly when every row that left the log in between has its content in the
   * snapshot the load read or in the rows it found.
   */
  lemma LoadCompleteIff(s: System, t: TaskId, es: seq<Event>)
    requires Inv(s) && NothingDeleted(s) && Run(s, [LoadStart(t)] + es) && FreshVersions(s, [LoadStart(t)] + es)
    requires LoadReadLog(t) !in es && forall e <- es :: !Resets(e)
    ensures var last := Final(s, [LoadStart(t)] + es);
            && t in last.tasks && last.tasks[t].LoadSnap?
            && (LoadResult(last, t) == Stored(last.tables)
                <==> DepartedRowsCovered(s, last, LoadResult(last, t)))
  {
    var s1 := Next(s, LoadStart(t));
    assert ([LoadStart(t)] + es)[1..] == es;
    NextKeepsInv(s, LoadStart(t));
    NextKeepsNothingDeleted(s, LoadStart(t));
    LoadCompleteFrom(s1, t, es);
    assert Parts(s, Final(s1, es)) == Parts(s1, Final(s1, es));
  }

  lemma LoadCompleteFrom(s: System, t: TaskId, es: seq<Event>)
    requires Inv(s) && NothingDeleted(s) && Run(s, es) && FreshVersions(s, es)
    requires t in s.tasks && s.tasks[t] == LoadSnap(s.tables.snapshot)
    requires LoadReadLog(t) !in es && forall e <- es :: !Resets(e)
    ensures var last := Final(s, es);
            && t in last.tasks && last.tasks[t] == s.tasks[t]
            && (LoadResult(last, t) == Stored(last.tables) <==> DepartedRowsCovered(s, last, LoadResult(last, t)))
  {
    var last := Final(s, es);
    LoadStays(s, es, t);
    RunStoresParts(s, es);
    LoadHasAllIff(SnapshotContent(s.tables.snapshot), last.tables.log, Parts(s, last));
  }

  /** Between resets the document is the snapshot at the start and every row since then in the log. */
  lemma RunStoresParts(s: System, es: seq<Event>)
    requires Inv(s) && NothingDeleted(s) && Run(s, es) && FreshVersions(s, es)
    requires forall e <- es :: !Resets(e)
    ensures var last := Final(s, es);
            && RowsRegistered(last, last.tables.log)
            && Stored(last.tables) == Merge(SnapshotContent(s.tables.snapshot), LogContent(Parts(s, last)))
            && Within(LogContent(last.tables.log), Stored(last.tables))
  {
    assert HardDelete !in es;
    GuardsHold(s, es);
    OnlyPushesAdd(s, es);
    RunIsAtomic(s, es);
    PushedEntered(s, es);
    StoredOfParts(s, Final(s, es));
    MergeAssoc(SnapshotContent(s.tables.snapshot), LogContent(s.tables.log), Pushed(es));
  }

  lemma StoredOfParts(s0: System, s: System)
    requires RowsRegistered(s0, s0.tables.log) && s0.ids.Keys <= s.ids.Keys && forall id <- s0.ids :: s.ids[id] == s0.ids[id]
    ensures Merge(LogContent(s0.tables.log), LogContent(Entered(s0, s))) == LogContent(Parts(s0, s))
  {
    assert forall id <- Parts(s0, s) :: id in s0.tables.log || id in Entered(s0, s);
    assert forall id <- s0.tables.log :: id in Parts(s0, s) && Parts(s0, s)[id] == s0.tables.log[id];
    assert forall id <- Entered(s0, s) :: id in Parts(s0, s) && Parts(s0, s)[id] == Entered(s0, s)[id];
  }

  /** With the same snapshot version at both reads, a load returns the whole document. */
  lemma LoadComplete(s: System, t: TaskId)
    requires Inv(s) && t in s.tasks && s.tasks[t].LoadSnap?
    requires SnapshotWriteApplies(s.tables, s.tasks[t].snapshot)
    ensures LoadResult(s, t) == Stored(s.tables)
  {
  }
}
