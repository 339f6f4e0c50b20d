/**
 * What a hard deletion leaves: when it is final, and what can bring a document back.
 */
module DocStorageDeletes {
  import opened Common
  import opened DocStorage
  import opened DocStorageRuns

  /** A task that holds content its commit will write, whatever has been deleted since. */
  predicate Revives(task: Task) {
    match task
    case RecoverRead(_) => true
    case SaveRead(_) => true
    case RebuildRead(snap, _) => snap.None?
    case PurgeRead(snap, _) => snap.None?
    case PurgeReady(snap, _, _, _) => snap.None?
    case _ => false
  }

  ghost predicate NothingRevives(s: System) {
    forall t <- s.tasks :: !Revives(s.tasks[t])
  }

  predicate NoPush(es: seq<Event>) {
    forall e <- es :: !e.Push?
  }

  /** Whatever runs next without a push, the tables stay as for a document never seen. */
  ghost predicate DeletedForGood(s: System) {
    forall es | Run(s, es) && FreshVersions(s, es) && NoPush(es) :: Final(s, es).tables == INITIAL.tables
  }

  lemma NextKeepsDeleted(s: System, e: Event)
    requires s.tables == INITIAL.tables && NothingRevives(s) && Enabled(s, e) && !e.Push?
    ensures Next(s, e).tables == INITIAL.tables && NothingRevives(Next(s, e))
  {
  }

  lemma {:induction false} RunKeepsDeleted(s: System, es: seq<Event>)
    requires s.tables == INITIAL.tables && NothingRevives(s) && Run(s, es) && NoPush(es)
    ensures Final(s, es).tables == INITIAL.tables
    decreases |es|
  {
    if es != [] {
      assert es[0] in es && NoPush(es[1..]) by {
        assert forall e <- es[1..] :: e in es;
      }
      NextKeepsDeleted(s, es[0]);
      RunKeepsDeleted(Next(s, es[0]), es[1..]);
    }
  }

  // ------------------------------------------------------------- what comes back

  lemma {:induction false} UnusedVersion(versions: set<int>) returns (v: int)
    ensures forall u <- versions :: u < v
  {
    if u :| u in versions {
      v := UnusedVersion(versions - {u});
      v := if v > u then v else u + 1;
      assert forall w <- versions :: w == u || w in versions - {u};
    } else {
      v := 0;
    }
  }

  lemma {:induction false} BoundaryExists(rows: map<nat, Content>)
    ensures exists b :: IsBoundary(b, rows)
    decreases rows.Keys
  {
    if rows == map[] {
      assert IsBoundary(None, rows);
    } else {
      var id :| id in rows;
      var others := rows - {id};
      BoundaryExists(others);
      var b :| IsBoundary(b, others);
      var last := if b.Some? && b.value > id then b.value else id;
      assert forall x <- rows :: x == id || x in others;
      assert IsBoundary(Some(last), rows);
    }
  }

  lemma OneStep(s: System, e: Event)
    requires Enabled(s, e) && FreshVersion(s, e)
    ensures Run(s, [e]) && FreshVersions(s, [e]) && Final(s, [e]) == Next(s, e)
  {
    assert [e][1..] == [];
  }

  lemma TwoSteps(s: System, e: Event, f: Event)
    requires Enabled(s, e) && FreshVersion(s, e) && Enabled(Next(s, e), f) && FreshVersion(Next(s, e), f)
    ensures Run(s, [e, f]) && FreshVersions(s, [e, f]) && Final(s, [e, f]) == Next(Next(s, e), f)
  {
    assert [e, f][1..] == [f];
    OneStep(Next(s, e), f);
  }

  /** The steps by which a task brings something back into empty tables. */
  lemma ReviverComesBack(s: System, t: TaskId)
    requires s.tables == INITIAL.tables && t in s.tasks && Revives(s.tasks[t])
    ensures !DeletedForGood(s)
  {
    var v := UnusedVersion(s.versions.Keys);
    match s.tasks[t]
    case SaveRead(_) =>
      OneStep(s, SaveCommit(t, 0));
      assert NoPush([SaveCommit(t, 0)]) && 0 in Final(s, [SaveCommit(t, 0)]).tables.histories;
    case RecoverRead(_) => CommitComesBack(s, RecoverCommit(t, v));
    case RebuildRead(_, _) => CommitComesBack(s, RebuildCommit(t, v));
    case PurgeReady(_, _, _, _) => CommitComesBack(s, PurgeCommit(t, v));
    case PurgeRead(_, rows) =>
      BoundaryExists(rows);
      var b :| IsBoundary(b, rows);
      var es := [PurgeSelect(t, b, {}), PurgeCommit(t, v)];
      TwoSteps(s, es[0], es[1]);
      assert NoPush(es) && Final(s, es).tables.snapshot.Some?;
  }

  lemma CommitComesBack(s: System, e: Event)
    requires Enabled(s, e) && Writes(s, e) && FreshVersion(s, e)
    ensures !DeletedForGood(s)
  {
    OneStep(s, e);
    assert NoPush([e]) && Final(s, [e]).tables.snapshot.Some?;
  }

  /**
   * A hard deletion is final, until somebody pushes again, exactly when no recovery
   * and no history save is in flight, and no rebuild or purge that read the log while
   * there was no snapshot.
   */
  lemma HardDeleteIsFinalIff(s: System)
    ensures DeletedForGood(Next(s, HardDelete)) <==> NothingRevives(s)
  {
    var s' := Next(s, HardDelete);
    if NothingRevives(s) {
      forall es | Run(s', es) && FreshVersions(s', es) && NoPush(es)
        ensures Final(s', es).tables == INITIAL.tables
      {
        RunKeepsDeleted(s', es);
      }
    } else {
      var t :| t in s.tasks && Revives(s.tasks[t]);
      ReviverComesBack(s', t);
    }
  }

  // ---------------------------------------------------------------- after new pushes

  /** The snapshot the task read is no longer the stored one, so its commit will write nothing. */
  predicate OutOfDate(s: System, read: Option<Snapshot>) {
    read.Some? && !SnapshotWriteApplies(s.tables, read)
  }

  /** What the task may yet write consists of `ops`. */
  ghost predicate Cleared(s: System, task: Task, ops: set<Op>) {
    match task
    case LoadSnap(_) => true
    case RebuildSnap(snap) => OutOfDate(s, snap) || SnapshotContent(snap).ops <= ops
    case PurgeSnap(snap) => OutOfDate(s, snap) || SnapshotContent(snap).ops <= ops
    case _ =>
      ((task.RebuildRead? || task.PurgeRead? || task.PurgeReady?) && OutOfDate(s, task.snapshot)) || TaskWithin(task, ops)
  }

  ghost predicate StoredWithin(t: Tables, ops: set<Op>) {
    && SnapshotContent(t.snapshot).ops <= ops
    && (forall id <- t.log :: t.log[id].ops <= ops)
    && (forall h <- t.histories :: t.histories[h].ops <= ops)
  }

  ghost predicate AllCleared(s: System, ops: set<Op>) {
    StoredWithin(s.tables, ops) && forall t <- s.tasks :: Cleared(s, s.tasks[t], ops)
  }

  lemma CommitStaysWithin(s: System, e: Event, ops: set<Op>)
    requires AllCleared(s, ops) && Enabled(s, e) && (e.Push? ==> e.update.ops <= ops)
    ensures StoredWithin(NextTables(s, e), ops)
  {
    if e.RebuildCommit? || e.PurgeCommit? || e.RecoverCommit? || e.SaveCommit? {
      assert Cleared(s, s.tasks[e.task], ops);
    }
  }

  lemma OutOfDateStays(s: System, e: Event, read: Option<Snapshot>)
    requires Enabled(s, e) && FreshVersion(s, e) && Registered(s, read) && OutOfDate(s, read)
    ensures OutOfDate(Next(s, e), read)
  {
  }

  lemma NextKeepsCleared(s: System, e: Event, ops: set<Op>)
    requires Inv(s) && Enabled(s, e) && FreshVersion(s, e) && AllCleared(s, ops) && (e.Push? ==> e.update.ops <= ops)
    ensures AllCleared(Next(s, e), ops)
  {
    CommitStaysWithin(s, e, ops);
    var s' := Next(s, e);
    forall t | t in s'.tasks
      ensures Cleared(s', s'.tasks[t], ops)
    {
      if t in s.tasks {
        assert Cleared(s, s.tasks[t], ops) && TaskInv(s, s.tasks[t]);
        if !s.tasks[t].RecoverRead? && !s.tasks[t].SaveRead? && OutOfDate(s, s.tasks[t].snapshot) {
          OutOfDateStays(s, e, s.tasks[t].snapshot);
        }
      }
    }
  }

  lemma {:induction false} RunKeepsCleared(s: System, es: seq<Event>, ops: set<Op>)
    requires Inv(s) && Run(s, es) && FreshVersions(s, es) && AllCleared(s, ops)
    requires forall e <- es | e.Push? :: e.update.ops <= ops
    ensures AllCleared(Final(s, es), ops)
    decreases |es|
  {
    if es != [] {
      assert es[0] in es;
      NextKeepsInv(s, es[0]);
      NextKeepsCleared(s, es[0], ops);
      RunKeepsCleared(Next(s, es[0]), es[1..], ops);
    }
  }

  /** After a final deletion snapshot, log and histories only ever hold what is pushed later. */
  lemma OnlyLaterPushesStored(s: System, es: seq<Event>)
    requires Inv(s) && NothingRevives(s)
    requires Run(s, [HardDelete] + es) && FreshVersions(s, [HardDelete] + es)
    ensures StoredWithin(Final(s, [HardDelete] + es).tables, Pushed(es).ops)
  {
    var s' := Next(s, HardDelete);
    assert ([HardDelete] + es)[1..] == es;
    NextKeepsInv(s, HardDelete);
    assert forall e <- es | e.Push? :: e.update.ops <= Pushed(es).ops;
    assert AllCleared(s', Pushed(es).ops);
    RunKeepsCleared(s', es, Pushed(es).ops);
  }
}
