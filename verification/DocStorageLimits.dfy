/**
 * Where the storage steps stop short: runs in which one assumption fails, and the
 * update that is then lost, revived or missed.
 */
module DocStorageLimits {
  import opened Common
  import opened DocStorage
  import opened DocStorageRuns

  const A := Content({Op(1, 0)}, {})
  const B := Content({Op(2, 0)}, {})

  lemma RunFrom(s: System, e: Event, rest: seq<Event>)
    requires Enabled(s, e) && Run(Next(s, e), rest)
    ensures Run(s, [e] + rest) && Final(s, [e] + rest) == Final(Next(s, e), rest)
  {
  }

  lemma RunLast(s: System, e: Event)
    requires Enabled(s, e)
    ensures Run(s, [e]) && Final(s, [e]) == Next(s, e)
  {
  }

  /** The first rebuild of a document with one row, up to its commit at version 5. */
  const FIRST_REBUILD := [Push(1, A)] + ([RebuildStart(0)] + ([RebuildReadLog(0)] + [RebuildCommit(0, 5)]))

  const AFTER_FIRST_REBUILD := System(Tables(Some(Snapshot(A, 5)), map[], map[]), map[], map[5 := A], map[1 := A])

  lemma FirstRebuild()
    ensures Run(INITIAL, FIRST_REBUILD)
    ensures Final(INITIAL, FIRST_REBUILD) == AFTER_FIRST_REBUILD
  {
    var s1 := Next(INITIAL, Push(1, A));
    var s2 := Next(s1, RebuildStart(0));
    var s3 := Next(s2, RebuildReadLog(0));
    assert s3.tasks == map[0 := RebuildRead(None, map[1 := A])];
    assert LogContent(map[1 := A]) == A by {
      NewRowAdds(map[], 1, A);
    }
    assert Merge(EMPTY, A) == A;
    var s4 := Next(s3, RebuildCommit(0, 5));
    assert s4.tables.log == map[];
    RunLast(s3, RebuildCommit(0, 5));
    RunFrom(s2, RebuildReadLog(0), [RebuildCommit(0, 5)]);
    RunFrom(s1, RebuildStart(0), [RebuildReadLog(0)] + [RebuildCommit(0, 5)]);
    RunFrom(INITIAL, Push(1, A), [RebuildStart(0)] + ([RebuildReadLog(0)] + [RebuildCommit(0, 5)]));
  }

  /** Two rebuilds in flight, the second of which commits in the millisecond of the first snapshot. */
  const SAME_MILLISECOND :=
    [RebuildStart(1)] + ([RebuildReadLog(1)] + ([Push(2, B)] + ([RebuildStart(2)] + ([RebuildReadLog(2)]
    + ([RebuildCommit(2, 5)] + [RebuildCommit(1, 6)])))))

  /** When two snapshots share a millisecond, a rebuild can drop an update for good. */
  lemma SameMillisecondLosesUpdate()
    ensures Run(INITIAL, FIRST_REBUILD) && Final(INITIAL, FIRST_REBUILD) == AFTER_FIRST_REBUILD
    ensures Run(AFTER_FIRST_REBUILD, SAME_MILLISECOND)
    ensures Stored(Final(AFTER_FIRST_REBUILD, SAME_MILLISECOND).tables) == A
    ensures B.ops <= Pushed(SAME_MILLISECOND).ops && !(B.ops <= A.ops)
  {
    FirstRebuild();
    var s := AFTER_FIRST_REBUILD;
    var s1 := Next(s, RebuildStart(1));
    var s2 := Next(s1, RebuildReadLog(1));
    var s3 := Next(s2, Push(2, B));
    var s4 := Next(s3, RebuildStart(2));
    var s5 := Next(s4, RebuildReadLog(2));
    assert s5.tables.log == map[2 := B];
    var s6 := Next(s5, RebuildCommit(2, 5));
    assert s6.tables.log == map[];
    assert s6.tasks[1] == RebuildRead(Some(Snapshot(A, 5)), map[]);
    assert LogContent(map[]) == EMPTY && Merge(A, EMPTY) == A;
    var s7 := Next(s6, RebuildCommit(1, 6));
    assert s7.tables.log == map[] && s7.tables.snapshot == Some(Snapshot(A, 6));
    var r6 := [RebuildCommit(1, 6)];
    RunLast(s6, RebuildCommit(1, 6));
    RunFrom(s5, RebuildCommit(2, 5), r6);
    var r5 := [RebuildCommit(2, 5)] + r6;
    RunFrom(s4, RebuildReadLog(2), r5);
    var r4 := [RebuildReadLog(2)] + r5;
    RunFrom(s3, RebuildStart(2), r4);
    var r3 := [RebuildStart(2)] + r4;
    RunFrom(s2, Push(2, B), r3);
    var r2 := [Push(2, B)] + r3;
    RunFrom(s1, RebuildReadLog(1), r2);
    RunFrom(s, RebuildStart(1), [RebuildReadLog(1)] + r2);
    assert SAME_MILLISECOND[2] == Push(2, B);
    assert Op(2, 0) !in A.ops;
  }

  /** A row whose smaller id becomes visible after the purge has read. */
  const LATE_ID :=
    [Push(2, B)] + ([PurgeStart(0)] + ([PurgeReadLog(0)] + ([Push(1, A)]
    + ([PurgeSelect(0, Some(2), {})] + [PurgeCommit(0, 5)]))))

  lemma LatePurge(s: System)
    requires s.tables == Tables(None, map[2 := B, 1 := A], map[])
    requires s.tasks == map[0 := PurgeReady(None, map[2 := B], Some(2), {})]
    ensures Stored(Next(s, PurgeCommit(0, 5)).tables) == B
  {
    NewRowAdds(map[], 2, B);
    assert LogContent(map[]) == EMPTY;
    assert Next(s, PurgeCommit(0, 5)).tables.log == map[];
  }

  /** When ids do not become visible in order, a purge can delete a row it never read. */
  lemma LateIdLosesUpdate()
    ensures Run(INITIAL, LATE_ID)
    ensures Stored(Final(INITIAL, LATE_ID).tables) == B
    ensures A.ops <= Pushed(LATE_ID).ops && !(A.ops <= B.ops)
  {
    var s1 := Next(INITIAL, Push(2, B));
    var s2 := Next(s1, PurgeStart(0));
    var s3 := Next(s2, PurgeReadLog(0));
    assert s3.tasks[0].rows == map[2 := B];
    var s4 := Next(s3, Push(1, A));
    assert s4.tables.log == map[2 := B, 1 := A];
    var s5 := Next(s4, PurgeSelect(0, Some(2), {}));
    LatePurge(s5);
    var r5 := [PurgeCommit(0, 5)];
    RunLast(s5, PurgeCommit(0, 5));
    RunFrom(s4, PurgeSelect(0, Some(2), {}), r5);
    var r4 := [PurgeSelect(0, Some(2), {})] + r5;
    RunFrom(s3, Push(1, A), r4);
    var r3 := [Push(1, A)] + r4;
    RunFrom(s2, PurgeReadLog(0), r3);
    var r2 := [PurgeReadLog(0)] + r3;
    RunFrom(s1, PurgeStart(0), r2);
    RunFrom(INITIAL, Push(2, B), [PurgeStart(0)] + r2);
    assert LATE_ID[3] == Push(1, A);
    assert Op(1, 0) !in B.ops;
  }

  const DELETED_WHILE_REBUILDING :=
    [Push(1, A)] + ([RebuildStart(0)] + ([RebuildReadLog(0)] + ([HardDelete] + [RebuildCommit(0, 5)])))

  /** A first rebuild that read before a hard delete brings the deleted document back. */
  lemma HardDeleteUndone()
    ensures Run(INITIAL, DELETED_WHILE_REBUILDING)
    ensures FreshVersions(INITIAL, DELETED_WHILE_REBUILDING)
    ensures Stored(Final(INITIAL, DELETED_WHILE_REBUILDING).tables) == A
  {
    var s1 := Next(INITIAL, Push(1, A));
    var s2 := Next(s1, RebuildStart(0));
    var s3 := Next(s2, RebuildReadLog(0));
    assert s3.tasks[0].rows == map[1 := A];
    var s4 := Next(s3, HardDelete);
    assert LogContent(map[1 := A]) == A by {
      NewRowAdds(map[], 1, A);
    }
    assert LogContent(map[]) == EMPTY;
    var s5 := Next(s4, RebuildCommit(0, 5));
    assert s5.tables.log == map[];
    var r4 := [RebuildCommit(0, 5)];
    RunLast(s4, RebuildCommit(0, 5));
    RunFrom(s3, HardDelete, r4);
    var r3 := [HardDelete] + r4;
    RunFrom(s2, RebuildReadLog(0), r3);
    var r2 := [RebuildReadLog(0)] + r3;
    RunFrom(s1, RebuildStart(0), r2);
    var r1 := [RebuildStart(0)] + r2;
    RunFrom(INITIAL, Push(1, A), r1);
    FreshFrom(s4, RebuildCommit(0, 5), []);
    FreshFrom(s3, HardDelete, r4);
    FreshFrom(s2, RebuildReadLog(0), r3);
    FreshFrom(s1, RebuildStart(0), r2);
    FreshFrom(INITIAL, Push(1, A), r1);
  }

  /** A version of the document is kept as history, and a recovery from it is under way. */
  const RECOVERING := [SaveStart(1)] + ([SaveCommit(1, 0)] + [RecoverStart(2, 0)])

  /** A recovery that read its entry before a hard delete puts the deleted document back. */
  lemma HardDeleteRecovered()
    ensures Run(AFTER_FIRST_REBUILD, RECOVERING)
    ensures var s := Next(Final(AFTER_FIRST_REBUILD, RECOVERING), HardDelete);
            && s.tables == INITIAL.tables && Enabled(s, RecoverCommit(2, 9))
            && Next(s, RecoverCommit(2, 9)).tables == Tables(Some(Snapshot(A, 9)), map[], map[])
  {
    var s1 := Next(AFTER_FIRST_REBUILD, SaveStart(1));
    var s2 := Next(s1, SaveCommit(1, 0));
    assert s2.tables.histories == map[0 := A];
    RunLast(s2, RecoverStart(2, 0));
    RunFrom(s1, SaveCommit(1, 0), [RecoverStart(2, 0)]);
    RunFrom(AFTER_FIRST_REBUILD, SaveStart(1), [SaveCommit(1, 0)] + [RecoverStart(2, 0)]);
  }

  /** A history save that read the snapshot before a hard delete keeps the deleted document readable. */
  lemma HardDeleteLeavesHistory()
    ensures Run(AFTER_FIRST_REBUILD, [SaveStart(1)] + ([HardDelete] + [SaveCommit(1, 0)]))
    ensures Final(AFTER_FIRST_REBUILD, [SaveStart(1)] + ([HardDelete] + [SaveCommit(1, 0)])).tables
            == Tables(None, map[], map[0 := A])
  {
    var s1 := Next(AFTER_FIRST_REBUILD, SaveStart(1));
    var s2 := Next(s1, HardDelete);
    RunLast(s2, SaveCommit(1, 0));
    RunFrom(s1, HardDelete, [SaveCommit(1, 0)]);
    RunFrom(AFTER_FIRST_REBUILD, SaveStart(1), [HardDelete] + [SaveCommit(1, 0)]);
  }

  lemma FreshFrom(s: System, e: Event, rest: seq<Event>)
    requires Enabled(s, e) && Run(Next(s, e), rest) && FreshVersion(s, e) && FreshVersions(Next(s, e), rest)
    ensures Run(s, [e] + rest) && FreshVersions(s, [e] + rest)
  {
  }

  const TORN_LOAD :=
    [Push(1, A)] + ([LoadStart(0)] + ([RebuildStart(1)] + ([RebuildReadLog(1)] + [RebuildCommit(1, 5)])))

  /** A rebuild between the two reads of a load makes it miss rows that were there all along. */
  lemma TornLoadMissesUpdates()
    ensures Run(INITIAL, TORN_LOAD)
    ensures var s := Final(INITIAL, TORN_LOAD);
            && 0 in s.tasks && s.tasks[0].LoadSnap?
            && Stored(s.tables) == A && LoadResult(s, 0) == EMPTY
  {
    var s1 := Next(INITIAL, Push(1, A));
    var s2 := Next(s1, LoadStart(0));
    var s3 := Next(s2, RebuildStart(1));
    var s4 := Next(s3, RebuildReadLog(1));
    assert s4.tables.log == map[1 := A];
    assert LogContent(map[1 := A]) == A by {
      NewRowAdds(map[], 1, A);
    }
    assert LogContent(map[]) == EMPTY;
    var s5 := Next(s4, RebuildCommit(1, 5));
    assert s5.tables.log == map[];
    var r4 := [RebuildCommit(1, 5)];
    RunLast(s4, RebuildCommit(1, 5));
    RunFrom(s3, RebuildReadLog(1), r4);
    var r3 := [RebuildReadLog(1)] + r4;
    RunFrom(s2, RebuildStart(1), r3);
    var r2 := [RebuildStart(1)] + r3;
    RunFrom(s1, LoadStart(0), r2);
    RunFrom(INITIAL, Push(1, A), [LoadStart(0)] + r2);
  }
}
