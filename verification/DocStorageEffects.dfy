/**
 * What the tasks achieve: what a reader sees after a purge, and what a rebuild, a purge,
 * a recovery, a history save and a load come to when they run through.
 */
module DocStorageEffects {
  import opened Common
  import opened DocStorage
  import opened DocStorageRuns

  // --------------------------------------------------------------- what is visible

  /** Scrubbing hides exactly what is removed, now and after any later push, and keeps no deleted operation. */
  lemma ScrubHidesExactly(c: Content, removed: set<Op>, later: Content)
    ensures Visible(Scrub(c, removed)) == Visible(c) - removed
    ensures Visible(Merge(Scrub(c, removed), later)) == Visible(Merge(c, later)) - removed
    ensures Scrub(c, removed).ops !! Scrub(c, removed).dead
    ensures Scrub(c, removed).ops == Visible(c) - removed && c.dead <= Scrub(c, removed).dead
  {
  }

  /** A purge that commits takes exactly the chosen operations from what readers see. */
  lemma PurgeHidesExactly(s: System, t: TaskId, version: int)
    requires Inv(s) && LaterRowsNewer(s)
    requires Enabled(s, PurgeCommit(t, version)) && CreateGuard(s, PurgeCommit(t, version)) && Writes(s, PurgeCommit(t, version))
    ensures var after := Next(s, PurgeCommit(t, version)).tables;
            && Visible(Stored(after)) == Visible(Stored(s.tables)) - s.tasks[t].removed
            && Stored(after).ops !! Stored(after).dead
            && Stored(after).dead == Stored(s.tables).dead + s.tasks[t].removed
            && after.log == map[] && after.histories == map[]
  {
    PurgeIsAtomic(s, t, version);
    assert LogContent(map[]) == EMPTY;
  }

  /** And whatever is pushed later, readers see it next to what the purge left, less what it removed. */
  lemma PurgedStaysOut(s: System, t: TaskId, version: int, es: seq<Event>)
    requires Inv(s) && NothingDeleted(s) && LaterRowsNewer(s)
    requires Run(s, [PurgeCommit(t, version)] + es) && FreshVersions(s, [PurgeCommit(t, version)] + es)
    requires Writes(s, PurgeCommit(t, version)) && forall e <- es :: !Resets(e)
    ensures Visible(Stored(Final(s, [PurgeCommit(t, version)] + es).tables))
            == Visible(Merge(Stored(s.tables), Pushed(es))) - s.tasks[t].removed
  {
    StoredAfterReset(s, PurgeCommit(t, version), es);
    ScrubHidesExactly(Stored(s.tables), s.tasks[t].removed, Pushed(es));
  }

  // ------------------------------------------------------------- tasks that run through

  lemma Step(s: System, e: Event, rest: seq<Event>)
    requires Enabled(s, e) && Run(Next(s, e), rest)
    ensures Run(s, [e] + rest) && Final(s, [e] + rest) == Final(Next(s, e), rest)
  {
    assert ([e] + rest)[1..] == rest;
  }

  lemma ThreeSteps(s: System, e: Event, f: Event, g: Event)
    requires Enabled(s, e) && Enabled(Next(s, e), f) && Enabled(Next(Next(s, e), f), g)
    ensures Run(s, [e, f, g]) && Final(s, [e, f, g]) == Next(Next(Next(s, e), f), g)
  {
    var s1 := Next(s, e);
    Step(Next(s1, f), g, []);
    Step(s1, f, [g]);
    Step(s, e, [f, g]);
    assert [g] + [] == [g] && [f] + [g] == [f, g] && [e] + [f, g] == [e, f, g];
  }

  /** A rebuild nobody disturbs moves the whole document into the snapshot, at the version given, and empties the log. */
  lemma RebuildRunsThrough(s: System, t: TaskId, version: int)
    requires t !in s.tasks && (s.tables.snapshot.Some? || s.tables.log != map[])
    ensures var es := [RebuildStart(t), RebuildReadLog(t), RebuildCommit(t, version)];
            && Run(s, es)
            && Final(s, es).tables == Tables(Some(Snapshot(Stored(s.tables), version)), map[], s.tables.histories)
  {
    var s1 := Next(s, RebuildStart(t));
    var s2 := Next(s1, RebuildReadLog(t));
    ThreeSteps(s, RebuildStart(t), RebuildReadLog(t), RebuildCommit(t, version));
    assert Next(s2, RebuildCommit(t, version)).tables.log == map[];
  }

  /** With nothing stored there is nothing to rebuild: the task ends at its second read. */
  lemma NothingToRebuild(s: System, t: TaskId)
    requires t !in s.tasks && s.tables.snapshot.None? && s.tables.log == map[]
    ensures var s2 := Next(Next(s, RebuildStart(t)), RebuildReadLog(t)); s2.tables == s.tables && t !in s2.tasks
  {
  }

  /** A purge nobody disturbs leaves what readers saw, less what it chose, without log and histories. */
  lemma PurgeRunsThrough(s: System, t: TaskId, removed: set<Op>, boundary: Option<nat>, version: int)
    requires t !in s.tasks && (s.tables.snapshot.Some? || s.tables.log != map[]) && IsBoundary(boundary, s.tables.log)
    ensures var s3 := Next(Next(Next(s, PurgeStart(t)), PurgeReadLog(t)), PurgeSelect(t, boundary, removed));
            && Enabled(s3, PurgeCommit(t, version))
            && var after := Next(s3, PurgeCommit(t, version)).tables;
               && Visible(Stored(after)) == Visible(Stored(s.tables)) - removed
               && after.snapshot.Some? && after.snapshot.value.version == version
               && after.log == map[] && after.histories == map[]
  {
    var s3 := Next(Next(Next(s, PurgeStart(t)), PurgeReadLog(t)), PurgeSelect(t, boundary, removed));
    assert s3.tasks[t] == PurgeReady(s.tables.snapshot, s.tables.log, boundary, removed);
    PurgeWritesRebuilt(s3, t, version);
  }

  lemma {:induction false} RecoveryHolds(s: System, es: seq<Event>, t: TaskId)
    requires Run(s, es) && t in s.tasks && s.tasks[t].RecoverRead? && forall e <- es :: !(e.RecoverCommit? && e.task == t)
    ensures t in Final(s, es).tasks && Final(s, es).tasks[t] == s.tasks[t]
    decreases |es|
  {
    if es != [] {
      assert es[0] in es;
      RecoveryHolds(Next(s, es[0]), es[1..], t);
    }
  }

  /** A recovery puts back the entry it was started for, as it was then, whatever happened in between. */
  lemma RecoveryPutsEntryBack(s: System, t: TaskId, history: nat, es: seq<Event>, version: int)
    requires Run(s, [RecoverStart(t, history)] + es) && forall e <- es :: !(e.RecoverCommit? && e.task == t)
    ensures var last := Final(s, [RecoverStart(t, history)] + es);
            && Enabled(last, RecoverCommit(t, version))
            && Next(last, RecoverCommit(t, version)).tables
               == Tables(Some(Snapshot(s.tables.histories[history], version)), map[], last.tables.histories)
  {
    assert ([RecoverStart(t, history)] + es)[1..] == es;
    RecoveryHolds(Next(s, RecoverStart(t, history)), es, t);
  }

  lemma {:induction false} SaveHolds(s: System, es: seq<Event>, t: TaskId)
    requires Run(s, es) && t in s.tasks && s.tasks[t].SaveRead?
    requires forall e <- es :: !((e.SaveCommit? || e.SaveSkip?) && e.task == t)
    ensures t in Final(s, es).tasks && Final(s, es).tasks[t] == s.tasks[t]
    decreases |es|
  {
    if es != [] {
      assert es[0] in es;
      SaveHolds(Next(s, es[0]), es[1..], t);
    }
  }

  /** A history save keeps the snapshot it read, and nothing else changes. */
  lemma SaveKeepsWhatItRead(s: System, t: TaskId, es: seq<Event>, history: nat)
    requires Run(s, [SaveStart(t)] + es) && forall e <- es :: !((e.SaveCommit? || e.SaveSkip?) && e.task == t)
    requires history !in Final(s, [SaveStart(t)] + es).tables.histories
    ensures var last := Final(s, [SaveStart(t)] + es);
            && Enabled(last, SaveCommit(t, history))
            && Next(last, SaveCommit(t, history)).tables
               == Tables(last.tables.snapshot, last.tables.log, last.tables.histories[history := s.tables.snapshot.value.content])
  {
    assert ([SaveStart(t)] + es)[1..] == es;
    SaveHolds(Next(s, SaveStart(t)), es, t);
  }

  /** A push adds one row and nothing else. */
  lemma PushAddsRow(s: System, id: nat, update: Content)
    requires Enabled(s, Push(id, update))
    ensures var after := Next(s, Push(id, update));
            && after.tables == Tables(s.tables.snapshot, s.tables.log[id := update], s.tables.histories)
            && after.tasks == s.tasks
  {
  }
}
