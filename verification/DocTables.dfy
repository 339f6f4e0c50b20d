/**
 * The tables of one document and the transactions that change them in place.
 */
module DocTables {
  import opened Common
  import opened DocStorage
  import opened DocStorageRuns

  /** An update row as a query returns it. */
  datatype Row = Row(id: nat, content: Content)

  /** `id` is the primary key, so no two rows of a result share one. */
  predicate DistinctIds(rows: seq<Row>) {
    forall i, j :: 0 <= i < j < |rows| ==> rows[i].id != rows[j].id
  }

  function RowMap(rows: seq<Row>): (m: map<nat, Content>)
    ensures forall id :: id in m <==> exists i :: 0 <= i < |rows| && rows[i].id == id
  {
    if rows == [] then map[]
    else
      var last := rows[|rows| - 1];
      var m := RowMap(rows[..|rows| - 1])[last.id := last.content];
      assert forall i :: 0 <= i < |rows| - 1 ==> rows[..|rows| - 1][i] == rows[i];
      m
  }

  lemma RowMapSnoc(rows: seq<Row>, i: nat)
    requires i < |rows| && DistinctIds(rows)
    ensures rows[i].id !in RowMap(rows[..i])
    ensures RowMap(rows[..i + 1]) == RowMap(rows[..i])[rows[i].id := rows[i].content]
  {
    assert rows[..i + 1][..i] == rows[..i];
  }

  lemma RowMapAppend(rows: seq<Row>, row: Row)
    requires row.id !in RowMap(rows) && DistinctIds(rows)
    ensures DistinctIds(rows + [row])
    ensures RowMap(rows + [row]) == RowMap(rows)[row.id := row.content]
  {
    assert (rows + [row])[..|rows|] == rows;
    assert forall i :: 0 <= i < |rows| ==> rows[i].id in RowMap(rows);
  }

  /** Pushes the snapshot and then every row onto one list and merges it. */
  method MergeAll(snapshot: Option<Snapshot>, rows: seq<Row>) returns (merged: Content)
    requires DistinctIds(rows)
    ensures merged == Merged(snapshot, RowMap(rows))
  {
    merged := EMPTY;
    if snapshot.Some? {
      merged := Merge(merged, snapshot.value.content);
    }
    NoRowsMerged(snapshot);
    for i := 0 to |rows|
      invariant merged == Merged(snapshot, RowMap(rows[..i]))
    {
      NextRowMerged(snapshot, rows, i);
      merged := Merge(merged, rows[i].content);
    }
    assert rows[..|rows|] == rows;
  }

  lemma NoRowsMerged(snapshot: Option<Snapshot>)
    ensures Merged(snapshot, RowMap([])) == Merge(EMPTY, SnapshotContent(snapshot)) == SnapshotContent(snapshot)
  {
  }

  lemma NextRowMerged(snapshot: Option<Snapshot>, rows: seq<Row>, i: nat)
    requires i < |rows| && DistinctIds(rows)
    ensures Merged(snapshot, RowMap(rows[..i + 1])) == Merge(Merged(snapshot, RowMap(rows[..i])), rows[i].content)
  {
    RowMapSnoc(rows, i);
    NewRowAdds(RowMap(rows[..i]), rows[i].id, rows[i].content);
  }

  /** A rebuild from the tables as they are moves the whole log into the snapshot. */
  lemma RebuildOfAll(t: Tables, version: int)
    ensures var t' := RebuildTx(t, t.snapshot, t.log, version);
            t'.snapshot.Some? && t'.log == map[] && Stored(t') == Stored(t)
  {
  }

  /** A push that finds this many rows in the log rebuilds the snapshot. */
  const SNAPSHOT_THRESHOLD := 50

  /** The id of the last row, rows being in id order: the end of what a purge has read. */
  method Boundary(rows: seq<Row>) returns (boundary: Option<nat>)
    requires forall i, j :: 0 <= i < j < |rows| ==> rows[i].id < rows[j].id
    ensures IsBoundary(boundary, RowMap(rows))
  {
    boundary := if |rows| > 0 then Some(rows[|rows| - 1].id) else None;
  }

  class DocumentTables {
    var snapshot: Option<Snapshot>
    var log: map<nat, Content>
    var histories: map<nat, Content>

    ghost function View(): Tables
      reads this
    {
      Tables(snapshot, log, histories)
    }

    constructor ()
      ensures View() == INITIAL.tables
    {
      snapshot, log, histories := None, map[], map[];
    }

    method InsertUpdate(id: nat, update: Content)
      requires id !in log
      modifies this
      ensures Stored(View()) == Merge(old(Stored(View())), update)
      ensures View() == old(View()).(log := old(log)[id := update])
    {
      log := log[id := update];
      NewRowAdds(old(log), id, update);
    }

    /** All rows of the log; the order is of no consequence to a merge. */
    method FetchRows() returns (rows: seq<Row>)
      ensures DistinctIds(rows) && RowMap(rows) == log
    {
      rows := [];
      var left := log.Keys;
      while left != {}
        invariant left <= log.Keys
        invariant DistinctIds(rows) && RowMap(rows) == log - left
      {
        var id :| id in left;
        RowMapAppend(rows, Row(id, log[id]));
        rows := rows + [Row(id, log[id])];
        left := left - {id};
      }
    }

    /** A push with nobody else at work: insert, count, and rebuild at the threshold. */
    method PushUpdate(id: nat, update: Content, version: int)
      requires id !in log
      modifies this
      ensures Stored(View()) == Merge(old(Stored(View())), update)
      ensures old(|log|) < SNAPSHOT_THRESHOLD ==> |log| < SNAPSHOT_THRESHOLD
      ensures old(|log|) + 1 >= SNAPSHOT_THRESHOLD ==> log == map[] && snapshot.Some?
    {
      InsertUpdate(id, update);
      if |log| >= SNAPSHOT_THRESHOLD {
        var rows := FetchRows();
        RebuildOfAll(View(), version);
        var written := CommitRebuild(snapshot, rows, version);
      }
    }

    /** Merges what was read and, if the snapshot is still the one read, replaces it. */
    method CommitRebuild(read: Option<Snapshot>, rows: seq<Row>, version: int) returns (written: bool)
      requires DistinctIds(rows)
      modifies this
      ensures written == SnapshotWriteApplies(old(View()), read)
      ensures View() == RebuildTx(old(View()), read, RowMap(rows), version)
    {
      var merged := MergeAll(read, rows);
      var mergedIds: set<nat> := set i | 0 <= i < |rows| :: rows[i].id;
      assert RowMap(rows).Keys == mergedIds;
      if read.Some? {
        if snapshot.None? || snapshot.value.version != read.value.version {
          return false;
        }
        snapshot := Some(Snapshot(merged, version));
      } else {
        if snapshot.Some? {
          return false;
        }
        snapshot := Some(Snapshot(merged, version));
      }
      log := log - mergedIds;
      written := true;
    }

    /** Replaces the tables by the purged state unless something newer came in. */
    method CommitPurge(read: Option<Snapshot>, boundary: Option<nat>, rebuilt: Content, version: int)
      returns (applied: bool)
      modifies this
      ensures applied == PurgeApplies(old(View()), read, boundary)
      ensures View() == PurgeTx(old(View()), read, boundary, rebuilt, version)
    {
      var newer := set id | id in log && (boundary.None? || id > boundary.value);
      if newer != {} {
        var id :| id in newer;
        assert id in log;
        return false;
      }
      assert forall id <- log :: boundary.Some? && id <= boundary.value by {
        forall id | id in log ensures boundary.Some? && id <= boundary.value {
          assert id !in newer;
        }
      }
      if read.Some? {
        if snapshot.None? || snapshot.value.version != read.value.version {
          return false;
        }
      } else if snapshot.Some? {
        return false;
      }
      snapshot := Some(Snapshot(rebuilt, version));
      if boundary.Some? {
        log := log - (set id | id in log && id <= boundary.value);
      }
      histories := map[];
      applied := true;
    }

    /** Puts a history entry back as the current state and clears the log. */
    method Recover(history: nat, version: int) returns (recovered: bool)
      modifies this
      ensures recovered == (history in old(histories))
      ensures View() == if recovered then RecoverTx(old(View()), old(histories)[history], version) else old(View())
    {
      if history !in histories {
        return false;
      }
      var blob := histories[history];
      snapshot := Some(Snapshot(blob, version));
      log := map[];
      recovered := true;
    }

    method HardDelete()
      modifies this
      ensures Stored(View()) == EMPTY && View() == INITIAL.tables
    {
      log := map[];
      snapshot := None;
      histories := map[];
    }
  }
}
