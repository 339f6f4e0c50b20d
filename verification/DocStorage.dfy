/**
 * Storage of one document: an optional snapshot row with a version, and a log of
 * update rows keyed by id. Writers first read the rows, compute, and then commit
 * in one transaction that checks what they read; every read and every
 * transaction is one step, and all of them interleave.
 */
module DocStorage {
  import opened Common

  // ---------------------------------------------------------------- contents

  /** The identity of one Yjs operation: who issued it and at which clock. */
  datatype Op = Op(client: nat, clock: nat)

  /** A Yjs update: the operations it carries and the ones it knows to be deleted. */
  datatype Content = Content(ops: set<Op>, dead: set<Op>)

  const EMPTY := Content({}, {})

  /** `mergeUpdates`: a binary merge, which drops nothing. */
  function Merge(a: Content, b: Content): Content {
    Content(a.ops + b.ops, a.dead + b.dead)
  }

  /** What a reader of the document sees. */
  function Visible(c: Content): set<Op> {
    c.ops - c.dead
  }

  /**
   * Applying the update to a collecting document, deleting `removed` there and
   * encoding the state again: deleted operations are dropped, their tombstones stay.
   */
  function Scrub(c: Content, removed: set<Op>): Content {
    Content(c.ops - c.dead - removed, c.dead + removed)
  }

  /** Everything the rows of a log hold. */
  function LogContent(log: map<nat, Content>): Content {
    Content(set id, o | id in log && o in log[id].ops :: o,
            set id, o | id in log && o in log[id].dead :: o)
  }

  predicate Within(a: Content, b: Content) {
    a.ops <= b.ops && a.dead <= b.dead
  }

  // ------------------------------------------------------------------- tables

  datatype Snapshot = Snapshot(content: Content, version: int)

  datatype Tables = Tables(snapshot: Option<Snapshot>, log: map<nat, Content>, histories: map<nat, Content>)

  function SnapshotContent(snapshot: Option<Snapshot>): Content {
    if snapshot.Some? then snapshot.value.content else EMPTY
  }

  /** The document as a reader of both tables at one instant would see it. */
  function Stored(t: Tables): Content {
    Merge(SnapshotContent(t.snapshot), LogContent(t.log))
  }

  /** What a task merges from its two reads. */
  function Merged(snapshot: Option<Snapshot>, rows: map<nat, Content>): Content {
    Merge(SnapshotContent(snapshot), LogContent(rows))
  }

  /** CAS on the version read, or creation when no snapshot was read. */
  predicate SnapshotWriteApplies(t: Tables, read: Option<Snapshot>) {
    match read
    case Some(s) => t.snapshot.Some? && t.snapshot.value.version == s.version
    case None => t.snapshot.None?
  }

  /** The commit transaction of a snapshot rebuild. */
  function RebuildTx(t: Tables, read: Option<Snapshot>, rows: map<nat, Content>, version: int): Tables {
    if SnapshotWriteApplies(t, read) then
      t.(snapshot := Some(Snapshot(Merged(read, rows), version)), log := t.log - rows.Keys)
    else t
  }

  /** No row is newer than the ones read: with no row read, no row at all. */
  predicate NothingNewer(t: Tables, boundary: Option<nat>) {
    match boundary
    case None => t.log == map[]
    case Some(b) => forall id <- t.log :: id <= b
  }

  predicate PurgeApplies(t: Tables, read: Option<Snapshot>, boundary: Option<nat>) {
    NothingNewer(t, boundary) && SnapshotWriteApplies(t, read)
  }

  /** The commit transaction of an index purge. */
  function PurgeTx(t: Tables, read: Option<Snapshot>, boundary: Option<nat>, rebuilt: Content, version: int): Tables {
    if PurgeApplies(t, read, boundary) then
      Tables(Some(Snapshot(rebuilt, version)),
             if boundary.None? then t.log else t.log - (set id | id in t.log && id <= boundary.value),
             map[])
    else t
  }

  /** The transaction of a recovery from history. */
  function RecoverTx(t: Tables, blob: Content, version: int): Tables {
    t.(snapshot := Some(Snapshot(blob, version)), log := map[])
  }

  /** The boundary a purge notes: the largest id it read (rows come in id order). */
  ghost predicate IsBoundary(boundary: Option<nat>, rows: map<nat, Content>) {
    match boundary
    case None => rows == map[]
    case Some(b) => b in rows && forall id <- rows :: id <= b
  }

  // -------------------------------------------------------------------- steps

  /** A task between its reads and its commit. */
  datatype Task =
    | RebuildSnap(snapshot: Option<Snapshot>)
    | RebuildRead(snapshot: Option<Snapshot>, rows: map<nat, Content>)
    | PurgeSnap(snapshot: Option<Snapshot>)
    | PurgeRead(snapshot: Option<Snapshot>, rows: map<nat, Content>)
    | PurgeReady(snapshot: Option<Snapshot>, rows: map<nat, Content>, boundary: Option<nat>, removed: set<Op>)
    | LoadSnap(snapshot: Option<Snapshot>)
    | RecoverRead(blob: Content)
    | SaveRead(blob: Content)

  type TaskId = nat

  /**
   * `versions` and `ids` record what every snapshot version and every log id was
   * used for. The program does not keep them; they only serve to state what is
   * assumed of the clock and of the id sequence.
   */
  datatype System = System(tables: Tables, tasks: map<TaskId, Task>, versions: map<int, Content>, ids: map<nat, Content>)

  const INITIAL := System(Tables(None, map[], map[]), map[], map[], map[])

  datatype Event =
    | Push(id: nat, update: Content)
    | RebuildStart(task: TaskId)
    | RebuildReadLog(task: TaskId)
    | RebuildCommit(task: TaskId, version: int)
    | PurgeStart(task: TaskId)
    | PurgeReadLog(task: TaskId)
    | PurgeSelect(task: TaskId, boundary: Option<nat>, removed: set<Op>)
    | PurgeStop(task: TaskId)
    | PurgeCommit(task: TaskId, version: int)
    | LoadStart(task: TaskId)
    | LoadReadLog(task: TaskId)
    | SaveStart(task: TaskId)
    | SaveCommit(task: TaskId, history: nat)
    | SaveSkip(task: TaskId)
    | RecoverStart(task: TaskId, history: nat)
    | RecoverCommit(task: TaskId, version: int)
    | HardDelete

  ghost predicate Enabled(s: System, e: Event) {
    match e
    case Push(id, _) => id !in s.ids
    case RebuildStart(t) => t !in s.tasks
    case RebuildReadLog(t) => t in s.tasks && s.tasks[t].RebuildSnap?
    case RebuildCommit(t, _) => t in s.tasks && s.tasks[t].RebuildRead?
    case PurgeStart(t) => t !in s.tasks
    case PurgeReadLog(t) => t in s.tasks && s.tasks[t].PurgeSnap?
    case PurgeSelect(t, b, _) => t in s.tasks && s.tasks[t].PurgeRead? && IsBoundary(b, s.tasks[t].rows)
    case PurgeStop(t) => t in s.tasks && s.tasks[t].PurgeRead?
    case PurgeCommit(t, _) => t in s.tasks && s.tasks[t].PurgeReady?
    case LoadStart(t) => t !in s.tasks
    case LoadReadLog(t) => t in s.tasks && s.tasks[t].LoadSnap?
    case SaveStart(t) => t !in s.tasks && s.tables.snapshot.Some?
    case SaveCommit(t, h) => t in s.tasks && s.tasks[t].SaveRead? && h !in s.tables.histories
    case SaveSkip(t) => t in s.tasks && s.tasks[t].SaveRead?
    case RecoverStart(t, h) => t !in s.tasks && h in s.tables.histories
    case RecoverCommit(t, _) => t in s.tasks && s.tasks[t].RecoverRead?
    case HardDelete => true
  }

  /** Does this step overwrite or create the snapshot row? */
  ghost predicate Writes(s: System, e: Event)
    requires Enabled(s, e)
  {
    match e
    case RebuildCommit(t, _) => SnapshotWriteApplies(s.tables, s.tasks[t].snapshot)
    case PurgeCommit(t, _) => PurgeApplies(s.tables, s.tasks[t].snapshot, s.tasks[t].boundary)
    case RecoverCommit(_, _) => true
    case _ => false
  }

  ghost function NextTables(s: System, e: Event): Tables
    requires Enabled(s, e)
  {
    var t := s.tables;
    match e
    case Push(id, u) => t.(log := t.log[id := u])
    case RebuildCommit(k, v) => RebuildTx(t, s.tasks[k].snapshot, s.tasks[k].rows, v)
    case PurgeCommit(k, v) => PurgeTx(t, s.tasks[k].snapshot, s.tasks[k].boundary, Rebuilt(s.tasks[k]), v)
    case RecoverCommit(k, v) => RecoverTx(t, s.tasks[k].blob, v)
    case SaveCommit(k, h) => t.(histories := t.histories[h := s.tasks[k].blob])
    case HardDelete => Tables(None, map[], map[])
    case _ => t
  }

  /** What a purge writes: the scrubbed form of what it read. */
  function Rebuilt(task: Task): Content
    requires task.PurgeReady?
  {
    Scrub(Merged(task.snapshot, task.rows), task.removed)
  }

  ghost function NextTasks(s: System, e: Event): map<TaskId, Task>
    requires Enabled(s, e)
  {
    var t := s.tables;
    var nothing := t.log == map[];
    match e
    case RebuildStart(k) => s.tasks[k := RebuildSnap(t.snapshot)]
    case RebuildReadLog(k) =>
      if s.tasks[k].snapshot.None? && nothing then s.tasks - {k}
      else s.tasks[k := RebuildRead(s.tasks[k].snapshot, t.log)]
    case PurgeStart(k) => s.tasks[k := PurgeSnap(t.snapshot)]
    case PurgeReadLog(k) =>
      if s.tasks[k].snapshot.None? && nothing then s.tasks - {k}
      else s.tasks[k := PurgeRead(s.tasks[k].snapshot, t.log)]
    case PurgeSelect(k, b, removed) => s.tasks[k := PurgeReady(s.tasks[k].snapshot, s.tasks[k].rows, b, removed)]
    case LoadStart(k) => s.tasks[k := LoadSnap(t.snapshot)]
    case RecoverStart(k, h) => s.tasks[k := RecoverRead(t.histories[h])]
    case SaveStart(k) => s.tasks[k := SaveRead(t.snapshot.value.content)]
    case RebuildCommit(k, _) => s.tasks - {k}
    case PurgeStop(k) => s.tasks - {k}
    case PurgeCommit(k, _) => s.tasks - {k}
    case LoadReadLog(k) => s.tasks - {k}
    case RecoverCommit(k, _) => s.tasks - {k}
    case SaveCommit(k, _) => s.tasks - {k}
    case SaveSkip(k) => s.tasks - {k}
    case _ => s.tasks
  }

  ghost function Next(s: System, e: Event): System
    requires Enabled(s, e)
  {
    var tables := NextTables(s, e);
    System(tables, NextTasks(s, e),
           if Writes(s, e) then s.versions[tables.snapshot.value.version := tables.snapshot.value.content] else s.versions,
           if e.Push? then s.ids[e.id := e.update] else s.ids)
  }

  /** The update a load returns when it reads the log. */
  function LoadResult(s: System, t: TaskId): Content
    requires t in s.tasks && s.tasks[t].LoadSnap?
  {
    Merged(s.tasks[t].snapshot, s.tables.log)
  }

  // --------------------------------------------------------------- hypotheses

  /** The clock gives a snapshot write a version no snapshot had before. */
  ghost predicate FreshVersion(s: System, e: Event)
    requires Enabled(s, e)
  {
    Writes(s, e) ==> NextTables(s, e).snapshot.value.version !in s.versions
  }

  /** Log ids become visible in increasing order. */
  ghost predicate RisingId(s: System, e: Event) {
    e.Push? ==> forall id <- s.ids :: id < e.id
  }

  /**
   * What the create branch of a commit does not check: with no snapshot then and
   * none now, the log rows it merged may have been deleted in between.
   */
  ghost predicate CreateGuard(s: System, e: Event)
    requires Enabled(s, e)
  {
    (e.RebuildCommit? || e.PurgeCommit?) && Writes(s, e) && s.tasks[e.task].snapshot.None? ==>
      s.tasks[e.task].rows.Keys <= s.tables.log.Keys
  }

  // --------------------------------------------------------------- invariants

  /** A snapshot somebody holds is the one its version was used for. */
  ghost predicate Registered(s: System, snapshot: Option<Snapshot>) {
    snapshot.Some? ==> snapshot.value.version in s.versions
                       && s.versions[snapshot.value.version] == snapshot.value.content
  }

  ghost predicate RowsRegistered(s: System, rows: map<nat, Content>) {
    forall id <- rows :: id in s.ids && rows[id] == s.ids[id]
  }

  /** While the version a task read is still current, none of its rows can have gone. */
  ghost predicate RowsPinned(s: System, snapshot: Option<Snapshot>, rows: map<nat, Content>) {
    snapshot.Some? && SnapshotWriteApplies(s.tables, snapshot) ==> rows.Keys <= s.tables.log.Keys
  }

  ghost predicate TaskInv(s: System, task: Task) {
    match task
    case RebuildSnap(snap) => Registered(s, snap)
    case PurgeSnap(snap) => Registered(s, snap)
    case LoadSnap(snap) => Registered(s, snap)
    case RecoverRead(_) => true
    case SaveRead(_) => true
    case RebuildRead(snap, rows) => Registered(s, snap) && RowsRegistered(s, rows) && RowsPinned(s, snap, rows)
    case PurgeRead(snap, rows) => Registered(s, snap) && RowsRegistered(s, rows) && RowsPinned(s, snap, rows)
    case PurgeReady(snap, rows, b, _) =>
      Registered(s, snap) && RowsRegistered(s, rows) && RowsPinned(s, snap, rows) && IsBoundary(b, rows)
  }

  ghost predicate Inv(s: System) {
    && Registered(s, s.tables.snapshot)
    && RowsRegistered(s, s.tables.log)
    && forall t <- s.tasks :: TaskInv(s, s.tasks[t])
  }

  lemma NextKeepsTask(s: System, e: Event, task: Task)
    requires Inv(s) && Enabled(s, e) && FreshVersion(s, e) && TaskInv(s, task)
    ensures TaskInv(Next(s, e), task)
  {
  }

  lemma NextKeepsInv(s: System, e: Event)
    requires Inv(s) && Enabled(s, e) && FreshVersion(s, e)
    ensures Inv(Next(s, e))
  {
    var s' := Next(s, e);
    forall t | t in s'.tasks
      ensures TaskInv(s', s'.tasks[t])
    {
      if t in s.tasks {
        NextKeepsTask(s, e, s.tasks[t]);
      }
    }
  }

  /** Purge only: every row a purge did not read is newer than the ones it read. */
  ghost predicate LaterRowsNewer(s: System) {
    forall t <- s.tasks | s.tasks[t].PurgeRead? || s.tasks[t].PurgeReady? ::
      forall id <- s.tables.log, j <- s.tasks[t].rows | id !in s.tasks[t].rows :: j < id
  }

  lemma NextKeepsLaterRowsNewer(s: System, e: Event)
    requires Inv(s) && Enabled(s, e) && RisingId(s, e) && LaterRowsNewer(s)
    ensures LaterRowsNewer(Next(s, e))
  {
    var s' := Next(s, e);
    forall t | t in s'.tasks && (s'.tasks[t].PurgeRead? || s'.tasks[t].PurgeReady?)
      ensures forall id <- s'.tables.log, j <- s'.tasks[t].rows | id !in s'.tasks[t].rows :: j < id
    {
      if t in s.tasks {
        assert TaskInv(s, s.tasks[t]);
      }
    }
  }
}
