/**
 * Lists cached by clients against the workspace revision. Writers write and later
 * bump; readers take the revision first and then the rows, the grants and the
 * default roles, each at its own instant. All of it interleaves.
 */
module LedgerCache {
  import opened Common
  import opened Permission
  import opened Ledger

  /** A list request in flight and what it has read so far. */
  datatype Reader = Reader(user: Id, revision: nat, entries: Option<map<Id, Entry>>,
                           grants: Option<map<(Id, Id), string>>, defaults: Option<map<Id, Option<string>>>)

  datatype Cached = Cached(user: Id, revision: nat, list: map<Id, Entry>)

  /** `unbumped` counts the writers between their write and their bump. */
  datatype System = System(db: Db, revision: nat, unbumped: nat, creates: map<nat, (Id, bool)>,
                           readers: map<nat, Reader>, caches: map<nat, Cached>)

  datatype Event =
    | Writes(write: Write)
    | CreateRead(task: nat, doc: Id)
    | CreateWrites(task: nat, title: string, mode: string)
    | Bump
    | BumpFails
    | ReadRevision(reader: nat, user: Id)
    | ReadRows(reader: nat)
    | ReadGrants(reader: nat)
    | ReadDefaults(reader: nat)
    | Store(reader: nat, client: nat)

  const START := System(Db(map[], map[]), 0, 0, map[], map[], map[])

  predicate Enabled(s: System, e: Event) {
    match e
    case Writes(w) => !w.Create?
    case CreateRead(t, _) => t !in s.creates
    case CreateWrites(t, _, _) => t in s.creates
    case Bump => s.unbumped > 0
    case BumpFails => s.unbumped > 0
    case ReadRevision(r, _) => r !in s.readers
    case ReadRows(r) => r in s.readers && s.readers[r].entries.None?
    case ReadGrants(r) => r in s.readers && s.readers[r].entries.Some? && s.readers[r].grants.None?
    case ReadDefaults(r) => r in s.readers && s.readers[r].entries.Some? && s.readers[r].defaults.None?
    case Store(r, _) =>
      r in s.readers && s.readers[r].entries.Some? && s.readers[r].grants.Some? && s.readers[r].defaults.Some?
  }

  /** The database write of an event, if it is one. */
  function WriteOf(s: System, e: Event): Option<Write>
    requires Enabled(s, e)
  {
    match e
    case Writes(w) => Some(w)
    case CreateWrites(t, title, mode) => Some(Create(s.creates[t].0, title, mode, s.creates[t].1))
    case _ => None
  }

  function Next(policy: Policy, s: System, e: Event): System
    requires Enabled(s, e)
  {
    match e
    case Writes(write) => Announce(s, Execute(s.db, write))
    case CreateRead(t, doc) => s.(creates := s.creates[t := (doc, doc in s.db.rows)])
    case CreateWrites(t, _, _) => Announce(s, Execute(s.db, WriteOf(s, e).value)).(creates := s.creates - {t})
    case Bump => s.(revision := s.revision + 1, unbumped := s.unbumped - 1)
    case BumpFails => s.(unbumped := s.unbumped - 1)
    case ReadRevision(r, user) => s.(readers := s.readers[r := Reader(user, s.revision, None, None, None)])
    case ReadRows(r) => s.(readers := s.readers[r := s.readers[r].(entries := Some(Entries(s.db.rows)))])
    case ReadGrants(r) => s.(readers := s.readers[r := s.readers[r].(grants := Some(s.db.grants))])
    case ReadDefaults(r) => s.(readers := s.readers[r := s.readers[r].(defaults := Some(Defaults(s.db.rows)))])
    case Store(r, client) =>
      var k := s.readers[r];
      s.(readers := s.readers - {r},
         caches := s.caches[client := Cached(k.user, k.revision,
                     ListOf(policy, k.user, k.entries.value, k.grants.value, k.defaults.value))])
  }

  function Announce(s: System, written: Written): System {
    s.(db := written.db, unbumped := s.unbumped + if written.bumps then 1 else 0)
  }

  // -------------------------------------------------------------------- coherence

  /** Whatever the reader has read is still what the tables hold. */
  predicate UpToDate(s: System, k: Reader) {
    && (k.entries.Some? ==> k.entries.value == Entries(s.db.rows))
    && (k.grants.Some? ==> k.grants.value == s.db.grants)
    && (k.defaults.Some? ==> k.defaults.value == Defaults(s.db.rows))
  }

  /** With no writer before its bump, an equal revision means an equal list. */
  ghost predicate Coherent(policy: Policy, s: System) {
    forall c <- s.caches | s.unbumped == 0 && s.caches[c].revision == s.revision ::
      s.caches[c].list == CurrentList(policy, s.db, s.caches[c].user)
  }

  ghost predicate Inv(policy: Policy, s: System) {
    && GrantsHaveRows(s.db)
    && Coherent(policy, s)
    && (forall c <- s.caches :: s.caches[c].revision <= s.revision)
    && (forall r <- s.readers :: s.readers[r].revision <= s.revision)
    && (forall r <- s.readers | s.unbumped == 0 && s.readers[r].revision == s.revision :: UpToDate(s, s.readers[r]))
  }

  /** A create inserts a row after its own read found one: somebody deleted it in between. */
  predicate LateInsert(s: System, e: Event)
    requires Enabled(s, e)
  {
    e.CreateWrites? && s.creates[e.task].1 && s.creates[e.task].0 !in s.db.rows
  }

  predicate Safe(s: System, e: Event)
    requires Enabled(s, e)
  {
    e != BumpFails && !LateInsert(s, e)
  }

  lemma WriteKeepsInv(policy: Policy, s: System, e: Event)
    requires Inv(policy, s) && Enabled(s, e) && Safe(s, e) && WriteOf(s, e).Some?
    ensures Inv(policy, Next(policy, s, e))
  {
    var write := WriteOf(s, e).value;
    UnannouncedIff(s.db, write);
    ExecuteKeepsGrants(s.db, write);
  }

  lemma NextKeepsInv(policy: Policy, s: System, e: Event)
    requires Inv(policy, s) && Enabled(s, e) && Safe(s, e)
    ensures Inv(policy, Next(policy, s, e))
  {
    if WriteOf(s, e).Some? {
      WriteKeepsInv(policy, s, e);
    }
  }

  ghost predicate Run(policy: Policy, s: System, es: seq<Event>)
    decreases |es|
  {
    es == [] || (Enabled(s, es[0]) && Run(policy, Next(policy, s, es[0]), es[1..]))
  }

  ghost predicate AllSafe(policy: Policy, s: System, es: seq<Event>)
    requires Run(policy, s, es)
    decreases |es|
  {
    es == [] || (Safe(s, es[0]) && AllSafe(policy, Next(policy, s, es[0]), es[1..]))
  }

  ghost function Final(policy: Policy, s: System, es: seq<Event>): System
    requires Run(policy, s, es)
    decreases |es|
  {
    if es == [] then s else Final(policy, Next(policy, s, es[0]), es[1..])
  }

  lemma {:induction false} RunKeepsInv(policy: Policy, s: System, es: seq<Event>)
    requires Inv(policy, s) && Run(policy, s, es) && AllSafe(policy, s, es)
    ensures Inv(policy, Final(policy, s, es))
    decreases |es|
  {
    if es != [] {
      NextKeepsInv(policy, s, es[0]);
      RunKeepsInv(policy, Next(policy, s, es[0]), es[1..]);
    }
  }

  /**
   * In every reachable state with no writer between its write and its bump, a client
   * whose revision is the server's holds the list its user should see.
   */
  lemma CacheCoherence(policy: Policy, es: seq<Event>, client: nat)
    requires Run(policy, START, es) && AllSafe(policy, START, es)
    requires var s := Final(policy, START, es);
             client in s.caches && s.unbumped == 0 && s.caches[client].revision == s.revision
    ensures var s := Final(policy, START, es);
            s.caches[client].list == CurrentList(policy, s.db, s.caches[client].user)
  {
    RunKeepsInv(policy, START, es);
  }

  /**
   * For the permission service's own policy: the cached list is the readable part of
   * the ledger as it is now.
   */
  lemma CacheShowsReadableDocuments(w: Workspace, es: seq<Event>, client: nat, doc: Id)
    requires Run(PolicyOf(w), START, es) && AllSafe(PolicyOf(w), START, es)
    requires var s := Final(PolicyOf(w), START, es);
             && client in s.caches && s.unbumped == 0 && s.caches[client].revision == s.revision
             && !BatchDiffers(DirectoryOf(w, s.db.grants, Defaults(s.db.rows)), w.id, doc, s.caches[client].user)
    ensures var s := Final(PolicyOf(w), START, es);
            var list := s.caches[client].list;
            var dir := DirectoryOf(w, s.db.grants, Defaults(s.db.rows));
            && (doc in list <==> (doc in s.db.rows && CanRead(dir, w.id, doc, s.caches[client].user)))
            && (doc in list ==> var row := s.db.rows[doc]; list[doc] == Entry(row.title, row.tagIds, row.mode, row.trash))
  {
    var s := Final(PolicyOf(w), START, es);
    CacheCoherence(PolicyOf(w), es, client);
    CurrentListIsReadable(w, s.db, s.caches[client].user, doc);
  }

  /** A late insert leaves a client with a stale list at an equal revision exactly when it shows the row. */
  lemma LateInsertBreaksCoherence(policy: Policy, s: System, e: Event, client: nat)
    requires Local(policy) && Inv(policy, s) && Enabled(s, e) && LateInsert(s, e) && s.unbumped == 0
    requires client in s.caches && s.caches[client].revision == s.revision
    ensures var s' := Next(policy, s, e);
            && s'.unbumped == 0 && s'.caches[client].revision == s'.revision
            && (s'.caches[client].list == CurrentList(policy, s'.db, s'.caches[client].user)
                <==> s.creates[e.task].0 !in CurrentList(policy, s'.db, s'.caches[client].user))
  {
    var doc := s.creates[e.task].0;
    var db' := Next(policy, s, e).db;
    assert db' == Put(s.db, doc, db'.rows[doc]);
    InsertChangesListIff(policy, s.db, doc, db'.rows[doc], s.caches[client].user);
  }

  // ------------------------------------------------------------------ left alone

  /** A request nobody disturbs leaves the client the current list at the current revision. */
  lemma QuietFetch(policy: Policy, s: System, r: nat, user: Id, client: nat)
    requires r !in s.readers
    ensures var s3 := Next(policy, Next(policy, Next(policy, s, ReadRevision(r, user)), ReadRows(r)), ReadGrants(r));
            var s4 := Next(policy, s3, ReadDefaults(r));
            var s5 := Next(policy, s4, Store(r, client));
            && Enabled(s4, Store(r, client))
            && s5.caches == s.caches[client := Cached(user, s.revision, CurrentList(policy, s.db, user))]
            && s5.db == s.db && s5.revision == s.revision && s5.unbumped == s.unbumped
  {
  }

  /** A writer has written before its bump, and the bump raises the revision by one. */
  lemma WriteThenBump(policy: Policy, s: System, write: Write)
    requires !write.Create? && Execute(s.db, write).bumps
    ensures var s1 := Next(policy, s, Writes(write));
            && s1.db == Execute(s.db, write).db && s1.revision == s.revision && s1.unbumped == s.unbumped + 1
            && s1.caches == s.caches && s1.readers == s.readers
            && var s2 := Next(policy, s1, Bump);
               && s2.db == s1.db && s2.revision == s.revision + 1 && s2.unbumped == s.unbumped
               && s2.caches == s.caches && s2.readers == s.readers
  {
  }

  /** Left alone, a create writes with what it read, and is then done. */
  lemma QuietCreate(policy: Policy, s: System, t: nat, doc: Id, title: string, mode: string)
    requires t !in s.creates
    ensures var s2 := Next(policy, Next(policy, s, CreateRead(t, doc)), CreateWrites(t, title, mode));
            var write := Create(doc, title, mode, doc in s.db.rows);
            && s2.db == Execute(s.db, write).db && s2.creates == s.creates && s2.revision == s.revision
            && s2.unbumped == s.unbumped + (if doc in s.db.rows then 0 else 1)
            && s2.caches == s.caches && s2.readers == s.readers
  {
  }

  // -------------------------------------------------------------- swallowed bumps

  /**
   * When the bump of a write is swallowed, a client that was up to date keeps, at an
   * equal revision, a list that is stale exactly when the write changed it.
   */
  lemma SwallowedBumpLeavesStaleIff(policy: Policy, s: System, e: Event, client: nat)
    requires Inv(policy, s) && Enabled(s, e) && WriteOf(s, e).Some? && s.unbumped == 0
    requires Execute(s.db, WriteOf(s, e).value).bumps
    requires client in s.caches && s.caches[client].revision == s.revision
    ensures var s' := Next(policy, Next(policy, s, e), BumpFails);
            var user := s.caches[client].user;
            && s'.unbumped == 0 && s'.caches[client].revision == s'.revision
            && (s'.caches[client].list == CurrentList(policy, s'.db, user)
                <==> CurrentList(policy, s.db, user) == CurrentList(policy, s'.db, user))
  {
    assert s.caches[client].list == CurrentList(policy, s.db, s.caches[client].user);
  }

  /** Nobody holds a revision the server has not reached. */
  ghost predicate Bounded(s: System) {
    && GrantsHaveRows(s.db)
    && (forall c <- s.caches :: s.caches[c].revision <= s.revision)
    && (forall r <- s.readers :: s.readers[r].revision <= s.revision)
  }

  lemma NextKeepsBounded(policy: Policy, s: System, e: Event)
    requires Bounded(s) && Enabled(s, e)
    ensures Bounded(Next(policy, s, e))
  {
    if WriteOf(s, e).Some? {
      ExecuteKeepsGrants(s.db, WriteOf(s, e).value);
    }
  }

  lemma {:induction false} RunKeepsBounded(policy: Policy, s: System, es: seq<Event>)
    requires Bounded(s) && Run(policy, s, es)
    ensures Bounded(Final(policy, s, es))
    decreases |es|
  {
    if es != [] {
      NextKeepsBounded(policy, s, es[0]);
      RunKeepsBounded(policy, Next(policy, s, es[0]), es[1..]);
    }
  }

  /**
   * Clients catch up at the next change: whatever bumps were swallowed and rows inserted
   * late before it, coherence is back with the next bump that succeeds.
   */
  lemma CatchesUp(policy: Policy, before: seq<Event>, es: seq<Event>, client: nat)
    requires Run(policy, START, before) && Enabled(Final(policy, START, before), Bump)
    requires var s := Next(policy, Final(policy, START, before), Bump);
             && Run(policy, s, es) && AllSafe(policy, s, es)
             && var last := Final(policy, s, es);
                client in last.caches && last.unbumped == 0 && last.caches[client].revision == last.revision
    ensures var last := Final(policy, Next(policy, Final(policy, START, before), Bump), es);
            last.caches[client].list == CurrentList(policy, last.db, last.caches[client].user)
  {
    RunKeepsBounded(policy, START, before);
    var s := Next(policy, Final(policy, START, before), Bump);
    assert Inv(policy, s);
    RunKeepsInv(policy, s, es);
  }
}
