/**
 * A run in which a client keeps a stale list at an equal revision: a create that
 * found the row, whose row is then deleted, inserts it again and bumps nothing.
 */
module LedgerLimits {
  import opened Ledger
  import opened LedgerCache

  const EVERYONE: Policy := (grants, defaults, doc, user) => true

  const DELETED: seq<Event> :=
    [CreateRead(0, "d")] + ([CreateWrites(0, "t", "page")] + ([Bump] + ([CreateRead(1, "d")]
    + ([Writes(Delete("d"))] + [Bump]))))

  const AFTER_DELETE := System(Db(map[], map[]), 2, 0, map[1 := ("d", true)], map[], map[])

  /** The client fetches the list, which is empty. */
  const FETCH: seq<Event> :=
    [ReadRevision(0, "u")] + ([ReadRows(0)] + ([ReadGrants(0)] + ([ReadDefaults(0)] + [Store(0, 0)])))

  const FETCHED := AFTER_DELETE.(caches := map[0 := Cached("u", 2, map[])])

  lemma RunFrom(policy: Policy, s: System, e: Event, rest: seq<Event>)
    requires Enabled(s, e) && Run(policy, Next(policy, s, e), rest)
    ensures Run(policy, s, [e] + rest)
    ensures Final(policy, s, [e] + rest) == Final(policy, Next(policy, s, e), rest)
  {
  }

  lemma RunLast(policy: Policy, s: System, e: Event)
    requires Enabled(s, e)
    ensures Run(policy, s, [e]) && Final(policy, s, [e]) == Next(policy, s, e)
  {
  }

  lemma RowDeletedAfterCreateRead()
    ensures Run(EVERYONE, START, DELETED) && Final(EVERYONE, START, DELETED) == AFTER_DELETE
  {
    var p := EVERYONE;
    var s1 := Next(p, START, CreateRead(0, "d"));
    var s2 := Next(p, s1, CreateWrites(0, "t", "page"));
    var s3 := Next(p, s2, Bump);
    assert "d" in s3.db.rows && s3.creates == map[];
    var s4 := Next(p, s3, CreateRead(1, "d"));
    var s5 := Next(p, s4, Writes(Delete("d")));
    assert s5.db == Db(map[], map[]) && s5.unbumped == 1;
    RunLast(p, s5, Bump);
    RunFrom(p, s4, Writes(Delete("d")), [Bump]);
    var r4 := [Writes(Delete("d"))] + [Bump];
    RunFrom(p, s3, CreateRead(1, "d"), r4);
    var r3 := [CreateRead(1, "d")] + r4;
    RunFrom(p, s2, Bump, r3);
    RunFrom(p, s1, CreateWrites(0, "t", "page"), [Bump] + r3);
    RunFrom(p, START, CreateRead(0, "d"), [CreateWrites(0, "t", "page")] + ([Bump] + r3));
  }

  lemma EmptyListFetched()
    ensures Run(EVERYONE, AFTER_DELETE, FETCH) && Final(EVERYONE, AFTER_DELETE, FETCH) == FETCHED
  {
    var p := EVERYONE;
    var s1 := Next(p, AFTER_DELETE, ReadRevision(0, "u"));
    var s2 := Next(p, s1, ReadRows(0));
    var s3 := Next(p, s2, ReadGrants(0));
    var s4 := Next(p, s3, ReadDefaults(0));
    var s5 := Next(p, s4, Store(0, 0));
    assert s5.readers == map[] && s5.caches[0].list == map[];
    RunLast(p, s4, Store(0, 0));
    RunFrom(p, s3, ReadDefaults(0), [Store(0, 0)]);
    var r3 := [ReadDefaults(0)] + [Store(0, 0)];
    RunFrom(p, s2, ReadGrants(0), r3);
    RunFrom(p, s1, ReadRows(0), [ReadGrants(0)] + r3);
    RunFrom(p, AFTER_DELETE, ReadRevision(0, "u"), [ReadRows(0)] + ([ReadGrants(0)] + r3));
  }

  /** The client's revision is the server's, nothing is pending, and the list lacks a document. */
  lemma LateInsertLeavesListStale()
    ensures Run(EVERYONE, START, DELETED) && Final(EVERYONE, START, DELETED) == AFTER_DELETE
    ensures Run(EVERYONE, AFTER_DELETE, FETCH) && Final(EVERYONE, AFTER_DELETE, FETCH) == FETCHED
    ensures Enabled(FETCHED, CreateWrites(1, "t", "page"))
    ensures var s := Next(EVERYONE, FETCHED, CreateWrites(1, "t", "page"));
            && s.unbumped == 0 && s.caches[0].revision == s.revision
            && "d" !in s.caches[0].list && "d" in CurrentList(EVERYONE, s.db, s.caches[0].user)
  {
    RowDeletedAfterCreateRead();
    EmptyListFetched();
    assert "d" in Next(EVERYONE, FETCHED, CreateWrites(1, "t", "page")).db.rows;
  }
}
