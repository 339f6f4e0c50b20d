/**
 * The ledger's writers one at a time, changing rows in place and then bumping the
 * workspace revision and telling its listeners.
 */
module LedgerService {
  import opened Common
  import opened Permission
  import opened Ledger

  /** The listeners that are told, those that throw left out, in the order they registered. */
  function Reached(listeners: seq<nat>, failing: set<nat>): seq<nat> {
    if listeners == [] then []
    else
      var before := Reached(listeners[..|listeners| - 1], failing);
      var last := listeners[|listeners| - 1];
      if last in failing then before else before + [last]
  }

  lemma {:induction false} ReachedMeans(listeners: seq<nat>, failing: set<nat>, l: nat)
    ensures l in Reached(listeners, failing) <==> l in listeners && l !in failing
    ensures multiset(Reached(listeners, failing))[l] == if l in failing then 0 else multiset(listeners)[l]
  {
    if listeners != [] {
      var front, last := listeners[..|listeners| - 1], listeners[|listeners| - 1];
      assert listeners == front + [last];
      ReachedMeans(front, failing, l);
    }
  }

  /** A listener that registers is told of every later change, after those registered before it. */
  lemma RegisteredIsTold(listeners: seq<nat>, l: nat, failing: set<nat>)
    ensures Reached(listeners + [l], failing) == Reached(listeners, failing) + if l in failing then [] else [l]
  {
    assert (listeners + [l])[..|listeners|] == listeners;
  }

  datatype Status = Ok(revision: nat) | Stale(revision: nat, title: Option<string>, trash: bool) | NotFound

  /** A listener told, and what it finds when it reads the revision and the tables at that moment. */
  datatype Notice = Notice(listener: nat, revision: nat, db: Db)

  function Notices(told: seq<nat>, revision: nat, db: Db): seq<Notice> {
    seq(|told|, i requires 0 <= i < |told| => Notice(told[i], revision, db))
  }

  /** How a bump ends: whether the counter could be raised, and which listeners throw. */
  datatype BumpOutcome = BumpOutcome(succeeds: bool, failing: set<nat>)

  class Service {
    var rows: map<Id, Row>
    var grants: map<(Id, Id), string>
    var revision: nat
    var listeners: seq<nat>
    /** Every notification that reached a listener, oldest first. */
    var delivered: seq<Notice>

    ghost function Tables(): Db
      reads this
    {
      Db(rows, grants)
    }

    /**
     * Since the old state the change has been announced: the revision went up by one
     * and then every listener that does not throw was told once, finding the new
     * revision and the new tables. When the counter could not be raised nobody was told.
     */
    twostate predicate Announced(bump: BumpOutcome)
      reads this
    {
      && listeners == old(listeners)
      && revision == old(revision) + (if bump.succeeds then 1 else 0)
      && delivered == old(delivered)
                      + if bump.succeeds then Notices(Reached(listeners, bump.failing), revision, Tables()) else []
    }

    /** Nobody has been told anything, and there was nothing to tell. */
    twostate predicate Silent()
      reads this
    {
      revision == old(revision) && delivered == old(delivered) && listeners == old(listeners) && Tables() == old(Tables())
    }

    constructor ()
      ensures Tables() == Db(map[], map[]) && revision == 0 && listeners == [] && delivered == []
    {
      rows, grants, revision, listeners, delivered := map[], map[], 0, [], [];
    }

    /** From now on the listener is told after those before it, unless it throws. */
    method OnChanged(listener: nat)
      modifies this
      ensures Tables() == old(Tables()) && revision == old(revision) && delivered == old(delivered)
      ensures listeners == old(listeners) + [listener]
      ensures forall failing: set<nat> :: Reached(listeners, failing)
                == old(Reached(listeners, failing)) + if listener in failing then [] else [listener]
    {
      ghost var before := listeners;
      listeners := listeners + [listener];
      forall failing: set<nat>
        ensures Reached(listeners, failing) == Reached(before, failing) + if listener in failing then [] else [listener]
      {
        RegisteredIsTold(before, listener, failing);
      }
    }

    /** A failed bump tells nobody; a listener that throws keeps nobody else from being told. */
    method Bump(bump: BumpOutcome)
      modifies this
      ensures Tables() == old(Tables()) && Announced(bump)
    {
      if !bump.succeeds {
        return;
      }
      revision := revision + 1;
      for i := 0 to |listeners|
        invariant Tables() == old(Tables()) && listeners == old(listeners) && revision == old(revision) + 1
        invariant delivered == old(delivered) + Notices(Reached(listeners[..i], bump.failing), revision, Tables())
      {
        assert listeners[..i + 1][..i] == listeners[..i];
        if listeners[i] !in bump.failing {
          delivered := delivered + [Notice(listeners[i], revision, Db(rows, grants))];
        }
      }
      assert listeners[..|listeners|] == listeners;
    }

    /** Registers a document once: sent again it changes neither the row nor the revision. */
    method CreateDoc(doc: Id, title: string, mode: string, bump: BumpOutcome) returns (created: Row)
      modifies this
      ensures Tables() == Execute(old(Tables()), Create(doc, title, mode, doc in old(rows))).db
      ensures doc in rows && created == rows[doc] && SameElsewhere(old(rows), rows, doc) && grants == old(grants)
      ensures created == if doc in old(rows) then old(rows)[doc]
                         else Row(Some(title), [], mode, false, false, None, 1, 1, 1)
      ensures if doc in old(rows) then Silent() else Announced(bump)
    {
      var before := doc in rows;
      if doc !in rows {
        rows := rows[doc := BLANK.(title := Some(title), mode := mode, titleRevision := 1, trashRevision := 1, tagsRevision := 1)];
      }
      created := rows[doc];
      if !before {
        Bump(bump);
      }
    }

    /** Removes the row and, with it, its grants. */
    method DeleteDoc(doc: Id, bump: BumpOutcome) returns (deleted: bool)
      requires GrantsHaveRows(Tables())
      modifies this
      ensures deleted == (doc in old(rows)) && GrantsHaveRows(Tables())
      ensures Tables() == Execute(old(Tables()), Delete(doc)).db
      ensures doc !in rows && SameElsewhere(old(rows), rows, doc)
      ensures forall other, user :: if other == doc then (other, user) !in grants
                                    else SameAt(old(grants), grants, (other, user))
      ensures if deleted then Announced(bump) else Silent()
    {
      deleted := doc in rows;
      rows := rows - {doc};
      grants := map k | k in grants && k.0 != doc :: grants[k];
      if deleted {
        Bump(bump);
      } else {
        assert rows == old(rows) && grants == old(grants);
      }
    }

    /** A title write: not found, stale, nothing to do, or written and announced. */
    method SetTitle(doc: Id, title: string, base: nat, bump: BumpOutcome) returns (status: Status)
      modifies this
      ensures doc !in old(rows) ==> status == NotFound && Silent()
      ensures doc in old(rows) ==>
                var row := old(rows)[doc];
                if row.titleRevision != base
                then status == Stale(row.titleRevision, row.title, row.trash) && Silent()
                else status.Ok? && doc in rows && rows[doc].title == Some(title) && rows[doc].titleRevision == status.revision
                     && if row.title == Some(title) then Silent() && status.revision == base
                        else && Announced(bump) && Tables() == Execute(old(Tables()), CasTitle(doc, base, title)).db
                             && SameElsewhere(old(rows), rows, doc) && grants == old(grants)
                             && rows[doc] == Row(Some(title), row.tagIds, row.mode, row.trash, row.isPublic,
                                                 row.defaultRole, base + 1, row.trashRevision, row.tagsRevision)
    {
      if doc !in rows {
        return NotFound;
      }
      var row := rows[doc];
      if row.titleRevision != base {
        return Stale(row.titleRevision, row.title, row.trash);
      }
      if row.title == Some(title) {
        return Ok(base);
      }
      rows := rows[doc := row.(title := Some(title), titleRevision := base + 1)];
      Bump(bump);
      status := Ok(base + 1);
    }

    method GrantDocUserRole(doc: Id, user: Id, role: string, bump: BumpOutcome) returns (granted: bool)
      modifies this
      ensures granted == (doc in old(rows))
      ensures Tables() == Execute(old(Tables()), GrantRole(doc, user, role)).db
      ensures if granted then Announced(bump) else Silent()
      ensures granted ==> && (doc, user) in grants && grants[(doc, user)] == role && rows == old(rows)
                          && SameElsewhere(old(grants), grants, (doc, user))
    {
      if doc !in rows {
        return false;
      }
      grants := grants[(doc, user) := role];
      Bump(bump);
      granted := true;
    }

    /** Announced whether or not there was a grant. */
    method RevokeDocUserRole(doc: Id, user: Id, bump: BumpOutcome)
      modifies this
      ensures Tables() == Execute(old(Tables()), RevokeRole(doc, user)).db && Announced(bump)
      ensures (doc, user) !in grants && SameElsewhere(old(grants), grants, (doc, user)) && rows == old(rows)
    {
      grants := grants - {(doc, user)};
      Bump(bump);
    }

    method UpdateDocDefaultRole(doc: Id, role: string, bump: BumpOutcome)
      modifies this
      ensures Tables() == Execute(old(Tables()), SetDefaultRole(doc, role)).db && Announced(bump)
      ensures && doc in rows && rows[doc].defaultRole == Some(role) && SameElsewhere(old(rows), rows, doc)
              && grants == old(grants)
    {
      var row := if doc in rows then rows[doc] else BLANK;
      rows := rows[doc := row.(defaultRole := Some(role))];
      Bump(bump);
    }
  }
}
