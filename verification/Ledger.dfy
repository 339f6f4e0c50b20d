/**
 * The ledger of one workspace (the metadata rows and document permissions that
 * decide what each user's list shows) and its writers.
 */
module Ledger {
  import opened Common
  import opened Permission

  datatype Row = Row(title: Option<string>, tagIds: seq<string>, mode: string, trash: bool, isPublic: bool,
                     defaultRole: Option<string>, titleRevision: nat, trashRevision: nat, tagsRevision: nat)

  /** What a row holds when only its key is given. */
  const BLANK := Row(None, [], "page", false, false, None, 0, 0, 0)

  /** Ledger rows by document, and grants by document and user. */
  datatype Db = Db(rows: map<Id, Row>, grants: map<(Id, Id), string>)

  /** The workspace whose ledger this is; its members do not change here. */
  datatype Workspace = Workspace(id: Id, admins: set<Id>, members: map<Id, string>)

  // ------------------------------------------------------------------------ lists

  /** What a list shows of a document. */
  datatype Entry = Entry(title: Option<string>, tagIds: seq<string>, mode: string, trash: bool)

  function EntryOf(row: Row): Entry {
    Entry(row.title, row.tagIds, row.mode, row.trash)
  }

  function Defaults(rows: map<Id, Row>): map<Id, Option<string>> {
    map d | d in rows :: rows[d].defaultRole
  }

  function Entries(rows: map<Id, Row>): map<Id, Entry> {
    map d | d in rows :: EntryOf(rows[d])
  }

  /** The same values under keys that name the workspace as well. */
  function Keyed<T>(id: Id, m: map<Id, T>): (r: map<(Id, Id), T>)
    ensures IsKeyed(id, m, r)
  {
    map k | k in (set x | x in m :: (id, x)) :: m[k.1]
  }

  function KeyedGrants(id: Id, m: map<(Id, Id), string>): (r: map<(Id, Id, Id), string>)
    ensures AreKeyed(id, m, r)
  {
    map k | k in (set x | x in m :: (id, x.0, x.1)) :: m[(k.1, k.2)]
  }

  /** The permission rows as the authorization policy reads them. */
  function DirectoryOf(w: Workspace, grants: map<(Id, Id), string>, defaults: map<Id, Option<string>>): Directory {
    Directory(w.admins,
              Keyed(w.id, w.members),
              KeyedGrants(w.id, grants),
              Keyed(w.id, defaults))
  }

  /** The directory says what the rows say, about this workspace and no other. */
  lemma DirectoryRowsAre(w: Workspace, grants: map<(Id, Id), string>, defaults: map<Id, Option<string>>)
    ensures var dir := DirectoryOf(w, grants, defaults);
            && dir.admins == w.admins
            && IsKeyed(w.id, w.members, dir.members)
            && IsKeyed(w.id, defaults, dir.docs)
            && AreKeyed(w.id, grants, dir.grants)
  {
  }

  ghost predicate AreKeyed(id: Id, m: map<(Id, Id), string>, r: map<(Id, Id, Id), string>) {
    (forall k :: k in r <==> k.0 == id && (k.1, k.2) in m) && forall k <- r :: r[k] == m[(k.1, k.2)]
  }

  ghost predicate IsKeyed<T>(id: Id, m: map<Id, T>, r: map<(Id, Id), T>) {
    (forall k :: k in r <==> k.0 == id && k.1 in m) && forall k <- r :: r[k] == m[k.1]
  }

  /** A current list shows of every document what its row says. */
  lemma CurrentListShows(policy: Policy, db: Db, user: Id, doc: Id)
    requires doc in CurrentList(policy, db, user)
    ensures doc in db.rows
            && var row := db.rows[doc];
               CurrentList(policy, db, user)[doc] == Entry(row.title, row.tagIds, row.mode, row.trash)
  {
  }

  /** Who may see what, decided from the grants and default roles read. */
  type Policy = (map<(Id, Id), string>, map<Id, Option<string>>, Id, Id) -> bool

  /** The policy of the workspace: the batched decision of the permission service. */
  function PolicyOf(w: Workspace): Policy {
    (grants, defaults, doc, user) => BatchKeeps(DirectoryOf(w, grants, defaults), w.id, doc, user)
  }

  /** The list built from entries, grants and default roles, which may stem from different instants. */
  function ListOf(policy: Policy, user: Id, entries: map<Id, Entry>, grants: map<(Id, Id), string>,
                  defaults: map<Id, Option<string>>): map<Id, Entry> {
    map d | d in entries && policy(grants, defaults, d, user) :: entries[d]
  }

  /** The list the user should see now. */
  function CurrentList(policy: Policy, db: Db, user: Id): map<Id, Entry> {
    ListOf(policy, user, Entries(db.rows), db.grants, Defaults(db.rows))
  }

  /** The current list holds exactly the documents the policy lets the user read. */
  lemma CurrentListIsReadable(w: Workspace, db: Db, user: Id, doc: Id)
    requires !BatchDiffers(DirectoryOf(w, db.grants, Defaults(db.rows)), w.id, doc, user)
    ensures doc in CurrentList(PolicyOf(w), db, user)
            <==> doc in db.rows && CanRead(DirectoryOf(w, db.grants, Defaults(db.rows)), w.id, doc, user)
  {
    BatchAgreesIff(DirectoryOf(w, db.grants, Defaults(db.rows)), w.id, doc, user);
  }

  ghost predicate LocalAt(policy: Policy, grants: map<(Id, Id), string>, defaults: map<Id, Option<string>>,
                          doc: Id, role: Option<string>, other: Id, user: Id) {
    doc !in defaults && other != doc ==>
      policy(grants, defaults[doc := role], other, user) == policy(grants, defaults, other, user)
  }

  /** A new row's default role has no say about any other document. */
  ghost predicate Local(policy: Policy) {
    forall grants, defaults, doc, role, other, user :: LocalAt(policy, grants, defaults, doc, role, other, user)
  }

  lemma PolicyIsLocal(w: Workspace)
    ensures Local(PolicyOf(w))
  {
    forall grants, defaults, doc, role, other, user
      ensures LocalAt(PolicyOf(w), grants, defaults, doc, role, other, user)
    {
      PolicyIsLocalAt(w, grants, defaults, doc, role, other, user);
    }
  }

  lemma PolicyIsLocalAt(w: Workspace, grants: map<(Id, Id), string>, defaults: map<Id, Option<string>>,
                        doc: Id, role: Option<string>, other: Id, user: Id)
    ensures LocalAt(PolicyOf(w), grants, defaults, doc, role, other, user)
  {
    if other != doc {
      var a, b := DirectoryOf(w, grants, defaults), DirectoryOf(w, grants, defaults[doc := role]);
      DefaultOf(w, grants, defaults, other);
      DefaultOf(w, grants, defaults[doc := role], other);
      KeepsDependsOn(a, b, w.id, other, user);
    }
  }

  lemma DefaultOf(w: Workspace, grants: map<(Id, Id), string>, defaults: map<Id, Option<string>>, doc: Id)
    ensures DefaultRole(DirectoryOf(w, grants, defaults), w.id, doc) == if doc in defaults then defaults[doc] else None
  {
  }

  lemma KeepsDependsOn(a: Directory, b: Directory, workspace: Id, doc: Id, user: Id)
    requires a.admins == b.admins && a.members == b.members && a.grants == b.grants
    requires DefaultRole(a, workspace, doc) == DefaultRole(b, workspace, doc)
    ensures BatchKeeps(a, workspace, doc, user) == BatchKeeps(b, workspace, doc, user)
  {
  }

  /** A list changes by an insert exactly when it shows the new row. */
  lemma InsertChangesListIff(policy: Policy, db: Db, doc: Id, row: Row, user: Id)
    requires Local(policy) && doc !in db.rows
    ensures CurrentList(policy, db, user) == CurrentList(policy, Put(db, doc, row), user)
            <==> doc !in CurrentList(policy, Put(db, doc, row), user)
  {
    var db' := Put(db, doc, row);
    assert Entries(db'.rows) == Entries(db.rows)[doc := EntryOf(row)];
    assert Defaults(db'.rows) == Defaults(db.rows)[doc := row.defaultRole];
    var before, after := CurrentList(policy, db, user), CurrentList(policy, db', user);
    assert doc !in before;
    assert forall d | d in before || d in after ::
        LocalAt(policy, db.grants, Defaults(db.rows), doc, row.defaultRole, d, user);
    if doc !in after {
      assert before == after;
    }
  }

  /** A list changes by a new title exactly when it shows the document. */
  lemma TitleChangesListIff(policy: Policy, db: Db, doc: Id, title: string, user: Id)
    requires doc in db.rows && db.rows[doc].title != Some(title)
    ensures CurrentList(policy, db, user) == CurrentList(policy, Put(db, doc, db.rows[doc].(title := Some(title))), user)
            <==> doc !in CurrentList(policy, db, user)
  {
    var db' := Put(db, doc, db.rows[doc].(title := Some(title)));
    assert Defaults(db'.rows) == Defaults(db.rows);
    assert Entries(db'.rows) == Entries(db.rows)[doc := EntryOf(db'.rows[doc])];
    var before, after := CurrentList(policy, db, user), CurrentList(policy, db', user);
    if doc in before {
      assert before[doc].title != after[doc].title;
    } else {
      assert before == after;
    }
  }

  // ---------------------------------------------------------------------- writers

  /** The single database operation of each writer. A CAS names the revision it read. */
  datatype Write =
    | CasTitle(doc: Id, base: nat, title: string)
    | CasTrash(doc: Id, base: nat, trash: bool)
    | CasTags(doc: Id, base: nat, next: seq<string>, same: bool)
    | Create(doc: Id, title: string, mode: string, before: bool)
    | Delete(doc: Id)
    | UpsertMeta(doc: Id, newTitle: Option<string>, newMode: Option<string>)
    | Publish(doc: Id, newMode: Option<string>)
    | RevokePublic(doc: Id)
    | GrantRole(doc: Id, user: Id, role: string)
    | RevokeRole(doc: Id, user: Id)
    | SetDefaultRole(doc: Id, role: string)
    | BodySaved(doc: Id)

  /** The rows afterwards, and whether the writer goes on to bump the revision. */
  datatype Written = Written(db: Db, bumps: bool)

  function RowOr(db: Db, doc: Id): Row {
    if doc in db.rows then db.rows[doc] else BLANK
  }

  function Put(db: Db, doc: Id, row: Row): Db {
    db.(rows := db.rows[doc := row])
  }

  function Or<T>(value: Option<T>, default: T): T {
    if value.Some? then value.value else default
  }

  function Execute(db: Db, write: Write): Written {
    var d := write.doc;
    var row := RowOr(db, d);
    match write
    case CasTitle(_, base, title) =>
      if d in db.rows && row.titleRevision == base
      then Written(Put(db, d, row.(title := Some(title), titleRevision := base + 1)), true)
      else Written(db, false)
    case CasTrash(_, base, trash) =>
      if d in db.rows && row.trashRevision == base
      then Written(Put(db, d, row.(trash := trash, trashRevision := base + 1)), true)
      else Written(db, false)
    case CasTags(_, base, next, same) =>
      if d in db.rows && row.tagsRevision == base
      then Written(Put(db, d, row.(tagIds := if same then row.tagIds else next, tagsRevision := base + 1)), !same)
      else Written(db, false)
    case Create(_, title, mode, before) =>
      Written(if d in db.rows then db
              else Put(db, d, BLANK.(title := Some(title), mode := mode, titleRevision := 1, trashRevision := 1, tagsRevision := 1)),
              !before)
    case Delete(_) =>
      Written(Db(db.rows - {d}, map k | k in db.grants && k.0 != d :: db.grants[k]), d in db.rows)
    case UpsertMeta(_, title, mode) =>
      Written(Put(db, d, row.(title := if title.Some? then title else row.title, mode := Or(mode, row.mode))), true)
    case Publish(_, mode) =>
      var given := mode.Some? && mode.value != "";
      Written(Put(db, d, row.(isPublic := true, mode := if given then mode.value else row.mode)), true)
    case RevokePublic(_) =>
      if d in db.rows then Written(Put(db, d, row.(isPublic := false)), true) else Written(db, false)
    case GrantRole(_, user, role) =>
      if d in db.rows then Written(db.(grants := db.grants[(d, user) := role]), true) else Written(db, false)
    case RevokeRole(_, user) => Written(db.(grants := db.grants - {(d, user)}), true)
    case SetDefaultRole(_, role) => Written(Put(db, d, row.(defaultRole := Some(role))), true)
    case BodySaved(_) => Written(db, false)
  }

  // ----------------------------------------------------------- what the writers do

  predicate SameAt<K, V(==)>(a: map<K, V>, b: map<K, V>, k: K) {
    (k in a <==> k in b) && (k in a ==> a[k] == b[k])
  }

  /** Everywhere but at this key both hold the same. */
  ghost predicate SameElsewhere<K(!new), V>(a: map<K, V>, b: map<K, V>, key: K) {
    forall k | k != key :: SameAt(a, b, k)
  }

  /** A CAS that meets its revision stores the value at the next revision, and one that does not changes nothing. */
  lemma CasMeans(db: Db, doc: Id, base: nat, title: string, trash: bool, next: seq<string>, same: bool)
    ensures var w := Execute(db, CasTitle(doc, base, title));
            if doc in db.rows && db.rows[doc].titleRevision == base
            then var r := db.rows[doc];
                 && w.bumps && w.db.grants == db.grants && SameElsewhere(db.rows, w.db.rows, doc) && doc in w.db.rows
                 && w.db.rows[doc] == Row(Some(title), r.tagIds, r.mode, r.trash, r.isPublic, r.defaultRole,
                                          base + 1, r.trashRevision, r.tagsRevision)
            else w == Written(db, false)
    ensures var w := Execute(db, CasTrash(doc, base, trash));
            if doc in db.rows && db.rows[doc].trashRevision == base
            then var r := db.rows[doc];
                 && w.bumps && w.db.grants == db.grants && SameElsewhere(db.rows, w.db.rows, doc) && doc in w.db.rows
                 && w.db.rows[doc] == Row(r.title, r.tagIds, r.mode, trash, r.isPublic, r.defaultRole,
                                          r.titleRevision, base + 1, r.tagsRevision)
            else w == Written(db, false)
    ensures var w := Execute(db, CasTags(doc, base, next, same));
            if doc in db.rows && db.rows[doc].tagsRevision == base
            then var r := db.rows[doc];
                 && w.bumps == !same && w.db.grants == db.grants && SameElsewhere(db.rows, w.db.rows, doc) && doc in w.db.rows
                 && w.db.rows[doc] == Row(r.title, if same then r.tagIds else next, r.mode, r.trash, r.isPublic,
                                          r.defaultRole, r.titleRevision, r.trashRevision, base + 1)
            else w == Written(db, false)
  {
  }

  /** A new row has the title and the mode given, first revisions, and nothing else; a row that is there stays. */
  lemma CreateMeans(db: Db, doc: Id, title: string, mode: string, before: bool)
    ensures var w := Execute(db, Create(doc, title, mode, before));
            && w.bumps == !before && w.db.grants == db.grants
            && SameElsewhere(db.rows, w.db.rows, doc) && doc in w.db.rows
            && w.db.rows[doc] == if doc in db.rows then db.rows[doc]
                                 else Row(Some(title), [], mode, false, false, None, 1, 1, 1)
  {
  }

  /** A delete takes the row and just its grants, and tells whether there was a row. */
  lemma DeleteMeans(db: Db, doc: Id, other: Id, user: Id)
    ensures var w := Execute(db, Delete(doc));
            && w.bumps == (doc in db.rows)
            && doc !in w.db.rows && SameElsewhere(db.rows, w.db.rows, doc)
            && (doc, user) !in w.db.grants
            && (other != doc ==> SameAt(db.grants, w.db.grants, (other, user)))
  {
  }

  /** A new title or mode is the one given, and what is not given stays; so does everything else. */
  lemma UpsertMetaMeans(db: Db, doc: Id, title: Option<string>, mode: Option<string>)
    ensures var w := Execute(db, UpsertMeta(doc, title, mode));
            && w.bumps && w.db.grants == db.grants && SameElsewhere(db.rows, w.db.rows, doc) && doc in w.db.rows
            && var row := w.db.rows[doc];
               && (title.Some? ==> row.title == title) && (mode.Some? ==> row.mode == mode.value)
               && if doc in db.rows
                  then var r := db.rows[doc];
                       && (title.None? ==> row.title == r.title) && (mode.None? ==> row.mode == r.mode)
                       && row == Row(row.title, r.tagIds, row.mode, r.trash, r.isPublic, r.defaultRole,
                                     r.titleRevision, r.trashRevision, r.tagsRevision)
                  else && (title.None? ==> row.title == None) && (mode.None? ==> row.mode == "page")
                       && row == Row(row.title, [], row.mode, false, false, None, 0, 0, 0)
  {
  }

  /** Publishing opens the document, with the mode given unless it is empty; revoking closes it when there is a row. */
  lemma PublicMeans(db: Db, doc: Id, mode: Option<string>)
    ensures var w := Execute(db, Publish(doc, mode));
            && w.bumps && w.db.grants == db.grants && SameElsewhere(db.rows, w.db.rows, doc) && doc in w.db.rows
            && var row := w.db.rows[doc];
               && row.isPublic && (mode !in {None, Some("")} ==> Some(row.mode) == mode)
               && if doc in db.rows
                  then var r := db.rows[doc];
                       && (mode in {None, Some("")} ==> row.mode == r.mode)
                       && row == Row(r.title, r.tagIds, row.mode, r.trash, true, r.defaultRole,
                                     r.titleRevision, r.trashRevision, r.tagsRevision)
                  else && (mode in {None, Some("")} ==> row.mode == "page")
                       && row == Row(None, [], row.mode, false, true, None, 0, 0, 0)
    ensures var w := Execute(db, RevokePublic(doc));
            if doc in db.rows
            then var r := db.rows[doc];
                 && w.bumps && w.db.grants == db.grants && SameElsewhere(db.rows, w.db.rows, doc) && doc in w.db.rows
                 && w.db.rows[doc] == Row(r.title, r.tagIds, r.mode, r.trash, false, r.defaultRole,
                                          r.titleRevision, r.trashRevision, r.tagsRevision)
            else w == Written(db, false)
  {
  }

  /** A grant stores exactly the role at that document and user; without a row nothing happens. */
  lemma GrantMeans(db: Db, doc: Id, user: Id, role: string)
    ensures var w := Execute(db, GrantRole(doc, user, role));
            if doc in db.rows
            then && w.bumps && w.db.rows == db.rows && SameElsewhere(db.grants, w.db.grants, (doc, user))
                 && (doc, user) in w.db.grants && w.db.grants[(doc, user)] == role
            else w == Written(db, false)
  {
  }

  /** After a revoke there is no grant at that document and user; all others and the rows are as they were. */
  lemma RevokeMeans(db: Db, doc: Id, user: Id)
    ensures var w := Execute(db, RevokeRole(doc, user));
            && w.bumps && (doc, user) !in w.db.grants
            && SameElsewhere(db.grants, w.db.grants, (doc, user)) && w.db.rows == db.rows
  {
  }

  /** The default role is the one given, on a blank row if there was none; a saved body leaves the ledger alone. */
  lemma DefaultRoleMeans(db: Db, doc: Id, role: string)
    ensures var w := Execute(db, SetDefaultRole(doc, role));
            && w.bumps && w.db.grants == db.grants && SameElsewhere(db.rows, w.db.rows, doc) && doc in w.db.rows
            && w.db.rows[doc] == if doc in db.rows
                                 then var r := db.rows[doc];
                                      Row(r.title, r.tagIds, r.mode, r.trash, r.isPublic, Some(role),
                                          r.titleRevision, r.trashRevision, r.tagsRevision)
                                 else Row(None, [], "page", false, false, Some(role), 0, 0, 0)
    ensures Execute(db, BodySaved(doc)) == Written(db, false)
  {
  }

  /** The part of the rows that lists depend on. */
  predicate SameSurface(a: Db, b: Db) {
    Entries(a.rows) == Entries(b.rows) && Defaults(a.rows) == Defaults(b.rows) && a.grants == b.grants
  }

  /** A grant hangs on a ledger row (a foreign key deletes it with the row). */
  predicate GrantsHaveRows(db: Db) {
    forall k <- db.grants :: k.0 in db.rows
  }

  lemma ExecuteKeepsGrants(db: Db, write: Write)
    requires GrantsHaveRows(db)
    ensures GrantsHaveRows(Execute(db, write).db)
  {
  }

  /**
   * A writer changes what lists show without bumping exactly when it inserts a row
   * although its earlier read had seen one.
   */
  lemma UnannouncedIff(db: Db, write: Write)
    requires GrantsHaveRows(db)
    ensures !Execute(db, write).bumps && !SameSurface(db, Execute(db, write).db)
            <==> write.Create? && write.before && write.doc !in db.rows
  {
    var after := Execute(db, write).db;
    if write.Create? && write.doc !in db.rows {
      assert write.doc in Entries(after.rows);
    } else if !Execute(db, write).bumps {
      assert forall d <- db.rows :: d in after.rows && EntryOf(after.rows[d]) == EntryOf(db.rows[d]);
      assert after.rows.Keys == db.rows.Keys;
      assert Entries(after.rows) == Entries(db.rows);
      assert Defaults(after.rows) == Defaults(db.rows);
      assert after.grants == db.grants;
    }
  }
}
