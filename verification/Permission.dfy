/**
 * The authorization policy: the decision for one document, the batched filter for
 * lists, and where the two part.
 */
module Permission {
  import opened Common
  import opened Text
  import opened DocRole

  type Id = string

  /** The rows the policy reads. `docs` holds the default role of every ledger row. */
  datatype Directory = Directory(
    admins: set<Id>,
    members: map<(Id, Id), string>,
    grants: map<(Id, Id, Id), string>,
    docs: map<(Id, Id), Option<string>>)

  const MANUAL_WORKSPACE_ID_PREFIX := "ffffffff-ffff-4fff-bfff-"

  predicate IsManualWorkspace(workspace: Id) {
    MANUAL_WORKSPACE_ID_PREFIX <= workspace
  }

  function WorkspaceRole(db: Directory, workspace: Id, user: Id): Option<Role> {
    FromWorkspaceRole(if (workspace, user) in db.members then Some(db.members[(workspace, user)]) else None)
  }

  function Grant(db: Directory, workspace: Id, doc: Id, user: Id): Option<string> {
    if (workspace, doc, user) in db.grants then Some(db.grants[(workspace, doc, user)]) else None
  }

  function DefaultRole(db: Directory, workspace: Id, doc: Id): Option<string> {
    if (workspace, doc) in db.docs then db.docs[(workspace, doc)] else None
  }

  predicate Truthy(value: Option<string>) {
    value.Some? && value.value != ""
  }

  /** The effective role: who has access at all, then the document's own settings. */
  function GetDocRole(db: Directory, workspace: Id, doc: Id, user: Id): Option<Role> {
    var workspaceRole := WorkspaceRole(db, workspace, user);
    if IsManualWorkspace(workspace) then
      if user in db.admins || workspaceRole.Some? then Some(Reader) else None
    else if user in db.admins then Some(Owner)
    else if workspaceRole.None? || workspaceRole.value == Owner then workspaceRole
    else
      var grant := Grant(db, workspace, doc, user);
      var default := DefaultRole(db, workspace, doc);
      if grant.Some? then Some(ToMemberDocRole(grant))
      else if Truthy(default) then Some(ToMemberDocRole(default))
      else workspaceRole
  }

  predicate Can(db: Directory, workspace: Id, doc: Id, user: Id, action: Action) {
    var role := GetDocRole(db, workspace, doc, user);
    role.Some? && RoleCan(role.value, action)
  }

  predicate CanRead(db: Directory, workspace: Id, doc: Id, user: Id) {
    Can(db, workspace, doc, user, DocRead)
  }

  function Filter(docs: seq<Id>, keep: Id -> bool): seq<Id> {
    if docs == [] then []
    else if keep(docs[0]) then [docs[0]] + Filter(docs[1..], keep)
    else Filter(docs[1..], keep)
  }

  function GrantsOf(db: Directory, workspace: Id, docs: set<Id>, user: Id): (r: map<Id, string>)
    ensures forall d <- docs :: (if d in r then Some(r[d]) else None) == Grant(db, workspace, d, user)
  {
    map d | d in docs && (workspace, d, user) in db.grants :: db.grants[(workspace, d, user)]
  }

  function DefaultsOf(db: Directory, workspace: Id, docs: set<Id>): (r: map<Id, Option<string>>)
    ensures forall d <- docs :: (if d in r then r[d] else None) == DefaultRole(db, workspace, d)
  {
    map d | d in docs && (workspace, d) in db.docs :: db.docs[(workspace, d)]
  }

  /** The batched decision: two queries for all documents, then one pass over the list. */
  function FilterReadable(db: Directory, workspace: Id, docs: seq<Id>, user: Id): seq<Id> {
    var workspaceRole := WorkspaceRole(db, workspace, user);
    if docs == [] then []
    else if user in db.admins then docs
    else if workspaceRole.None? then []
    else if workspaceRole.value == Owner then docs
    else
      var unique := set d | d in docs;
      var permOf := GrantsOf(db, workspace, unique, user);
      var defaultOf := DefaultsOf(db, workspace, unique);
      Filter(docs, d => BatchDecision(if d in permOf then Some(permOf[d]) else None,
                                      if d in defaultOf then defaultOf[d] else None,
                                      workspaceRole.value))
  }

  predicate BatchDecision(explicit: Option<string>, fallback: Option<string>, workspaceRole: Role) {
    var role := if Truthy(explicit) then ToMemberDocRole(explicit)
                else if Truthy(fallback) then ToMemberDocRole(fallback)
                else workspaceRole;
    RoleCan(role, DocRead)
  }

  /** A member whose access the documents' own settings decide. */
  predicate OrdinaryMember(db: Directory, workspace: Id, user: Id) {
    user !in db.admins && WorkspaceRole(db, workspace, user).Some? && WorkspaceRole(db, workspace, user).value != Owner
  }

  predicate Readable(value: Option<string>) {
    value.Some? && Lower(value.value) in MEMBER_READABLE_ROLE_NAMES
  }

  /**
   * Where the batched decision differs from the single one: an empty grant, which
   * denies alone and is skipped in the batch, and the manual, where settings count
   * in the batch only.
   */
  predicate BatchDiffers(db: Directory, workspace: Id, doc: Id, user: Id) {
    var grant, default := Grant(db, workspace, doc, user), DefaultRole(db, workspace, doc);
    OrdinaryMember(db, workspace, user) &&
    if IsManualWorkspace(workspace)
    then (Truthy(grant) && !Readable(grant)) || (!Truthy(grant) && Truthy(default) && !Readable(default))
    else grant == Some("") && (!Truthy(default) || Readable(default))
  }

  lemma {:induction false} FilterMeans(docs: seq<Id>, p: Id -> bool, q: Id -> bool)
    requires forall d <- docs :: p(d) == q(d)
    ensures Filter(docs, p) == Filter(docs, q)
  {
    if docs != [] {
      assert docs[0] in docs && forall d <- docs[1..] :: d in docs;
      FilterMeans(docs[1..], p, q);
    }
  }

  lemma {:induction false} FilterAll(docs: seq<Id>, p: Id -> bool)
    ensures (forall d <- docs :: p(d)) ==> Filter(docs, p) == docs
    ensures (forall d <- docs :: !p(d)) ==> Filter(docs, p) == []
  {
    if docs != [] {
      assert docs[0] in docs && forall d <- docs[1..] :: d in docs;
      FilterAll(docs[1..], p);
    }
  }

  /** Each document stays or goes by itself, in its place: the filter of a list is that of its parts, one after the other. */
  lemma {:induction false} FilterOfParts(a: seq<Id>, b: seq<Id>, doc: Id, keep: Id -> bool)
    ensures Filter(a + b, keep) == Filter(a, keep) + Filter(b, keep)
    ensures Filter([doc], keep) == if keep(doc) then [doc] else []
  {
    if a == [] {
      assert a + b == b;
    } else {
      assert (a + b)[1..] == a[1..] + b;
      FilterOfParts(a[1..], b, doc, keep);
    }
  }

  predicate BatchKeeps(db: Directory, workspace: Id, doc: Id, user: Id) {
    var role := WorkspaceRole(db, workspace, user);
    user in db.admins || (role.Some? && (role.value == Owner ||
      BatchDecision(Grant(db, workspace, doc, user), DefaultRole(db, workspace, doc), role.value)))
  }

  /** The batch decides document by document and keeps the order of its input. */
  lemma FilterReadableIsFilter(db: Directory, workspace: Id, docs: seq<Id>, user: Id)
    ensures FilterReadable(db, workspace, docs, user) == Filter(docs, d => BatchKeeps(db, workspace, d, user))
  {
    var role := WorkspaceRole(db, workspace, user);
    FilterAll(docs, d => BatchKeeps(db, workspace, d, user));
    if OrdinaryMember(db, workspace, user) && docs != [] {
      var unique := set d | d in docs;
      var permOf := GrantsOf(db, workspace, unique, user);
      var defaultOf := DefaultsOf(db, workspace, unique);
      FilterMeans(docs, d => BatchDecision(if d in permOf then Some(permOf[d]) else None,
                                           if d in defaultOf then defaultOf[d] else None,
                                           role.value),
                  d => BatchKeeps(db, workspace, d, user));
    }
  }

  /** A stored role lets a member read exactly when its name is on the list. */
  lemma StoredRoleReads(value: Option<string>)
    ensures RoleCan(ToMemberDocRole(value), DocRead) <==> Readable(value)
  {
    if value.Some? {
      NamesAgreeWithMatrix(value.value);
    }
  }

  /** For ordinary members: the grant, else the default role, else the workspace role, which reads. */
  lemma OrdinaryMemberReads(db: Directory, workspace: Id, doc: Id, user: Id)
    requires OrdinaryMember(db, workspace, user) && !IsManualWorkspace(workspace)
    ensures var grant, default := Grant(db, workspace, doc, user), DefaultRole(db, workspace, doc);
            CanRead(db, workspace, doc, user)
            <==> if grant.Some? then Readable(grant) else Truthy(default) ==> Readable(default)
  {
    StoredRoleReads(Grant(db, workspace, doc, user));
    StoredRoleReads(DefaultRole(db, workspace, doc));
  }

  lemma OrdinaryMemberKept(db: Directory, workspace: Id, doc: Id, user: Id)
    requires OrdinaryMember(db, workspace, user)
    ensures var grant, default := Grant(db, workspace, doc, user), DefaultRole(db, workspace, doc);
            BatchKeeps(db, workspace, doc, user)
            <==> if Truthy(grant) then Readable(grant) else Truthy(default) ==> Readable(default)
  {
    StoredRoleReads(Grant(db, workspace, doc, user));
    StoredRoleReads(DefaultRole(db, workspace, doc));
  }

  /** The batched and the single decision agree exactly outside `BatchDiffers`. */
  lemma BatchAgreesIff(db: Directory, workspace: Id, doc: Id, user: Id)
    ensures BatchKeeps(db, workspace, doc, user) == CanRead(db, workspace, doc, user)
            <==> !BatchDiffers(db, workspace, doc, user)
  {
    if OrdinaryMember(db, workspace, user) {
      OrdinaryMemberKept(db, workspace, doc, user);
      if IsManualWorkspace(workspace) {
        assert CanRead(db, workspace, doc, user);
      } else {
        OrdinaryMemberReads(db, workspace, doc, user);
        EmptyIsNotReadable();
      }
    }
  }

  lemma EmptyIsNotReadable()
    ensures !Readable(Some(""))
  {
    ReadableNamesAre();
    assert |Lower("")| == 0;
  }

  /** A member of a workspace with an empty grant on a document. */
  const EMPTY_GRANT := Directory({}, map[("w", "u") := "member"], map[("w", "d", "u") := ""], map[])

  /** The user "u" is a plain member of the workspace "w", which is not the manual. */
  lemma MemberRole(db: Directory)
    requires ("w", "u") in db.members && db.members[("w", "u")] == "member" && "u" !in db.admins
    ensures OrdinaryMember(db, "w", "u") && !IsManualWorkspace("w")
  {
    assert Lower("member") == "member";
  }

  /** The document is in the list and cannot be opened. */
  lemma BatchDiffersHappens()
    ensures BatchKeeps(EMPTY_GRANT, "w", "d", "u") && !CanRead(EMPTY_GRANT, "w", "d", "u")
  {
    MemberRole(EMPTY_GRANT);
    BatchAgreesIff(EMPTY_GRANT, "w", "d", "u");
    OrdinaryMemberReads(EMPTY_GRANT, "w", "d", "u");
    EmptyIsNotReadable();
  }

  /** `filterReadable` is the order-preserving filter by the single decision. */
  lemma FilterReadableIsCanRead(db: Directory, workspace: Id, docs: seq<Id>, user: Id)
    requires forall d <- docs :: !BatchDiffers(db, workspace, d, user)
    ensures FilterReadable(db, workspace, docs, user) == Filter(docs, d => CanRead(db, workspace, d, user))
  {
    FilterReadableIsFilter(db, workspace, docs, user);
    forall d | d in docs
      ensures BatchKeeps(db, workspace, d, user) == CanRead(db, workspace, d, user)
    {
      BatchAgreesIff(db, workspace, d, user);
    }
    FilterMeans(docs, d => BatchKeeps(db, workspace, d, user), d => CanRead(db, workspace, d, user));
  }

  /** The rows show the user as somebody of the workspace, in one of the roles named. */
  predicate MemberAs(db: Directory, workspace: Id, user: Id, roles: set<string>) {
    (workspace, user) in db.members && Lower(db.members[(workspace, user)]) in roles
  }

  lemma MemberAsMeans(db: Directory, workspace: Id, user: Id)
    ensures MemberAs(db, workspace, user, {"owner", "admin"}) <==> WorkspaceRole(db, workspace, user) == Some(Owner)
    ensures MemberAs(db, workspace, user, {"member"}) <==> WorkspaceRole(db, workspace, user) == Some(Editor)
    ensures MemberAs(db, workspace, user, {"reader"}) <==> WorkspaceRole(db, workspace, user) == Some(Reader)
    ensures MemberAs(db, workspace, user, {"owner", "admin", "member", "reader"})
            <==> WorkspaceRole(db, workspace, user) != None
  {
    if (workspace, user) in db.members {
      WorkspaceRoleIs(db.members[(workspace, user)]);
    }
  }

  /**
   * What an ordinary member may do: with a grant what the granted role can, else with a
   * default role what that role can, else what members or readers of the workspace can.
   */
  lemma OrdinaryMemberCan(db: Directory, workspace: Id, doc: Id, user: Id, action: Action)
    requires user !in db.admins && !IsManualWorkspace(workspace)
    requires MemberAs(db, workspace, user, {"member", "reader"})
    ensures Can(db, workspace, doc, user, action)
            <==> if (workspace, doc, user) in db.grants then StoredCan(db.grants[(workspace, doc, user)], action)
                 else if (workspace, doc) in db.docs && db.docs[(workspace, doc)] !in {None, Some("")}
                 then StoredCan(db.docs[(workspace, doc)].value, action)
                 else RoleCan(if MemberAs(db, workspace, user, {"member"}) then Editor else Reader, action)
  {
    MemberAsMeans(db, workspace, user);
    if (workspace, doc, user) in db.grants {
      StoredCanIff(db.grants[(workspace, doc, user)], action);
    }
    if (workspace, doc) in db.docs && db.docs[(workspace, doc)].Some? {
      StoredCanIff(db.docs[(workspace, doc)].value, action);
    }
  }

  /** Administrators and workspace owners may do everything, whatever the document's settings say. */
  lemma OwnersCan(db: Directory, workspace: Id, doc: Id, user: Id, action: Action)
    requires !IsManualWorkspace(workspace)
    requires user in db.admins || MemberAs(db, workspace, user, {"owner", "admin"})
    ensures Can(db, workspace, doc, user, action)
  {
    MemberAsMeans(db, workspace, user);
    MatrixIsLadder(Owner, action);
  }

  /** Whatever the document's settings say, who is not in the workspace cannot do anything. */
  lemma OutsidersCannot(db: Directory, workspace: Id, doc: Id, user: Id, action: Action)
    requires user !in db.admins && !MemberAs(db, workspace, user, {"owner", "admin", "member", "reader"})
    ensures !Can(db, workspace, doc, user, action) && !BatchKeeps(db, workspace, doc, user)
  {
    MemberAsMeans(db, workspace, user);
  }

  /** In the manual everybody of the workspace and every administrator may read, and nobody may do more. */
  lemma ManualIsReadOnly(db: Directory, workspace: Id, doc: Id, user: Id, action: Action)
    requires IsManualWorkspace(workspace)
    ensures Can(db, workspace, doc, user, action)
            <==> (user in db.admins || MemberAs(db, workspace, user, {"owner", "admin", "member", "reader"}))
                 && action in {DocRead, DocCopy, PropertiesRead, CommentsRead}
  {
    MemberAsMeans(db, workspace, user);
  }
}
