/** Document roles, what each may do, and how stored role strings are read. */
module DocRole {
  import opened Common
  import opened Text

  datatype Role = Owner | Manager | Editor | Commenter | Reader | External | NoAccess

  datatype Action =
    | DocRead | DocUpdate | DocDelete | DocTrash | DocRestore | DocCopy | DocDuplicate | DocPublish
    | DocTransferOwner | PropertiesRead | PropertiesUpdate | UsersRead | UsersManage
    | CommentsCreate | CommentsRead | CommentsDelete | CommentsResolve

  const DOC_ROLES: seq<Role> := [Owner, Manager, Editor, Commenter, Reader, External, NoAccess]

  function Name(role: Role): string {
    match role
    case Owner => "Owner"
    case Manager => "Manager"
    case Editor => "Editor"
    case Commenter => "Commenter"
    case Reader => "Reader"
    case External => "External"
    case NoAccess => "None"
  }

  function Matrix(role: Role): set<Action> {
    match role
    case Owner =>
      {DocRead, DocUpdate, DocDelete, DocTrash, DocRestore, DocCopy, DocDuplicate, DocPublish,
       DocTransferOwner, PropertiesRead, PropertiesUpdate, UsersRead, UsersManage,
       CommentsCreate, CommentsRead, CommentsDelete, CommentsResolve}
    case Manager =>
      {DocRead, DocUpdate, DocTrash, DocRestore, DocCopy, DocDuplicate, DocPublish,
       PropertiesRead, PropertiesUpdate, UsersRead, UsersManage,
       CommentsCreate, CommentsRead, CommentsDelete, CommentsResolve}
    case Editor =>
      {DocRead, DocUpdate, DocTrash, DocRestore, DocCopy, DocDuplicate,
       PropertiesRead, PropertiesUpdate, CommentsCreate, CommentsRead, CommentsResolve}
    case Commenter => {DocRead, DocCopy, PropertiesRead, CommentsCreate, CommentsRead, CommentsResolve}
    case Reader => {DocRead, DocCopy, PropertiesRead, CommentsRead}
    case External => {DocRead}
    case NoAccess => {}
  }

  predicate RoleCan(role: Role, action: Action) {
    action in Matrix(role)
  }

  /** The first of `roles` whose name matches in any letter case. */
  function FindRole(roles: seq<Role>, lowered: string): Option<Role> {
    if roles == [] then None
    else if Lower(Name(roles[0])) == lowered then Some(roles[0])
    else FindRole(roles[1..], lowered)
  }

  /** Unknown and empty values fall on the safe side. */
  function ToDocRole(value: Option<string>): Role {
    if value.None? || value.value == "" then NoAccess
    else
      var found := FindRole(DOC_ROLES, Lower(value.value));
      if found.Some? then found.value else NoAccess
  }

  /** Members never get in through the role of the public link. */
  function ToMemberDocRole(value: Option<string>): Role {
    var role := ToDocRole(value);
    if role == External then NoAccess else role
  }

  function FromWorkspaceRole(value: Option<string>): Option<Role> {
    var lowered := if value.Some? then Lower(value.value) else "";
    if lowered == "owner" || lowered == "admin" then Some(Owner)
    else if lowered == "member" then Some(Editor)
    else if lowered == "reader" then Some(Reader)
    else None
  }

  function ReadableNames(roles: seq<Role>): seq<string> {
    if roles == [] then []
    else if roles[0] != External && RoleCan(roles[0], DocRead) then [Lower(Name(roles[0]))] + ReadableNames(roles[1..])
    else ReadableNames(roles[1..])
  }

  /** The lower-case role names that let a member read, as the search query gets them. */
  const MEMBER_READABLE_ROLE_NAMES: seq<string> := ReadableNames(DOC_ROLES)

  function Rank(role: Role): nat {
    match role
    case Owner => 60
    case Manager => 50
    case Editor => 40
    case Commenter => 30
    case Reader => 20
    case External => 10
    case NoAccess => 0
  }

  predicate CanGrant(actor: Role, target: Role) {
    target != External && Rank(target) <= Rank(actor)
  }

  lemma LoweredNames()
    ensures Lower(Name(Owner)) == "owner"
    ensures Lower(Name(Manager)) == "manager"
    ensures Lower(Name(Editor)) == "editor"
    ensures Lower(Name(Commenter)) == "commenter"
    ensures Lower(Name(Reader)) == "reader"
    ensures Lower(Name(External)) == "external"
    ensures Lower(Name(NoAccess)) == "none"
  {
  }

  lemma ReadableNamesAre()
    ensures MEMBER_READABLE_ROLE_NAMES == ["owner", "manager", "editor", "commenter", "reader"]
  {
    LoweredNames();
    assert DOC_ROLES[1..] == [Manager, Editor, Commenter, Reader, External, NoAccess];
    assert DOC_ROLES[1..][1..] == [Editor, Commenter, Reader, External, NoAccess];
    assert [Editor, Commenter, Reader, External, NoAccess][1..] == [Commenter, Reader, External, NoAccess];
    assert [Commenter, Reader, External, NoAccess][1..] == [Reader, External, NoAccess];
    assert [Reader, External, NoAccess][1..] == [External, NoAccess];
    assert [External, NoAccess][1..] == [NoAccess];
    assert ReadableNames([External, NoAccess]) == [];
    assert ReadableNames([Reader, External, NoAccess]) == ["reader"];
    assert ReadableNames([Commenter, Reader, External, NoAccess]) == ["commenter", "reader"];
    assert ReadableNames([Editor, Commenter, Reader, External, NoAccess]) == ["editor", "commenter", "reader"];
  }

  lemma {:induction false} FindRoleFinds(roles: seq<Role>, lowered: string)
    ensures match FindRole(roles, lowered)
            case Some(r) => r in roles && Lower(Name(r)) == lowered
            case None => forall r <- roles :: Lower(Name(r)) != lowered
  {
    if roles != [] {
      FindRoleFinds(roles[1..], lowered);
      assert forall r <- roles :: r == roles[0] || r in roles[1..];
    }
  }

  lemma EveryRoleListed()
    ensures forall r: Role :: r in DOC_ROLES
  {
    forall r: Role
      ensures r in DOC_ROLES
    {
      var i := if r.Owner? then 0 else if r.Manager? then 1 else if r.Editor? then 2 else if r.Commenter? then 3
               else if r.Reader? then 4 else if r.External? then 5 else 6;
      assert DOC_ROLES[i] == r;
    }
  }

  /** The role a stored string stands for: the one of that name in any letter case, and else none. */
  lemma StoredRoleIs(value: Option<string>, role: Role)
    requires role != NoAccess
    ensures ToDocRole(value) == role <==> value.Some? && Lower(value.value) == Lower(Name(role))
    ensures ToMemberDocRole(value) == role
            <==> role != External && value.Some? && Lower(value.value) == Lower(Name(role))
  {
    LoweredNames();
    EveryRoleListed();
    if value.Some? {
      FindRoleFinds(DOC_ROLES, Lower(value.value));
      assert value.value == "" ==> |Lower(value.value)| == 0;
    }
  }

  /** Whether a stored string lets a member do something: some role but External has that name and may do it. */
  ghost predicate StoredCan(value: string, action: Action) {
    exists role: Role :: role != External && Lower(Name(role)) == Lower(value) && RoleCan(role, action)
  }

  lemma StoredCanIff(value: string, action: Action)
    ensures RoleCan(ToMemberDocRole(Some(value)), action) <==> StoredCan(value, action)
  {
    var found := ToMemberDocRole(Some(value));
    if found != NoAccess {
      StoredRoleIs(Some(value), found);
    }
    forall role: Role | role != External && Lower(Name(role)) == Lower(value) && RoleCan(role, action)
      ensures found == role
    {
      StoredRoleIs(Some(value), role);
    }
  }

  /** The roles a workspace knows, in any letter case; every other string is no role. */
  lemma WorkspaceRoleIs(value: string)
    ensures Lower(value) in {"owner", "admin"} <==> FromWorkspaceRole(Some(value)) == Some(Owner)
    ensures Lower(value) == "member" <==> FromWorkspaceRole(Some(value)) == Some(Editor)
    ensures Lower(value) == "reader" <==> FromWorkspaceRole(Some(value)) == Some(Reader)
    ensures Lower(value) !in {"owner", "admin", "member", "reader"} <==> FromWorkspaceRole(Some(value)) == None
    ensures FromWorkspaceRole(None) == None
  {
  }

  /** The least role that may do it. */
  function Least(action: Action): Role {
    match action
    case DocRead => External
    case DocCopy | PropertiesRead | CommentsRead => Reader
    case CommentsCreate | CommentsResolve => Commenter
    case DocUpdate | DocTrash | DocRestore | DocDuplicate | PropertiesUpdate => Editor
    case DocPublish | UsersRead | UsersManage | CommentsDelete => Manager
    case DocDelete | DocTransferOwner => Owner
  }

  /** The matrix is a ladder: a role may do what its rank reaches, nothing else. */
  lemma MatrixIsLadder(role: Role, action: Action)
    ensures RoleCan(role, action) <==> Rank(role) >= Rank(Least(action))
  {
  }

  /** The list of names and the role matrix say the same about every stored string. */
  lemma NamesAgreeWithMatrix(value: string)
    ensures Lower(value) in MEMBER_READABLE_ROLE_NAMES <==> RoleCan(ToMemberDocRole(Some(value)), DocRead)
  {
    ReadableNamesAre();
    LoweredNames();
    FindRoleFinds(DOC_ROLES, Lower(value));
    EveryRoleListed();
    if value == "" {
      assert |Lower(value)| == 0;
    }
  }

  /** Nobody can hand out an action they do not have, and nobody can hand out External. */
  lemma NoEscalation(actor: Role, target: Role)
    ensures CanGrant(actor, target) ==> Matrix(target) <= Matrix(actor)
    ensures target != External && actor != External ==> (CanGrant(actor, target) <==> Matrix(target) <= Matrix(actor))
  {
    assert DocRead in Matrix(External);
    assert UsersManage in Matrix(Manager) && UsersManage !in Matrix(Editor);
    assert DocDelete in Matrix(Owner) && DocUpdate in Matrix(Editor) && CommentsCreate in Matrix(Commenter);
  }
}
