/**
 * The whole search: the compiled query joined with the permission filter selects
 * exactly the readable matches.
 */
module Search {
  import opened Common
  import opened Text
  import opened SqlCondition
  import opened DocRole
  import opened Permission
  import opened SearchQuery

  /** A fragment for the WHERE clause and the parameters it adds. */
  datatype DocFilter = DocFilter(sql: Clause, params: seq<Value>)

  const ALLOW_ALL := DocFilter([Atom(Constant(true))], [])
  const DENY_ALL := DocFilter([Atom(Constant(false))], [])

  function ReadableDocFilter(db: Directory, workspace: Id, user: Id, nextParamIndex: nat): DocFilter {
    var role := WorkspaceRole(db, workspace, user);
    if user in db.admins then ALLOW_ALL
    else if role.None? then DENY_ALL
    else if role.value == Owner then ALLOW_ALL
    else DocFilter(Parens([Atom(RoleCase(nextParamIndex, nextParamIndex + 1, nextParamIndex + 2))]),
                   [Names(MEMBER_READABLE_ROLE_NAMES), Flag(RoleCan(role.value, DocRead)), Text(user)])
  }

  /** `workspace_id = $1 AND (where) AND filter`. */
  function FullWhere(where: Clause, filter: Clause): Clause {
    [Atom(Equals("workspace_id", 1)), AndKw] + Parens(where) + [AndKw] + filter
  }

  /** The statement a search sends: the condition and the parameter list. */
  method BuildSearch(db: Directory, workspace: Id, q: Query, user: Id) returns (r: Option<(Clause, seq<Value>)>)
    ensures r.Some? <==> ValidQuery(q)
    ensures r.Some? ==> IsSearch(db, workspace, q, user, r.value.0, r.value.1)
  {
    CompilesIffValid(q, 1);
    var params := new Parameters(Text(workspace));
    var where := BuildWhereClause(q, params);
    if where.None? {
      return None;
    }
    assert Compile(q, 1) == Compiled(where.value, params.items[1..]);
    var perm := ReadableDocFilter(db, workspace, user, |params.items| + 1);
    IsSearchBy(db, workspace, q, user, where.value, params.items, perm);
    params.PushAll(perm.params);
    r := Some((FullWhere(where.value, perm.sql), params.items));
  }

  lemma IsSearchBy(db: Directory, workspace: Id, q: Query, user: Id, where: Clause, items: seq<Value>, perm: DocFilter)
    requires items != [] && items[0] == Text(workspace) && Compile(q, 1) == Compiled(where, items[1..])
    requires perm == ReadableDocFilter(db, workspace, user, |items| + 1)
    ensures IsSearch(db, workspace, q, user, FullWhere(where, perm.sql), items + perm.params)
  {
  }

  ghost predicate IsSearch(db: Directory, workspace: Id, q: Query, user: Id, condition: Clause, params: seq<Value>) {
    var c := Compile(q, 1);
    c.Compiled? &&
    var perm := ReadableDocFilter(db, workspace, user, |c.pushed| + 2);
    && condition == FullWhere(c.clause, perm.sql)
    && params == [Text(workspace)] + c.pushed + perm.params
  }

  /** The permission filter's decision about one document. */
  predicate SqlKeeps(db: Directory, workspace: Id, doc: Id, user: Id) {
    var role := WorkspaceRole(db, workspace, user);
    user in db.admins || (role.Some? && (role.value == Owner ||
      var grant, default := Grant(db, workspace, doc, user), DefaultRole(db, workspace, doc);
      if grant.Some? then Readable(grant) else if default.Some? then Readable(default) else RoleCan(role.value, DocRead)))
  }

  /**
   * Where the filter differs from the single decision: an empty default role, which
   * SQL does not take for missing, and the manual, where settings count in SQL only.
   */
  predicate SqlDiffers(db: Directory, workspace: Id, doc: Id, user: Id) {
    var grant, default := Grant(db, workspace, doc, user), DefaultRole(db, workspace, doc);
    OrdinaryMember(db, workspace, user) &&
    if IsManualWorkspace(workspace)
    then (grant.Some? && !Readable(grant)) || (grant.None? && default.Some? && !Readable(default))
    else grant.None? && default == Some("")
  }

  lemma SqlAgreesIff(db: Directory, workspace: Id, doc: Id, user: Id)
    ensures SqlKeeps(db, workspace, doc, user) == CanRead(db, workspace, doc, user)
            <==> !SqlDiffers(db, workspace, doc, user)
  {
    if OrdinaryMember(db, workspace, user) {
      if IsManualWorkspace(workspace) {
        assert CanRead(db, workspace, doc, user);
      } else {
        OrdinaryMemberReads(db, workspace, doc, user);
        EmptyIsNotReadable();
      }
    }
  }

  /** A member of a workspace, and a document whose default role is an empty string. */
  const EMPTY_DEFAULT := Directory({}, map[("w", "u") := "member"], map[], map[("w", "d") := Some("")])

  /** The document is readable by the single decision and missing from the search. */
  lemma SqlDiffersHappens()
    ensures CanRead(EMPTY_DEFAULT, "w", "d", "u") && !SqlKeeps(EMPTY_DEFAULT, "w", "d", "u")
  {
    MemberRole(EMPTY_DEFAULT);
    SqlAgreesIff(EMPTY_DEFAULT, "w", "d", "u");
    OrdinaryMemberReads(EMPTY_DEFAULT, "w", "d", "u");
  }

  lemma AndStep<A>(ts: seq<Token<A>>, env: A -> Truth, first: Truth, others: Truth, more: seq<Token<A>>, rest: seq<Token<A>>)
    requires EvalNot(ts, env) == Some((first, [AndKw] + more))
    requires EvalAnd(more, env) == Some((others, rest))
    ensures EvalAnd(ts, env) == Some((And(first, others), rest))
  {
  }

  /** What the filter's one comparison evaluates to. */
  ghost function FilterValue(db: Directory, workspace: Id, user: Id, next: nat, env: Test -> Truth): Truth {
    if OrdinaryMember(db, workspace, user) then env(RoleCase(next, next + 1, next + 2))
    else Of(user in db.admins || WorkspaceRole(db, workspace, user).Some?)
  }

  /** The filter is well formed for every row, also those of other workspaces. */
  lemma FilterEval(db: Directory, workspace: Id, user: Id, next: nat, params: seq<Value>, row: IndexRow, matches: Matcher)
    ensures var env := Env(params, row, db, matches);
            EvalAnd(ReadableDocFilter(db, workspace, user, next).sql, env)
            == Some((FilterValue(db, workspace, user, next, env), []))
  {
    var env := Env(params, row, db, matches);
    var sql := ReadableDocFilter(db, workspace, user, next).sql;
    if OrdinaryMember(db, workspace, user) {
      var test := RoleCase(next, next + 1, next + 2);
      AtomReads(test, env);
      ParensRead([Atom(test)], env, env(test), []);
      assert sql + [] == sql;
      NotAlone(sql, env, env(test), []);
    } else {
      assert sql[1..] == [];
      NotAlone(sql, env, env(sql[0].atom), []);
    }
  }

  /** With its parameters at the numbers it was given, the filter makes the decision. */
  lemma FilterDecides(db: Directory, workspace: Id, user: Id, next: nat, params: seq<Value>, row: IndexRow, matches: Matcher)
    requires row.workspace == workspace && next >= 1
    requires HoldsAt(params, next - 1, ReadableDocFilter(db, workspace, user, next).params)
    ensures FilterValue(db, workspace, user, next, Env(params, row, db, matches))
            == Of(SqlKeeps(db, workspace, row.doc, user))
  {
    if OrdinaryMember(db, workspace, user) {
      var f := ReadableDocFilter(db, workspace, user, next);
      RoleCaseValue(db, user, next, f.params[0].names, f.params[1].flag, params, row, matches);
    }
  }

  lemma RoleCaseValue(db: Directory, user: Id, next: nat, names: seq<string>, otherwise: bool,
                      params: seq<Value>, row: IndexRow, matches: Matcher)
    requires next >= 1 && HoldsAt(params, next - 1, [Names(names), Flag(otherwise), Text(user)])
    ensures var grant, default := Grant(db, row.workspace, row.doc, user), DefaultRole(db, row.workspace, row.doc);
            Test3(RoleCase(next, next + 1, next + 2), params, row, db, matches)
            == Of(if grant.Some? then Lower(grant.value) in names
                  else if default.Some? then Lower(default.value) in names
                  else otherwise)
  {
  }

  lemma FullWhereEval(where: Clause, filter: Clause, env: Test -> Truth, meaning: Truth, kept: Truth)
    requires Reads(where, env, meaning) && EvalAnd(filter, env) == Some((kept, []))
    ensures Eval(FullWhere(where, filter), env) == Some(And(env(Equals("workspace_id", 1)), And(meaning, kept)))
  {
    var tail := [AndKw] + filter;
    var middle := Parens(where) + tail;
    ParensRead(where, env, meaning, tail);
    AndStep(middle, env, meaning, kept, filter, []);
    var ts := [Atom(Equals("workspace_id", 1))] + ([AndKw] + middle);
    assert FullWhere(where, filter) == ts;
    assert ts[1..] == [AndKw] + middle;
    AndStep(ts, env, env(Equals("workspace_id", 1)), And(meaning, kept), middle, []);
  }

  /**
   * The search selects a row exactly when it is in the workspace, the query is true
   * of it, and the user may read its document.
   */
  lemma SearchSelectsReadableMatches(db: Directory, workspace: Id, q: Query, user: Id, condition: Clause,
                                     params: seq<Value>, row: IndexRow, matches: Matcher)
    requires ValidQuery(q) && IsSearch(db, workspace, q, user, condition, params)
    ensures Eval(condition, Env(params, row, db, matches)).Some?
    ensures Eval(condition, Env(params, row, db, matches)) == Some(True)
            <==> row.workspace == workspace && Meaning(q, row, matches) == True && SqlKeeps(db, workspace, row.doc, user)
    ensures !SqlDiffers(db, workspace, row.doc, user) ==>
              (Eval(condition, Env(params, row, db, matches)) == Some(True)
               <==> row.workspace == workspace && Meaning(q, row, matches) == True && CanRead(db, workspace, row.doc, user))
  {
    SearchEval(db, workspace, q, user, condition, params, row, matches);
    SqlAgreesIff(db, workspace, row.doc, user);
  }

  lemma SearchEval(db: Directory, workspace: Id, q: Query, user: Id, condition: Clause,
                   params: seq<Value>, row: IndexRow, matches: Matcher)
    requires ValidQuery(q) && IsSearch(db, workspace, q, user, condition, params)
    ensures Eval(condition, Env(params, row, db, matches)).Some?
    ensures Eval(condition, Env(params, row, db, matches)) == Some(True)
            <==> row.workspace == workspace && Meaning(q, row, matches) == True && SqlKeeps(db, workspace, row.doc, user)
  {
    var c := Compile(q, 1);
    var next := |c.pushed| + 2;
    var filter := ReadableDocFilter(db, workspace, user, next);
    var env := Env(params, row, db, matches);
    ParamsSplit(Text(workspace), c.pushed, filter.params, params);
    CompileKeepsMeaning(q, 1, params, row, db, matches);
    FilterEval(db, workspace, user, next, params, row, matches);
    FullWhereEval(c.clause, filter.sql, env, Meaning(q, row, matches), FilterValue(db, workspace, user, next, env));
    WorkspaceTest(workspace, params, row, db, matches);
    if row.workspace == workspace {
      FilterDecides(db, workspace, user, next, params, row, matches);
    }
  }

  lemma WorkspaceTest(workspace: Id, params: seq<Value>, row: IndexRow, db: Directory, matches: Matcher)
    requires params != [] && params[0] == Text(workspace)
    ensures Test3(Equals("workspace_id", 1), params, row, db, matches) == Of(row.workspace == workspace)
  {
  }

  lemma ParamsSplit(first: Value, a: seq<Value>, b: seq<Value>, params: seq<Value>)
    requires params == [first] + a + b
    ensures params[0] == first && HoldsAt(params, 1, a) && HoldsAt(params, 1 + |a|, b)
  {
  }

  // ------------------------------------------------------------- NULL and negation

  /** A row whose column is NULL is found neither by a match on it nor by its negation. */
  lemma NegationSkipsNullIff(m: Query, no: Query, row: IndexRow, matches: Matcher)
    requires m.kind == "match" && IsMatchClause(m) && ValidQuery(m)
    requires no.kind == "boolean" && no.occur == Some("must_not") && no.queries == [m] && ValidQuery(no)
    ensures Meaning(m, row, matches) != True && Meaning(no, row, matches) != True
            <==> Column(row, FIELD_TO_COLUMN[m.field.value]).None?
  {
    var values := seq(|no.queries|, i requires 0 <= i < |no.queries| => Meaning(no.queries[i], row, matches));
    assert values == [Meaning(m, row, matches)];
    assert OrAll(values[1..]) == False;
    assert Meaning(no, row, matches) == Not(OrAll(values));
  }
}
