/**
 * Compilation of the search query DSL to an SQL condition over numbered parameters.
 */
module SearchQuery {
  import opened Common
  import opened Text
  import opened SqlCondition
  import opened Permission

  // ---------------------------------------------------------------- the query DSL

  /** A query node; the fields a kind does not use may hold anything. */
  datatype Query = Query(kind: string, field: Option<string>, text: Option<string>, occur: Option<string>,
                         queries: seq<Query>, inner: Option<Query>)

  const FIELD_TO_COLUMN: map<string, string> := map[
    "docId" := "doc_id", "blockId" := "block_id", "blockType" := "block_type", "workspaceId" := "workspace_id",
    "content" := "content", "title" := "title", "flavour" := "block_type", "refDocId" := "ref_doc_id",
    "markdownPreview" := "markdown_preview", "parentFlavour" := "parent_flavour",
    "parentBlockId" := "parent_block_id", "additional" := "additional", "ref" := "ref", "summary" := "summary",
    "createdAt" := "created_at", "updatedAt" := "updated_at"]

  /** One row of the index; a column missing from `columns` is NULL. */
  datatype IndexRow = IndexRow(workspace: Id, doc: Id, columns: map<string, string>)

  function Column(row: IndexRow, name: string): Option<string> {
    if name == "workspace_id" then Some(row.workspace)
    else if name == "doc_id" then Some(row.doc)
    else if name in row.columns then Some(row.columns[name])
    else None
  }

  /** Full-text match of a column value against a search string, left to the database. */
  type Matcher = (string, string) -> bool

  predicate IsTextColumn(column: string) {
    column == "content" || column == "title"
  }

  predicate IsMatchClause(q: Query) {
    Truthy(q.field) && Truthy(q.text)
  }

  /** A field outside the allow list makes the whole query a bad request. */
  predicate ValidQuery(q: Query)
    decreases q
  {
    if q.kind == "match" then IsMatchClause(q) ==> q.field.value in FIELD_TO_COLUMN
    else if q.kind == "boolean" then forall i :: 0 <= i < |q.queries| ==> ValidQuery(q.queries[i])
    else if q.kind == "boost" then q.inner.Some? ==> ValidQuery(q.inner.value)
    else if q.kind == "exists" then Truthy(q.field) ==> q.field.value in FIELD_TO_COLUMN
    else true
  }

  /** The value of a boolean query from the values of its parts. */
  function Combined(occur: Option<string>, values: seq<Truth>): Truth {
    if occur == Some("should") then OrAll(values)
    else if occur == Some("must_not") then Not(OrAll(values))
    else AndAll(values)
  }

  /** What a query says of a row. NULL makes a comparison unknown. */
  function Meaning(q: Query, row: IndexRow, matches: Matcher): Truth
    requires ValidQuery(q)
    decreases q
  {
    if q.kind == "match" && IsMatchClause(q) then
      var column := FIELD_TO_COLUMN[q.field.value];
      var value := Column(row, column);
      if value.None? then Unknown
      else if IsTextColumn(column) then Of(matches(value.value, q.text.value))
      else Of(value.value == q.text.value)
    else if q.kind == "boolean" && q.queries != [] then
      var values := seq(|q.queries|, i requires 0 <= i < |q.queries| => Meaning(q.queries[i], row, matches));
      Combined(q.occur, values)
    else if q.kind == "boost" && q.inner.Some? then Meaning(q.inner.value, row, matches)
    else if q.kind == "exists" && Truthy(q.field) then Of(Column(row, FIELD_TO_COLUMN[q.field.value]).Some?)
    else True
  }

  function Cell(row: IndexRow, column: string): Option<string> {
    if column in row.columns then Some(row.columns[column]) else None
  }

  /** The value of a row for each field a query may name, where the database keeps it. */
  function FieldValue(row: IndexRow, field: string): Option<string> {
    match field
    case "workspaceId" => Some(row.workspace)
    case "docId" => Some(row.doc)
    case "blockId" => Cell(row, "block_id")
    case "blockType" => Cell(row, "block_type")
    case "flavour" => Cell(row, "block_type")
    case "refDocId" => Cell(row, "ref_doc_id")
    case "markdownPreview" => Cell(row, "markdown_preview")
    case "parentFlavour" => Cell(row, "parent_flavour")
    case "parentBlockId" => Cell(row, "parent_block_id")
    case "createdAt" => Cell(row, "created_at")
    case "updatedAt" => Cell(row, "updated_at")
    case name => Cell(row, name)
  }

  lemma FieldsAre(field: string)
    ensures field in FIELD_TO_COLUMN <==>
              field in {"docId", "blockId", "blockType", "workspaceId", "content", "title", "flavour", "refDocId",
                        "markdownPreview", "parentFlavour", "parentBlockId", "additional", "ref", "summary",
                        "createdAt", "updatedAt"}
  {
  }

  lemma FieldValueIs(row: IndexRow, field: string)
    requires field in FIELD_TO_COLUMN
    ensures Column(row, FIELD_TO_COLUMN[field]) == FieldValue(row, field)
    ensures IsTextColumn(FIELD_TO_COLUMN[field]) <==> field in {"content", "title"}
  {
  }

  /** A match holds where the field has the text, by full text search in content and title; a missing value is unknown. */
  lemma MatchMeans(field: string, text: string, q: Query, row: IndexRow, matches: Matcher)
    requires field in FIELD_TO_COLUMN && field != "" && text != ""
    requires q.kind == "match" && q.field == Some(field) && q.text == Some(text)
    ensures Meaning(q, row, matches)
            == match FieldValue(row, field) {
                 case None => Unknown
                 case Some(v) => Of(if field in {"content", "title"} then matches(v, text) else v == text)
               }
  {
    FieldValueIs(row, field);
  }

  /** What a boolean query holds of, and fails on, by the values of its parts. */
  lemma BooleanMeans(q: Query, row: IndexRow, matches: Matcher) returns (parts: seq<Truth>)
    requires q.kind == "boolean" && q.queries != [] && ValidQuery(q)
    ensures |parts| == |q.queries| && forall i :: 0 <= i < |parts| ==> parts[i] == Meaning(q.queries[i], row, matches)
    ensures var all := Meaning(q, row, matches);
            if q.occur == Some("should") then (all == True <==> True in parts) && (all == False <==> forall v <- parts :: v == False)
            else if q.occur == Some("must_not") then (all == False <==> True in parts) && (all == True <==> forall v <- parts :: v == False)
            else (all == True <==> forall v <- parts :: v == True) && (all == False <==> False in parts)
  {
    parts := seq(|q.queries|, i requires 0 <= i < |q.queries| => Meaning(q.queries[i], row, matches));
    AllMeans(parts);
  }

  /** A boost only weighs, existence is never unknown, and everything else holds of every row. */
  lemma OtherKindsMean(q: Query, row: IndexRow, matches: Matcher)
    requires ValidQuery(q)
    ensures q.kind == "boost" && q.inner.Some? ==> Meaning(q, row, matches) == Meaning(q.inner.value, row, matches)
    ensures q.kind == "exists" && q.field !in {None, Some("")} ==>
              Meaning(q, row, matches) == Of(FieldValue(row, q.field.value).Some?)
    ensures q.kind == "match" && (q.field in {None, Some("")} || q.text in {None, Some("")}) ==> Meaning(q, row, matches) == True
    ensures q.kind == "boolean" && q.queries == [] ==> Meaning(q, row, matches) == True
    ensures q.kind == "exists" && q.field in {None, Some("")} ==> Meaning(q, row, matches) == True
    ensures q.kind == "boost" && q.inner.None? ==> Meaning(q, row, matches) == True
    ensures q.kind !in {"match", "boolean", "boost", "exists"} ==> Meaning(q, row, matches) == True
  {
    if q.kind == "exists" && Truthy(q.field) {
      FieldValueIs(row, q.field.value);
    }
  }

  // ------------------------------------------------------------------ compilation

  /** The comparisons of the generated SQL; `k` is the number of a `$k` parameter. */
  datatype Test =
    | Constant(value: bool)
    | IsNotNull(column: string)
    | FullText(column: string, k: nat)
    | Equals(column: string, k: nat)
    | RoleCase(names: nat, workspaceReads: nat, user: nat)

  datatype Value = Text(text: string) | Names(names: seq<string>) | Flag(flag: bool)

  type Clause = seq<Token<Test>>

  datatype Compiled = BadRequest | Compiled(clause: Clause, pushed: seq<Value>)

  datatype CompiledAll = BadRequests | CompiledAll(clauses: seq<Clause>, pushed: seq<Value>)

  const TRUE_CLAUSE: Clause := [Atom(Constant(true))]

  /** The clause of a query when `n` parameters are in use, and the parameters it adds. */
  function Compile(q: Query, n: nat): Compiled
    decreases q
  {
    if q.kind == "match" && IsMatchClause(q) then
      if q.field.value !in FIELD_TO_COLUMN then BadRequest
      else
        var column := FIELD_TO_COLUMN[q.field.value];
        Compiled([Atom(if IsTextColumn(column) then FullText(column, n + 1) else Equals(column, n + 1))],
                 [Text(q.text.value)])
    else if q.kind == "boolean" && q.queries != [] then
      match CompileAll(q.queries, n)
      case BadRequests => BadRequest
      case CompiledAll(clauses, pushed) => Compiled(Combine(q.occur, clauses), pushed)
    else if q.kind == "boost" && q.inner.Some? then Compile(q.inner.value, n)
    else if q.kind == "exists" && Truthy(q.field) then
      if q.field.value !in FIELD_TO_COLUMN then BadRequest
      else Compiled([Atom(IsNotNull(FIELD_TO_COLUMN[q.field.value]))], [])
    else Compiled(TRUE_CLAUSE, [])
  }

  function Combine(occur: Option<string>, clauses: seq<Clause>): Clause {
    if occur == Some("should") then Join(clauses, OrKw)
    else if occur == Some("must_not") then [NotKw] + Parens(Join(clauses, OrKw))
    else Join(clauses, AndKw)
  }

  function CompileAll(qs: seq<Query>, n: nat): CompiledAll
    decreases qs
  {
    if qs == [] then CompiledAll([], [])
    else
      var last := |qs| - 1;
      match CompileAll(qs[..last], n)
      case BadRequests => BadRequests
      case CompiledAll(clauses, pushed) =>
        match Compile(qs[last], n + |pushed|)
        case BadRequest => BadRequests
        case Compiled(clause, more) => CompiledAll(clauses + [clause], pushed + more)
  }

  /** The parameter list every builder of one search appends to. */
  class Parameters {
    var items: seq<Value>

    constructor (first: Value)
      ensures items == [first]
    {
      items := [first];
    }

    method Push(value: Value)
      modifies this
      ensures items == old(items) + [value]
    {
      items := items + [value];
    }

    method PushAll(values: seq<Value>)
      modifies this
      ensures items == old(items) + values
    {
      for i := 0 to |values|
        invariant items == old(items) + values[..i]
      {
        Push(values[i]);
        assert values[..i + 1] == values[..i] + [values[i]];
      }
      assert values[..|values|] == values;
    }
  }

  method BuildWhereClause(q: Query, params: Parameters) returns (r: Option<Clause>)
    modifies params
    ensures match Compile(q, |old(params.items)|)
            case BadRequest => r == None
            case Compiled(clause, pushed) => r == Some(clause) && params.items == old(params.items) + pushed
    decreases q, 1
  {
    if q.kind == "match" {
      r := BuildMatchClause(q, params);
    } else if q.kind == "boolean" {
      r := BuildBooleanClause(q, params);
    } else if q.kind == "boost" {
      if q.inner.Some? {
        r := BuildWhereClause(q.inner.value, params);
      } else {
        r := Some(TRUE_CLAUSE);
      }
    } else if q.kind == "exists" && Truthy(q.field) {
      if q.field.value !in FIELD_TO_COLUMN {
        return None;
      }
      r := Some([Atom(IsNotNull(FIELD_TO_COLUMN[q.field.value]))]);
    } else {
      r := Some(TRUE_CLAUSE);
    }
  }

  method BuildMatchClause(q: Query, params: Parameters) returns (r: Option<Clause>)
    requires q.kind == "match"
    modifies params
    ensures match Compile(q, |old(params.items)|)
            case BadRequest => r == None
            case Compiled(clause, pushed) => r == Some(clause) && params.items == old(params.items) + pushed
  {
    if !Truthy(q.field) || !Truthy(q.text) {
      return Some(TRUE_CLAUSE);
    }
    if q.field.value !in FIELD_TO_COLUMN {
      return None;
    }
    var column := FIELD_TO_COLUMN[q.field.value];
    var paramIndex := |params.items| + 1;
    params.Push(Text(q.text.value));
    if IsTextColumn(column) {
      return Some([Atom(FullText(column, paramIndex))]);
    }
    return Some([Atom(Equals(column, paramIndex))]);
  }

  /** The clauses of these queries have been built and their parameters appended to `items`. */
  ghost predicate BuiltTo(qs: seq<Query>, n: nat, clauses: seq<Clause>, items: seq<Value>, after: seq<Value>) {
    |items| == n && CompileAll(qs, n).CompiledAll? && clauses == CompileAll(qs, n).clauses && after == items + CompileAll(qs, n).pushed
  }

  lemma BuiltNext(qs: seq<Query>, i: nat, n: nat, clauses: seq<Clause>, clause: Clause,
                  items: seq<Value>, before: seq<Value>, after: seq<Value>)
    requires i < |qs| && BuiltTo(qs[..i], n, clauses, items, before)
    requires Compile(qs[i], |before|).Compiled? && clause == Compile(qs[i], |before|).clause
    requires after == before + Compile(qs[i], |before|).pushed
    ensures BuiltTo(qs[..i + 1], n, clauses + [clause], items, after)
  {
    CompileAllNext(qs, i, n);
    Associate(items, CompileAll(qs[..i], n).pushed, Compile(qs[i], |before|).pushed);
  }

  method BuildBooleanClause(q: Query, params: Parameters) returns (r: Option<Clause>)
    requires q.kind == "boolean"
    modifies params
    ensures match Compile(q, |old(params.items)|)
            case BadRequest => r == None
            case Compiled(clause, pushed) => r == Some(clause) && params.items == old(params.items) + pushed
    decreases q, 0
  {
    if q.queries == [] {
      return Some(TRUE_CLAUSE);
    }
    ghost var n := |params.items|;
    var clauses: seq<Clause> := [];
    for i := 0 to |q.queries|
      invariant BuiltTo(q.queries[..i], n, clauses, old(params.items), params.items)
    {
      CompileAllNext(q.queries, i, n);
      ghost var items := params.items;
      var clause := BuildWhereClause(q.queries[i], params);
      if clause.None? {
        return None;
      }
      BuiltNext(q.queries, i, n, clauses, clause.value, old(params.items), items, params.items);
      clauses := clauses + [clause.value];
    }
    assert q.queries[..|q.queries|] == q.queries;
    r := Some(Combine(q.occur, clauses));
  }

  lemma Associate(a: seq<Value>, b: seq<Value>, c: seq<Value>)
    ensures a + b + c == a + (b + c)
  {
  }

  lemma CompileAllNext(qs: seq<Query>, i: nat, n: nat)
    requires i < |qs| && CompileAll(qs[..i], n).CompiledAll?
    ensures var before := CompileAll(qs[..i], n);
            match Compile(qs[i], n + |before.pushed|)
            case BadRequest => CompileAll(qs, n).BadRequests?
            case Compiled(clause, more) =>
              CompileAll(qs[..i + 1], n) == CompiledAll(before.clauses + [clause], before.pushed + more)
  {
    assert qs[..i + 1][..i] == qs[..i];
    if CompileAll(qs[..i + 1], n).BadRequests? {
      BadPrefix(qs, i + 1, n);
    }
  }

  lemma {:induction false} BadPrefix(qs: seq<Query>, i: nat, n: nat)
    requires i <= |qs| && CompileAll(qs[..i], n).BadRequests?
    ensures CompileAll(qs, n).BadRequests?
  {
    if i < |qs| {
      assert qs[..|qs| - 1][..i] == qs[..i];
      BadPrefix(qs[..|qs| - 1], i, n);
    } else {
      assert qs[..i] == qs;
    }
  }

  // --------------------------------------------------------------- evaluating SQL

  function Param(params: seq<Value>, k: nat): Option<Value> {
    if 1 <= k <= |params| then Some(params[k - 1]) else None
  }

  /** `lower(role) = ANY(names)`. */
  function RoleIn(role: string, names: seq<string>): Truth {
    Of(Lower(role) in names)
  }

  function Test3(test: Test, params: seq<Value>, row: IndexRow, db: Directory, matches: Matcher): Truth {
    match test
    case Constant(b) => Of(b)
    case IsNotNull(column) => Of(Column(row, column).Some?)
    case FullText(column, k) =>
      var value, p := Column(row, column), Param(params, k);
      if value.None? || p.None? || !p.value.Text? then Unknown else Of(matches(value.value, p.value.text))
    case Equals(column, k) =>
      var value, p := Column(row, column), Param(params, k);
      if value.None? || p.None? || !p.value.Text? then Unknown else Of(value.value == p.value.text)
    case RoleCase(i, j, k) =>
      var names, otherwise, user := Param(params, i), Param(params, j), Param(params, k);
      if !(names.Some? && names.value.Names? && otherwise.Some? && otherwise.value.Flag? && user.Some? && user.value.Text?)
      then Unknown
      else
        var grant := Grant(db, row.workspace, row.doc, user.value.text);
        var default := DefaultRole(db, row.workspace, row.doc);
        if grant.Some? then RoleIn(grant.value, names.value.names)
        else if default.Some? then RoleIn(default.value, names.value.names)
        else Of(otherwise.value.flag)
  }

  function Env(params: seq<Value>, row: IndexRow, db: Directory, matches: Matcher): Test -> Truth {
    test => Test3(test, params, row, db, matches)
  }

  // ---------------------------------------------------- compilation keeps the meaning

  ghost predicate HoldsAt(params: seq<Value>, n: nat, pushed: seq<Value>) {
    n + |pushed| <= |params| && params[n..n + |pushed|] == pushed
  }

  lemma {:induction false} CompilesIffValid(q: Query, n: nat)
    ensures Compile(q, n).Compiled? <==> ValidQuery(q)
    decreases q, 1
  {
    if q.kind == "boolean" && q.queries != [] {
      AllCompileIffValid(q, q.queries, n);
    } else if q.kind == "boost" && q.inner.Some? {
      CompilesIffValid(q.inner.value, n);
    }
  }

  lemma {:induction false} AllCompileIffValid(q: Query, qs: seq<Query>, n: nat)
    requires qs <= q.queries
    ensures CompileAll(qs, n).CompiledAll? <==> forall i :: 0 <= i < |qs| ==> ValidQuery(qs[i])
    ensures CompileAll(qs, n).CompiledAll? ==> |CompileAll(qs, n).clauses| == |qs|
    decreases q, 0, |qs|
  {
    if qs != [] {
      var last := |qs| - 1;
      AllCompileIffValid(q, qs[..last], n);
      assert qs[last] == q.queries[last];
      match CompileAll(qs[..last], n)
      case BadRequests =>
      case CompiledAll(clauses, pushed) => CompilesIffValid(qs[last], n + |pushed|);
    }
  }

  /**
   * Read with the final parameter list, whatever was appended to it later, the clause
   * of a query has the value the query has.
   */
  lemma {:induction false} CompileKeepsMeaning(q: Query, n: nat, params: seq<Value>, row: IndexRow, db: Directory, matches: Matcher)
    requires ValidQuery(q) && Compile(q, n).Compiled? && HoldsAt(params, n, Compile(q, n).pushed)
    ensures Reads(Compile(q, n).clause, Env(params, row, db, matches), Meaning(q, row, matches))
    decreases q, 1
  {
    if q.kind == "boolean" && q.queries != [] {
      AllCompileIffValid(q, q.queries, n);
      AllKeepMeaning(q, q.queries, n, params, row, db, matches);
      var values := seq(|q.queries|, i requires 0 <= i < |q.queries| => Meaning(q.queries[i], row, matches));
      CombineReads(q.occur, CompileAll(q.queries, n).clauses, Env(params, row, db, matches), values);
    } else if q.kind == "boost" && q.inner.Some? {
      CompileKeepsMeaning(q.inner.value, n, params, row, db, matches);
    } else {
      LeafKeepsMeaning(q, n, params, row, db, matches);
    }
  }

  lemma LeafKeepsMeaning(q: Query, n: nat, params: seq<Value>, row: IndexRow, db: Directory, matches: Matcher)
    requires ValidQuery(q) && Compile(q, n).Compiled? && HoldsAt(params, n, Compile(q, n).pushed)
    requires !(q.kind == "boolean" && q.queries != []) && !(q.kind == "boost" && q.inner.Some?)
    ensures Reads(Compile(q, n).clause, Env(params, row, db, matches), Meaning(q, row, matches))
  {
    var c := Compile(q, n);
    AtomReads(c.clause[0].atom, Env(params, row, db, matches));
    if q.kind == "match" && IsMatchClause(q) {
      assert params[n] == c.pushed[0];
    }
  }

  lemma HoldsInParts(params: seq<Value>, n: nat, a: seq<Value>, b: seq<Value>)
    requires HoldsAt(params, n, a + b)
    ensures HoldsAt(params, n, a) && HoldsAt(params, n + |a|, b)
  {
    var m := n + |a|;
    assert params[n..m] == params[n..m + |b|][..|a|] == a;
    assert params[m..m + |b|] == params[n..m + |b|][|a|..] == b;
  }

  lemma CombineReads(occur: Option<string>, clauses: seq<Clause>, env: Test -> Truth, values: seq<Truth>)
    requires |clauses| == |values| > 0
    requires forall i :: 0 <= i < |clauses| ==> Reads(clauses[i], env, values[i])
    ensures Reads(Combine(occur, clauses), env, Combined(occur, values))
  {
    JoinsRead(clauses, env, values);
    NegationReads(Join(clauses, OrKw), env, OrAll(values));
  }

  lemma {:induction false} AllKeepMeaning(q: Query, qs: seq<Query>, n: nat, params: seq<Value>, row: IndexRow, db: Directory, matches: Matcher)
    requires qs <= q.queries && forall i :: 0 <= i < |qs| ==> ValidQuery(qs[i])
    requires CompileAll(qs, n).CompiledAll? && HoldsAt(params, n, CompileAll(qs, n).pushed)
    ensures |CompileAll(qs, n).clauses| == |qs|
    ensures forall i :: 0 <= i < |qs| ==>
              Reads(CompileAll(qs, n).clauses[i], Env(params, row, db, matches), Meaning(qs[i], row, matches))
    decreases q, 0, |qs|
  {
    if qs != [] {
      var last := |qs| - 1;
      var before := CompileAll(qs[..last], n);
      var c := Compile(qs[last], n + |before.pushed|);
      var m := n + |before.pushed|;
      HoldsInParts(params, n, before.pushed, c.pushed);
      AllKeepMeaning(q, qs[..last], n, params, row, db, matches);
      assert qs[last] == q.queries[last];
      CompileKeepsMeaning(qs[last], m, params, row, db, matches);
    }
  }
}
