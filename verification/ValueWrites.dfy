/**
 * Concurrent title and trash writes on one ledger row: a read that compares the
 * revision the client based its write on, a compare-and-set, and a second read to
 * report the current values when the compare-and-set misses.
 */
module ValueWrites {
  import opened Common

  datatype Value = Title(title: Option<string>) | Trash(trash: bool)

  /** The two value fields of a row with their revisions. */
  datatype Row = Row(title: Option<string>, trash: bool, titleRevision: nat, trashRevision: nat)

  /** A write of one field on top of the revision the client had seen. */
  datatype Request = Request(value: Value, base: nat)

  function Revision(row: Row, v: Value): nat {
    if v.Title? then row.titleRevision else row.trashRevision
  }

  /** The stored value of the field that `v` is a value of. */
  function Stored(row: Row, v: Value): Value {
    if v.Title? then Title(row.title) else Trash(row.trash)
  }

  function Update(row: Row, v: Value): Row {
    match v
    case Title(t) => row.(title := t, titleRevision := row.titleRevision + 1)
    case Trash(t) => row.(trash := t, trashRevision := row.trashRevision + 1)
  }

  /** The reply to a write; `changed` is known to the writer, not part of the answer. */
  datatype Reply =
    | Ok(revision: nat, changed: bool)
    | Stale(revision: nat, currentTitle: Option<string>, currentTrash: bool)

  function StaleReply(row: Row, v: Value): Reply {
    Stale(Revision(row, v), row.title, row.trash)
  }

  /** `since` and `at` are positions in the history of the row. */
  datatype Stage = Begun | Checked | Missed | Replied(reply: Reply, at: nat)

  datatype Call = Call(request: Request, since: nat, stage: Stage)

  /** Every state the row had, the call behind each change, and the calls. */
  datatype System = System(rows: seq<Row>, authors: seq<nat>, calls: map<nat, Call>)

  datatype Event = Begin(call: nat, request: Request) | Check(call: nat) | Cas(call: nat) | Reread(call: nat)

  function Current(s: System): Row
    requires s.rows != []
  {
    s.rows[|s.rows| - 1]
  }

  predicate Enabled(s: System, e: Event) {
    match e
    case Begin(c, _) => c !in s.calls
    case Check(c) => c in s.calls && s.calls[c].stage.Begun?
    case Cas(c) => c in s.calls && s.calls[c].stage.Checked?
    case Reread(c) => c in s.calls && s.calls[c].stage.Missed?
  }

  function Next(s: System, e: Event): System
    requires s.rows != [] && Enabled(s, e)
  {
    var now, row := |s.rows| - 1, Current(s);
    match e
    case Begin(c, request) => s.(calls := s.calls[c := Call(request, now, Begun)])
    case Check(c) =>
      var r := s.calls[c].request;
      var stage := if Revision(row, r.value) != r.base then Replied(StaleReply(row, r.value), now)
                   else if Stored(row, r.value) == r.value then Replied(Ok(r.base, false), now)
                   else Checked;
      s.(calls := s.calls[c := s.calls[c].(stage := stage)])
    case Cas(c) =>
      var r := s.calls[c].request;
      if Revision(row, r.value) == r.base then
        System(s.rows + [Update(row, r.value)], s.authors + [c],
               s.calls[c := s.calls[c].(stage := Replied(Ok(r.base + 1, true), now))])
      else s.(calls := s.calls[c := s.calls[c].(stage := Missed)])
    case Reread(c) =>
      var reply := StaleReply(row, s.calls[c].request.value);
      s.(calls := s.calls[c := s.calls[c].(stage := Replied(reply, now))])
  }

  // ------------------------------------------------------------------- invariants

  /** Each change writes one field and raises its revision; the other field stays. */
  ghost predicate Step(a: Row, b: Row) {
    exists v :: b == Update(a, v)
  }

  ghost predicate History(rows: seq<Row>) {
    rows != [] && forall i :: 0 <= i < |rows| - 1 ==> Step(rows[i], rows[i + 1])
  }

  /** Revisions never fall, and while a revision stands its value stands. */
  lemma {:induction false} RevisionsGrow(rows: seq<Row>, i: nat, j: nat, v: Value)
    requires History(rows) && i <= j < |rows|
    ensures Revision(rows[i], v) <= Revision(rows[j], v)
    ensures Revision(rows[i], v) == Revision(rows[j], v) ==> Stored(rows[i], v) == Stored(rows[j], v)
    decreases j
  {
    if i < j {
      RevisionsGrow(rows, i, j - 1, v);
      assert Step(rows[j - 1], rows[j - 1 + 1]);
    }
  }

  /** The row has the requested value at the next revision; before it had another at the base. */
  ghost predicate Changes(a: Row, b: Row, r: Request) {
    match r.value
    case Title(title) => a.titleRevision == r.base && a.title != title && b == Row(title, a.trash, r.base + 1, a.trashRevision)
    case Trash(trash) => a.trashRevision == r.base && a.trash != trash && b == Row(a.title, trash, a.titleRevision, r.base + 1)
  }

  /** The call's change took the row from position `at` to the next. */
  ghost predicate TookEffect(s: System, c: nat, r: Request, at: nat) {
    && at < |s.authors| && |s.rows| == |s.authors| + 1 && s.authors[at] == c
    && Changes(s.rows[at], s.rows[at + 1], r)
  }

  ghost predicate CallInv(s: System, c: nat, call: Call) {
    var r, v := call.request, call.request.value;
    && call.since < |s.rows|
    && match call.stage
       case Begun => true
       case Checked => true
       case Missed => Revision(s.rows[|s.rows| - 1], v) != r.base
       case Replied(reply, at) =>
         && call.since <= at < |s.rows|
         && match reply
            case Ok(revision, true) => revision == r.base + 1 && TookEffect(s, c, r, at)
            case Ok(revision, false) => revision == r.base == Revision(s.rows[at], v) && Stored(s.rows[at], v) == v
            case Stale(_, _, _) => reply == StaleReply(s.rows[at], v) && reply.revision != r.base
  }

  /** A checked call has seen another value at its base revision, so a later miss means that has been passed. */
  ghost predicate CheckedInv(s: System, call: Call) {
    call.stage.Checked? || call.stage.Missed? ==> exists i :: 0 <= i < |s.rows| && SeenAt(s.rows[i], call.request)
  }

  predicate SeenAt(row: Row, r: Request) {
    Revision(row, r.value) == r.base && Stored(row, r.value) != r.value
  }

  /** The change at this position is the one its author was told of. */
  ghost predicate Accepted(s: System, i: nat)
    requires i < |s.authors|
  {
    s.authors[i] in s.calls &&
    var call := s.calls[s.authors[i]];
    call.stage == Replied(Ok(call.request.base + 1, true), i)
  }

  ghost predicate Inv(s: System) {
    && History(s.rows) && |s.rows| == |s.authors| + 1
    && (forall c <- s.calls :: CallInv(s, c, s.calls[c]) && CheckedInv(s, s.calls[c]))
    && (forall i :: 0 <= i < |s.authors| ==> Accepted(s, i))
  }

  /** What a call knows survives the changes of others. */
  lemma OthersKeepCallInv(s: System, s': System, c: nat, call: Call)
    requires CallInv(s, c, call) && CheckedInv(s, call)
    requires History(s'.rows) && |s.rows| == |s.authors| + 1 && |s'.rows| == |s'.authors| + 1
    requires s.rows != [] && s.rows <= s'.rows && s.authors <= s'.authors
    ensures CallInv(s', c, call) && CheckedInv(s', call)
  {
    if call.stage.Checked? || call.stage.Missed? {
      var i :| 0 <= i < |s.rows| && SeenAt(s.rows[i], call.request);
      assert s'.rows[i] == s.rows[i];
      var last := |s.rows| - 1;
      assert s'.rows[last] == s.rows[last];
      RevisionsGrow(s'.rows, i, last, call.request.value);
      RevisionsGrow(s'.rows, last, |s'.rows| - 1, call.request.value);
    }
  }

  lemma NextKeepsHistory(s: System, e: Event)
    requires Inv(s) && Enabled(s, e)
    ensures var s' := Next(s, e); History(s'.rows) && s.rows <= s'.rows && s.authors <= s'.authors
  {
  }

  /** A write that hits its base revision finds there the value its check had seen, not the one it brings. */
  lemma CasFindsAnother(s: System, e: Event)
    requires Inv(s) && Enabled(s, e)
    ensures e.Cas? && Revision(Current(s), s.calls[e.call].request.value) == s.calls[e.call].request.base
            ==> Changes(Current(s), Current(Next(s, e)), s.calls[e.call].request)
  {
    if e.Cas? {
      var r := s.calls[e.call].request;
      assert CheckedInv(s, s.calls[e.call]);
      var i :| 0 <= i < |s.rows| && SeenAt(s.rows[i], r);
      RevisionsGrow(s.rows, i, |s.rows| - 1, r.value);
    }
  }

  lemma NextKeepsInv(s: System, e: Event)
    requires Inv(s) && Enabled(s, e)
    ensures Inv(Next(s, e))
  {
    NextKeepsHistory(s, e);
    var s' := Next(s, e);
    forall c | c in s'.calls
      ensures CallInv(s', c, s'.calls[c]) && CheckedInv(s', s'.calls[c])
    {
      if c != e.call {
        OthersKeepCallInv(s, s', c, s.calls[c]);
      } else if !e.Begin? {
        assert CallInv(s, c, s.calls[c]) && CheckedInv(s, s.calls[c]);
        assert s'.rows[|s.rows| - 1] == Current(s);
        CasFindsAnother(s, e);
      }
    }
    forall i | 0 <= i < |s'.authors|
      ensures Accepted(s', i)
    {
      if i < |s.authors| {
        assert Accepted(s, i);
      }
    }
  }

  // ------------------------------------------------------------------------- runs

  predicate Run(s: System, es: seq<Event>)
    decreases |es|
  {
    es == [] || (s.rows != [] && Enabled(s, es[0]) && Run(Next(s, es[0]), es[1..]))
  }

  function Final(s: System, es: seq<Event>): System
    requires Run(s, es)
    decreases |es|
  {
    if es == [] then s else Final(Next(s, es[0]), es[1..])
  }

  function Start(row: Row): System {
    System([row], [], map[])
  }

  lemma {:induction false} RunKeepsInv(s: System, es: seq<Event>)
    requires Inv(s) && Run(s, es)
    ensures Inv(Final(s, es))
    decreases |es|
  {
    if es != [] {
      NextKeepsInv(s, es[0]);
      RunKeepsInv(Next(s, es[0]), es[1..]);
    }
  }

  /** A revision stands for one value, at whatever two instants it is seen. */
  lemma OneValuePerRevision(row: Row, es: seq<Event>, i: nat, j: nat, v: Value)
    requires Run(Start(row), es)
    requires i < |Final(Start(row), es).rows| && j < |Final(Start(row), es).rows|
    ensures var rows := Final(Start(row), es).rows;
            Revision(rows[i], v) == Revision(rows[j], v) ==> Stored(rows[i], v) == Stored(rows[j], v)
  {
    RunKeepsInv(Start(row), es);
    var rows := Final(Start(row), es).rows;
    if i <= j {
      RevisionsGrow(rows, i, j, v);
    } else {
      RevisionsGrow(rows, j, i, v);
    }
  }

  /** Every reply describes one instant of its call: an `ok` took effect then, a `stale` was true then. */
  lemma RepliesHoldAtOneInstant(row: Row, es: seq<Event>, c: nat)
    requires Run(Start(row), es)
    requires var s := Final(Start(row), es); c in s.calls && s.calls[c].stage.Replied?
    ensures var s := Final(Start(row), es);
            var call := s.calls[c];
            var r, at := call.request, call.stage.at;
            && call.since <= at < |s.rows|
            && var seen := s.rows[at];
               match call.stage.reply
               case Ok(revision, true) => at + 1 < |s.rows| && revision == r.base + 1 && Changes(seen, s.rows[at + 1], r)
               case Ok(revision, false) =>
                 && revision == r.base == (if r.value.Title? then seen.titleRevision else seen.trashRevision)
                 && r.value == if r.value.Title? then Title(seen.title) else Trash(seen.trash)
               case Stale(revision, title, trash) =>
                 && revision == (if r.value.Title? then seen.titleRevision else seen.trashRevision) != r.base
                 && title == seen.title && trash == seen.trash
  {
    RunKeepsInv(Start(row), es);
    var s := Final(Start(row), es);
    assert CallInv(s, c, s.calls[c]);
  }

  /** Nothing else changes the row: each change is that of one call, which was told so. */
  lemma OnlyAcceptedWritesChange(row: Row, es: seq<Event>, i: nat)
    requires Run(Start(row), es) && i + 1 < |Final(Start(row), es).rows|
    ensures var s := Final(Start(row), es);
            exists c <- s.calls :: s.calls[c].stage == Replied(Ok(s.calls[c].request.base + 1, true), i)
                                   && Changes(s.rows[i], s.rows[i + 1], s.calls[c].request)
  {
    RunKeepsInv(Start(row), es);
    var s := Final(Start(row), es);
    assert Accepted(s, i) && CallInv(s, s.authors[i], s.calls[s.authors[i]]);
  }

  /** Left alone, a write on the current revision succeeds, with a change exactly when it brings another value. */
  lemma UndisturbedWrite(s: System, c: nat, r: Request)
    requires s.rows != [] && c !in s.calls && Revision(Current(s), r.value) == r.base
    ensures var s2 := Next(Next(s, Begin(c, r)), Check(c));
            if Stored(Current(s), r.value) == r.value
            then s2.rows == s.rows && s2.calls[c].stage.Replied? && s2.calls[c].stage.reply == Ok(r.base, false)
            else
              && Enabled(s2, Cas(c))
              && var s3 := Next(s2, Cas(c));
                 && s3.rows == s.rows + [Current(s3)] && Changes(Current(s), Current(s3), r)
                 && s3.calls[c].stage.Replied? && s3.calls[c].stage.reply == Ok(r.base + 1, true)
  {
  }

  predicate Changed(s: System, c: nat) {
    c in s.calls && s.calls[c].stage.Replied? && s.calls[c].stage.reply.Ok? && s.calls[c].stage.reply.changed
  }

  /** Of all writers of one field with the same base revision at most one changes the value. */
  lemma AtMostOneWriterPerBase(row: Row, es: seq<Event>, c: nat, d: nat)
    requires Run(Start(row), es)
    requires var s := Final(Start(row), es);
             && Changed(s, c) && Changed(s, d)
             && s.calls[c].request.base == s.calls[d].request.base
             && s.calls[c].request.value.Title? == s.calls[d].request.value.Title?
    ensures c == d
  {
    RunKeepsInv(Start(row), es);
    var s := Final(Start(row), es);
    assert CallInv(s, c, s.calls[c]) && CallInv(s, d, s.calls[d]);
    var i, j, v := s.calls[c].stage.at, s.calls[d].stage.at, s.calls[c].request.value;
    if i < j {
      RevisionsGrow(s.rows, i + 1, j, v);
    } else if j < i {
      RevisionsGrow(s.rows, j + 1, i, v);
    }
  }
}
