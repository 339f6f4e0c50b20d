/**
 * SQL conditions as text: a flat sequence of tokens, read with SQL's precedence
 * (NOT before AND before OR) and evaluated in SQL's three-valued logic.
 */
module SqlCondition {
  import opened Common

  datatype Truth = True | False | Unknown

  function Of(b: bool): Truth {
    if b then True else False
  }

  function Not(a: Truth): Truth {
    match a
    case True => False
    case False => True
    case Unknown => Unknown
  }

  function And(a: Truth, b: Truth): Truth {
    if a == False || b == False then False
    else if a == True && b == True then True
    else Unknown
  }

  function Or(a: Truth, b: Truth): Truth {
    if a == True || b == True then True
    else if a == False && b == False then False
    else Unknown
  }

  function AndAll(values: seq<Truth>): Truth {
    if values == [] then True else And(values[0], AndAll(values[1..]))
  }

  function OrAll(values: seq<Truth>): Truth {
    if values == [] then False else Or(values[0], OrAll(values[1..]))
  }

  /** SQL's three values: an unknown part decides nothing unless the others decide without it. */
  lemma {:induction false} AllMeans(values: seq<Truth>)
    ensures AndAll(values) == True <==> forall v <- values :: v == True
    ensures AndAll(values) == False <==> exists v <- values :: v == False
    ensures OrAll(values) == True <==> exists v <- values :: v == True
    ensures OrAll(values) == False <==> forall v <- values :: v == False
    ensures forall v :: (Not(v) == True <==> v == False) && (Not(v) == False <==> v == True)
  {
    if values != [] {
      AllMeans(values[1..]);
      assert forall v <- values :: v == values[0] || v in values[1..];
      assert values[0] in values && forall v <- values[1..] :: v in values;
    }
  }

  /** `A` is the type of the comparisons a condition is made of. */
  datatype Token<A> = LParen | RParen | AndKw | OrKw | NotKw | Atom(atom: A)

  // --------------------------------------------------------- reading a condition

  /** or := and [OR or] */
  function EvalOr<A>(ts: seq<Token<A>>, env: A -> Truth): (r: Option<(Truth, seq<Token<A>>)>)
    ensures r.Some? ==> |r.value.1| < |ts|
    decreases |ts|, 3
  {
    var left := EvalAnd(ts, env);
    if left.None? || left.value.1 == [] || left.value.1[0] != OrKw then left
    else
      var right := EvalOr(left.value.1[1..], env);
      if right.None? then None else Some((Or(left.value.0, right.value.0), right.value.1))
  }

  /** and := not [AND and] */
  function EvalAnd<A>(ts: seq<Token<A>>, env: A -> Truth): (r: Option<(Truth, seq<Token<A>>)>)
    ensures r.Some? ==> |r.value.1| < |ts|
    decreases |ts|, 2
  {
    var left := EvalNot(ts, env);
    if left.None? || left.value.1 == [] || left.value.1[0] != AndKw then left
    else
      var right := EvalAnd(left.value.1[1..], env);
      if right.None? then None else Some((And(left.value.0, right.value.0), right.value.1))
  }

  /** not := NOT not | ( or ) | atom */
  function EvalNot<A>(ts: seq<Token<A>>, env: A -> Truth): (r: Option<(Truth, seq<Token<A>>)>)
    ensures r.Some? ==> |r.value.1| < |ts|
    decreases |ts|, 1
  {
    if ts == [] then None
    else match ts[0]
      case NotKw =>
        var inner := EvalNot(ts[1..], env);
        if inner.None? then None else Some((Not(inner.value.0), inner.value.1))
      case LParen =>
        var inner := EvalOr(ts[1..], env);
        if inner.None? || inner.value.1 == [] || inner.value.1[0] != RParen then None
        else Some((inner.value.0, inner.value.1[1..]))
      case Atom(a) => Some((env(a), ts[1..]))
      case _ => None
  }

  /** The value of a whole condition; `None` when it is not well formed. */
  function Eval<A>(ts: seq<Token<A>>, env: A -> Truth): Option<Truth> {
    var r := EvalOr(ts, env);
    if r.Some? && r.value.1 == [] then Some(r.value.0) else None
  }

  // ------------------------------------------------------------ writing a condition

  function Parens<A>(ts: seq<Token<A>>): seq<Token<A>> {
    [LParen] + ts + [RParen]
  }

  /** `clauses.join(' AND ')` and `clauses.join(' OR ')`, every clause in parentheses. */
  function Join<A>(clauses: seq<seq<Token<A>>>, sep: Token<A>): seq<Token<A>> {
    if clauses == [] then []
    else if |clauses| == 1 then Parens(clauses[0])
    else Parens(clauses[0]) + [sep] + Join(clauses[1..], sep)
  }

  // ------------------------------------------------------------------- reading back

  predicate Ends<A(==)>(rest: seq<Token<A>>) {
    rest == [] || rest[0] == RParen
  }

  /** Wherever the clause may stand, reading it yields `value` and consumes just the clause. */
  ghost predicate Reads<A(!new)>(clause: seq<Token<A>>, env: A -> Truth, value: Truth) {
    forall rest: seq<Token<A>> | Ends(rest) :: EvalOr(clause + rest, env) == Some((value, rest))
  }

  lemma AtomReads<A(!new)>(a: A, env: A -> Truth)
    ensures Reads([Atom(a)], env, env(a))
  {
    forall rest: seq<Token<A>> | Ends(rest)
      ensures EvalOr([Atom(a)] + rest, env) == Some((env(a), rest))
    {
      var ts := [Atom(a)] + rest;
      assert ts[0] == Atom(a) && ts[1..] == rest;
      assert EvalNot(ts, env) == Some((env(a), rest));
      NotAlone(ts, env, env(a), rest);
    }
  }

  lemma NotAlone<A>(ts: seq<Token<A>>, env: A -> Truth, value: Truth, rest: seq<Token<A>>)
    requires EvalNot(ts, env) == Some((value, rest))
    requires rest == [] || rest[0] != AndKw
    ensures EvalAnd(ts, env) == Some((value, rest))
    ensures Ends(rest) ==> EvalOr(ts, env) == Some((value, rest))
  {
  }

  lemma OrStep<A>(ts: seq<Token<A>>, env: A -> Truth, first: Truth, others: Truth, more: seq<Token<A>>, rest: seq<Token<A>>)
    requires EvalAnd(ts, env) == Some((first, [OrKw] + more))
    requires EvalOr(more, env) == Some((others, rest))
    ensures EvalOr(ts, env) == Some((Or(first, others), rest))
  {
  }

  lemma ParensRead<A(!new)>(clause: seq<Token<A>>, env: A -> Truth, value: Truth, rest: seq<Token<A>>)
    requires Reads(clause, env, value)
    ensures EvalNot(Parens(clause) + rest, env) == Some((value, rest))
  {
    var ts := Parens(clause) + rest;
    assert ts[0] == LParen;
    assert ts[1..] == clause + ([RParen] + rest);
    assert Ends([RParen] + rest);
    assert ([RParen] + rest)[1..] == rest;
  }

  lemma {:induction false} JoinAndReads<A(!new)>(clauses: seq<seq<Token<A>>>, env: A -> Truth, values: seq<Truth>, rest: seq<Token<A>>)
    requires |clauses| == |values| > 0
    requires forall i :: 0 <= i < |clauses| ==> Reads(clauses[i], env, values[i])
    requires rest == [] || rest[0] != AndKw
    ensures EvalAnd(Join(clauses, AndKw) + rest, env) == Some((AndAll(values), rest))
  {
    if |clauses| == 1 {
      ParensRead(clauses[0], env, values[0], rest);
      assert values[1..] == [];
      assert And(values[0], True) == values[0];
    } else {
      var tail := [AndKw] + Join(clauses[1..], AndKw) + rest;
      ParensRead(clauses[0], env, values[0], tail);
      assert Join(clauses, AndKw) + rest == Parens(clauses[0]) + tail;
      assert tail[1..] == Join(clauses[1..], AndKw) + rest;
      JoinAndReads(clauses[1..], env, values[1..], rest);
    }
  }

  lemma {:induction false} JoinOrReads<A(!new)>(clauses: seq<seq<Token<A>>>, env: A -> Truth, values: seq<Truth>, rest: seq<Token<A>>)
    requires |clauses| == |values| > 0
    requires forall i :: 0 <= i < |clauses| ==> Reads(clauses[i], env, values[i])
    requires Ends(rest)
    ensures EvalOr(Join(clauses, OrKw) + rest, env) == Some((OrAll(values), rest))
  {
    if |clauses| == 1 {
      ParensRead(clauses[0], env, values[0], rest);
      NotAlone(Join(clauses, OrKw) + rest, env, values[0], rest);
      assert values[1..] == [];
      assert Or(values[0], False) == values[0];
    } else {
      var more := Join(clauses[1..], OrKw) + rest;
      JoinOrReads(clauses[1..], env, values[1..], rest);
      var ts := Parens(clauses[0]) + ([OrKw] + more);
      assert Join(clauses, OrKw) + rest == ts;
      ParensRead(clauses[0], env, values[0], [OrKw] + more);
      NotAlone(ts, env, values[0], [OrKw] + more);
      OrStep(ts, env, values[0], OrAll(values[1..]), more, rest);
    }
  }

  /** Joined clauses read back as the conjunction or disjunction of their values. */
  lemma JoinsRead<A(!new)>(clauses: seq<seq<Token<A>>>, env: A -> Truth, values: seq<Truth>)
    requires |clauses| == |values| > 0
    requires forall i :: 0 <= i < |clauses| ==> Reads(clauses[i], env, values[i])
    ensures Reads(Join(clauses, AndKw), env, AndAll(values))
    ensures Reads(Join(clauses, OrKw), env, OrAll(values))
  {
    forall rest: seq<Token<A>> | Ends(rest)
      ensures EvalOr(Join(clauses, AndKw) + rest, env) == Some((AndAll(values), rest))
    {
      JoinAndReads(clauses, env, values, rest);
      assert rest == [] || rest[0] != OrKw;
    }
    forall rest: seq<Token<A>> | Ends(rest)
      ensures EvalOr(Join(clauses, OrKw) + rest, env) == Some((OrAll(values), rest))
    {
      JoinOrReads(clauses, env, values, rest);
    }
  }

  lemma NegationReads<A(!new)>(clause: seq<Token<A>>, env: A -> Truth, value: Truth)
    requires Reads(clause, env, value)
    ensures Reads([NotKw] + Parens(clause), env, Not(value))
  {
    forall rest: seq<Token<A>> | Ends(rest)
      ensures EvalOr([NotKw] + Parens(clause) + rest, env) == Some((Not(value), rest))
    {
      var ts := [NotKw] + Parens(clause) + rest;
      assert ts[0] == NotKw && ts[1..] == Parens(clause) + rest;
      ParensRead(clause, env, value, rest);
      assert EvalNot(ts, env) == Some((Not(value), rest));
      NotAlone(ts, env, Not(value), rest);
    }
  }

  lemma AtomStep<A>(a: A, more: seq<Token<A>>, env: A -> Truth)
    ensures EvalNot([Atom(a)] + more, env) == Some((env(a), more))
  {
    assert ([Atom(a)] + more)[1..] == more;
  }

  lemma OneStep<A>(a: A, b: A, env: A -> Truth)
    ensures EvalAnd([Atom(b)], env) == Some((env(b), [])) && EvalOr([Atom(b)], env) == Some((env(b), []))
    ensures EvalAnd([Atom(a), AndKw, Atom(b)], env) == Some((And(env(a), env(b)), []))
    ensures EvalOr([Atom(a), AndKw, Atom(b)], env) == Some((And(env(a), env(b)), []))
  {
    AtomStep(b, [], env);
    assert [Atom(b)] + [] == [Atom(b)];
    AtomStep(a, [AndKw, Atom(b)], env);
    assert [Atom(a)] + [AndKw, Atom(b)] == [Atom(a), AndKw, Atom(b)];
    assert [AndKw, Atom(b)][1..] == [Atom(b)];
  }

  /** NOT binds before AND, and AND before OR. */
  lemma Precedence<A>(a: A, b: A, c: A, env: A -> Truth)
    ensures Eval([Atom(a), OrKw, Atom(b), AndKw, Atom(c)], env) == Some(Or(env(a), And(env(b), env(c))))
    ensures Eval([Atom(a), AndKw, Atom(b), OrKw, Atom(c)], env) == Some(Or(And(env(a), env(b)), env(c)))
    ensures Eval([NotKw, Atom(a), AndKw, Atom(b)], env) == Some(And(Not(env(a)), env(b)))
  {
    OrBeforeAnd(a, b, c, env);
    AndBeforeOr(a, b, c, env);
    NotBeforeAnd(a, b, env);
  }

  lemma OrBeforeAnd<A>(a: A, b: A, c: A, env: A -> Truth)
    ensures Eval([Atom(a), OrKw, Atom(b), AndKw, Atom(c)], env) == Some(Or(env(a), And(env(b), env(c))))
  {
    var ts := [Atom(a), OrKw, Atom(b), AndKw, Atom(c)];
    OneStep(b, c, env);
    AtomStep(a, [OrKw, Atom(b), AndKw, Atom(c)], env);
    assert ts == [Atom(a)] + [OrKw, Atom(b), AndKw, Atom(c)];
    assert [OrKw, Atom(b), AndKw, Atom(c)] == [OrKw] + [Atom(b), AndKw, Atom(c)];
    OrStep(ts, env, env(a), And(env(b), env(c)), [Atom(b), AndKw, Atom(c)], []);
  }

  lemma AndBeforeOr<A>(a: A, b: A, c: A, env: A -> Truth)
    ensures Eval([Atom(a), AndKw, Atom(b), OrKw, Atom(c)], env) == Some(Or(And(env(a), env(b)), env(c)))
  {
    var ts := [Atom(a), AndKw, Atom(b), OrKw, Atom(c)];
    OneStep(b, c, env);
    AtomStep(a, [AndKw, Atom(b), OrKw, Atom(c)], env);
    assert ts == [Atom(a)] + [AndKw, Atom(b), OrKw, Atom(c)];
    AtomStep(b, [OrKw, Atom(c)], env);
    assert [Atom(b)] + [OrKw, Atom(c)] == [Atom(b), OrKw, Atom(c)] == [AndKw, Atom(b), OrKw, Atom(c)][1..];
    assert [OrKw, Atom(c)] == [OrKw] + [Atom(c)];
    OrStep(ts, env, And(env(a), env(b)), env(c), [Atom(c)], []);
  }

  lemma NotBeforeAnd<A>(a: A, b: A, env: A -> Truth)
    ensures Eval([NotKw, Atom(a), AndKw, Atom(b)], env) == Some(And(Not(env(a)), env(b)))
  {
    var ts := [NotKw, Atom(a), AndKw, Atom(b)];
    OneStep(a, b, env);
    AtomStep(a, [AndKw, Atom(b)], env);
    assert ts[1..] == [Atom(a)] + [AndKw, Atom(b)];
    assert EvalNot(ts, env) == Some((Not(env(a)), [AndKw, Atom(b)]));
    assert [AndKw, Atom(b)][1..] == [Atom(b)];
    assert EvalAnd(ts, env) == Some((And(Not(env(a)), env(b)), []));
  }
}
