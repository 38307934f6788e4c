/**
 Rows, portable filters, and what it means for a row to satisfy a filter.

 A filter is the JSON object the engine passes around: a list of clauses that
 must all hold.  A clause is a combinator (in any spelling of its key) or a
 condition on one field.
 */
module Filters {
  import opened Wrappers

  datatype Value = Null | Bool(b: bool) | Int(n: int) | Str(s: string)

  type Row = map<string, Value>

  /** How a combinator's key is written: `and`, or one of `AND`, `And`, ... */
  datatype Spelling = Lower | Variant(n: nat)

  datatype Where = Where(clauses: seq<Clause>)

  datatype Clause =
    | And(spelling: Spelling, subs: seq<Where>)
    | Or(spelling: Spelling, subs: seq<Where>)
    | Not(spelling: Spelling, sub: Where)
    | Field(name: string, cond: Cond)

  /** A bare value, or a bag of operators with at most one `eq` and one `in`. */
  datatype Cond =
    | Scalar(v: Value)
    | Ops(eq: Option<Value>, oneOf: Option<seq<Value>>, others: seq<Op>)

  datatype Op =
    | Ne(v: Value)
    | Is(v: Value)
    | NotIn(vs: seq<Value>)
    | Relational(name: string, target: Value)

  /**
   The meaning of the operators whose result depends on JavaScript coercion or on
   pattern matching (`gt`, `like`, `startsWith`, ...).  Everything here is stated
   for every such meaning.
   */
  type Meaning = (string, Option<Value>, Value) -> bool

  /** A field's value; `None` is the absent (`undefined`) field. */
  function Get(row: Row, field: string): Option<Value> {
    if field in row then Some(row[field]) else None
  }

  predicate MatchOp(mean: Meaning, value: Option<Value>, op: Op) {
    match op
    case Ne(v) => value != Some(v)
    case Is(v) => value == Some(v)
    case NotIn(vs) => !(value.Some? && value.value in vs)
    case Relational(name, target) => mean(name, value, target)
  }

  predicate MatchCond(mean: Meaning, value: Option<Value>, cond: Cond) {
    match cond
    case Scalar(v) => value == Some(v)
    case Ops(eq, oneOf, others) =>
      && (eq.Some? ==> value == eq)
      && (oneOf.Some? ==> value.Some? && value.value in oneOf.value)
      && forall op | op in others :: MatchOp(mean, value, op)
  }

  predicate MatchWhere(mean: Meaning, row: Row, where: Where) {
    forall i | 0 <= i < |where.clauses| :: MatchClause(mean, row, where.clauses[i])
  }

  predicate MatchClause(mean: Meaning, row: Row, clause: Clause) {
    match clause
    case And(_, subs) => forall i | 0 <= i < |subs| :: MatchWhere(mean, row, subs[i])
    case Or(_, subs) => exists i | 0 <= i < |subs| :: MatchWhere(mean, row, subs[i])
    case Not(_, sub) => !MatchWhere(mean, row, sub)
    case Field(name, cond) => MatchCond(mean, Get(row, name), cond)
  }

  /** A filter of one equality, as `{field: value}`. */
  function Equals(field: string, v: Value): Where {
    Where([Field(field, Scalar(v))])
  }

  lemma MatchEquals(mean: Meaning, row: Row, field: string, v: Value)
    ensures MatchWhere(mean, row, Equals(field, v)) <==> Get(row, field) == Some(v)
  {
    assert Equals(field, v).clauses[0] == Field(field, Scalar(v));
  }

  // ---- what the parts of a filter ask, in terms of the row ----

  lemma GetMeans(row: Row, field: string, v: Value)
    ensures Get(row, field) == Some(v) <==> field in row && row[field] == v
    ensures Get(row, field) == None <==> field !in row
  {}

  /** A filter of one operator on one field, as `{field: {op: value}}`. */
  function Operator(field: string, op: Op): Where {
    Where([Field(field, Ops(None, None, [op]))])
  }

  lemma OneClause(mean: Meaning, row: Row, c: Clause)
    ensures MatchWhere(mean, row, Where([c])) <==> MatchClause(mean, row, c)
  {
    assert Where([c]).clauses[0] == c;
  }

  /**
   Each operator alone: `ne` and `notIn` admit a row without the field, `is`, `eq`
   and `in` do not; a coerced operator asks the meaning it is given.
   */
  lemma OperatorsMean(mean: Meaning, row: Row, field: string, v: Value, vs: seq<Value>, name: string)
    ensures MatchWhere(mean, row, Operator(field, Ne(v))) <==> !(field in row && row[field] == v)
    ensures MatchWhere(mean, row, Operator(field, Is(v))) <==> field in row && row[field] == v
    ensures MatchWhere(mean, row, Operator(field, NotIn(vs))) <==> !(field in row && row[field] in vs)
    ensures MatchWhere(mean, row, Operator(field, Relational(name, v))) <==> mean(name, if field in row then Some(row[field]) else None, v)
    ensures MatchWhere(mean, row, Where([Field(field, Scalar(v))])) <==> field in row && row[field] == v
    ensures MatchWhere(mean, row, Where([Field(field, Ops(Some(v), None, []))])) <==> field in row && row[field] == v
    ensures MatchWhere(mean, row, Where([Field(field, Ops(None, Some(vs), []))])) <==> field in row && row[field] in vs
  {
    OneClause(mean, row, Field(field, Scalar(v)));
    OneClause(mean, row, Field(field, Ops(Some(v), None, [])));
    OneClause(mean, row, Field(field, Ops(None, Some(vs), [])));
    OperatorAlone(mean, row, field, Ne(v));
    OperatorAlone(mean, row, field, Is(v));
    OperatorAlone(mean, row, field, NotIn(vs));
    OperatorAlone(mean, row, field, Relational(name, v));
  }

  lemma OperatorAlone(mean: Meaning, row: Row, field: string, op: Op)
    ensures MatchWhere(mean, row, Operator(field, op)) <==> MatchOp(mean, Get(row, field), op)
  {
    OneClause(mean, row, Field(field, Ops(None, None, [op])));
    assert op in [op];
  }

  /** Several operators on one field must all hold. */
  lemma BagMeans(mean: Meaning, row: Row, field: string, eq: Option<Value>, oneOf: Option<seq<Value>>, others: seq<Op>)
    ensures MatchWhere(mean, row, Where([Field(field, Ops(eq, oneOf, others))])) <==>
            && (eq.Some? ==> field in row && row[field] == eq.value)
            && (oneOf.Some? ==> field in row && row[field] in oneOf.value)
            && (forall op | op in others :: MatchWhere(mean, row, Operator(field, op)))
  {
    OneClause(mean, row, Field(field, Ops(eq, oneOf, others)));
    forall op | op in others ensures MatchWhere(mean, row, Operator(field, op)) <==> MatchOp(mean, Get(row, field), op) {
      OperatorAlone(mean, row, field, op);
    }
  }

  /** `and`, `or` and `not`, in any spelling. */
  lemma CombinatorsMean(mean: Meaning, row: Row, s: Spelling, subs: seq<Where>, sub: Where)
    ensures MatchWhere(mean, row, Where([And(s, subs)])) <==> forall w | w in subs :: MatchWhere(mean, row, w)
    ensures MatchWhere(mean, row, Where([Or(s, subs)])) <==> exists w :: w in subs && MatchWhere(mean, row, w)
    ensures MatchWhere(mean, row, Where([Not(s, sub)])) <==> !MatchWhere(mean, row, sub)
  {
    OneClause(mean, row, And(s, subs));
    OneClause(mean, row, Or(s, subs));
    OneClause(mean, row, Not(s, sub));
    assert forall i | 0 <= i < |subs| :: subs[i] in subs;
  }

  /** A filter of several clauses asks for each of them. */
  lemma ClausesMean(mean: Meaning, row: Row, cs: seq<Clause>)
    ensures MatchWhere(mean, row, Where(cs)) <==> forall c | c in cs :: MatchWhere(mean, row, Where([c]))
  {
    assert Where(cs).clauses == cs;
    forall c ensures MatchWhere(mean, row, Where([c])) <==> MatchClause(mean, row, c) {
      OneClause(mean, row, c);
    }
    assert forall i | 0 <= i < |cs| :: cs[i] in cs;
  }
}
