/**
 Resolving a filter against equality lookups, as a function: which filters are
 answered, which are answered exactly, and why.
 */
module Resolution {
  import opened Wrappers
  import opened Filters
  import opened Redis
  import opened Indexes

  function RowOf(c: Cell): Row {
    if c.data.RowData? then c.data.row else map[]
  }

  /** The row's value of a field prints as `v` does: an index key cannot tell them apart. */
  predicate Prints(m: Model, row: Row, field: string, v: Value) {
    field in row && m.Segment(row[field]) == m.Segment(v)
  }

  /** The ids an equality lookup yields: the printed key itself, or the live rows whose value prints like that one. */
  ghost function Lookup(m: Model, live: map<string, Cell>, field: string, v: Value): set<string> {
    if field == m.pk then {m.IdText(v)} else set i | i in live && Prints(m, RowOf(live[i]), field, v)
  }

  /** Every row is listed under its own printed key. */
  ghost predicate Keyed(m: Model, live: map<string, Cell>) {
    forall i | i in live :: m.pk in RowOf(live[i]) && m.IdText(RowOf(live[i])[m.pk]) == i
  }

  /** Of the values the rows hold in a field, no other one prints like `v`. */
  ghost predicate Told(m: Model, live: map<string, Cell>, field: string, v: Value) {
    forall i | i in live && field in RowOf(live[i]) ::
      (if field == m.pk then m.IdText(RowOf(live[i])[field]) == m.IdText(v) else m.Segment(RowOf(live[i])[field]) == m.Segment(v)) ==>
        RowOf(live[i])[field] == v
  }

  /** A lookup finds exactly the live rows that hold the value if and only if no other value they hold prints like it. */
  lemma LookupExactIff(m: Model, live: map<string, Cell>, field: string, v: Value)
    requires Keyed(m, live)
    ensures (forall i | i in live :: i in Lookup(m, live, field, v) <==> Get(RowOf(live[i]), field) == Some(v)) <==> Told(m, live, field, v)
  {
    forall i | i in live
      ensures i in Lookup(m, live, field, v) <==>
              field in RowOf(live[i]) &&
              if field == m.pk then m.IdText(RowOf(live[i])[field]) == m.IdText(v) else Prints(m, RowOf(live[i]), field, v)
    {}
  }

  // ---- which filters are answered, and which are answered exactly ----

  /** The clause yields a set of candidates. */
  predicate Seeds(m: Model, c: Clause) {
    match c
    case And(_, subs) => exists i | 0 <= i < |subs| :: subs[i].clauses != []
    case Or(_, _) => true
    case Not(_, _) => false
    case Field(name, cond) => Searchable(m, name) && (cond.Ops? ==> cond.eq.Some? || cond.oneOf.Some?)
  }

  /** The indexes settle the filter with nothing left to check on the row. */
  predicate Closed(m: Model, w: Where) {
    forall i | 0 <= i < |w.clauses| :: ClauseClosed(m, w.clauses[i])
  }

  predicate ClauseClosed(m: Model, c: Clause) {
    match c
    case And(_, subs) => forall i | 0 <= i < |subs| :: Closed(m, subs[i])
    case Or(_, _) => true
    case Not(_, _) => false
    case Field(_, cond) => Seeds(m, c) && (cond.Ops? ==> cond.others == [])
  }

  /** A filter the adapter answers rather than rejects. */
  predicate Answerable(m: Model, w: Where) {
    w.clauses == [] ||
    ((forall i | 0 <= i < |w.clauses| :: ClauseAnswerable(m, w.clauses[i])) &&
     (exists i | 0 <= i < |w.clauses| :: Seeds(m, w.clauses[i])))
  }

  predicate ClauseAnswerable(m: Model, c: Clause) {
    match c
    case And(_, subs) => forall i | 0 <= i < |subs| :: Answerable(m, subs[i])
    case Or(_, subs) =>
      forall i | 0 <= i < |subs| :: Answerable(m, subs[i]) && subs[i].clauses != [] && Closed(m, subs[i])
    case Not(_, _) => true
    case Field(_, _) => true
  }

  /**
   The lookups the filter leads to can be relied on, over these rows.  No indexed
   condition consists of `eq` and `in` alone with a value outside the list, the one
   condition whose `in` half is dropped; and no row holds another value that prints
   like one looked up.
   */
  ghost predicate Faithful(m: Model, live: map<string, Cell>, w: Where) {
    forall i | 0 <= i < |w.clauses| :: ClauseFaithful(m, live, w.clauses[i])
  }

  ghost predicate ClauseFaithful(m: Model, live: map<string, Cell>, c: Clause) {
    match c
    case And(_, subs) => forall i | 0 <= i < |subs| :: Faithful(m, live, subs[i])
    case Or(_, subs) => forall i | 0 <= i < |subs| :: Faithful(m, live, subs[i])
    case Not(_, _) => true
    case Field(name, cond) => Searchable(m, name) ==> CondListed(cond) && forall v | v in LookedUp(cond) :: Told(m, live, name, v)
  }

  predicate CondListed(cond: Cond) {
    cond.Ops? && cond.eq.Some? && cond.oneOf.Some? && cond.others == [] ==> cond.eq.value in cond.oneOf.value
  }

  /** The values an indexed condition is answered by. */
  function LookedUp(cond: Cond): seq<Value> {
    match cond
    case Scalar(v) => [v]
    case Ops(eq, oneOf, _) => if eq.Some? then [eq.value] else if oneOf.Some? then oneOf.value else []
  }

  // ---- what resolving produces ----

  datatype QueryError = NoIndexedField | OrNotIndexed

  /** `all` is the unrestricted set; every clause of `residual` must hold as well. */
  datatype Resolved = Resolved(all: bool, ids: set<string>, residual: seq<Where>)

  /** What one clause contributes: candidate sets to intersect, clauses to re-check. */
  datatype Part = Part(sets: seq<set<string>>, residual: seq<Where>)

  ghost predicate Passes(mean: Meaning, row: Row, residual: seq<Where>) {
    forall c | c in residual :: MatchWhere(mean, row, c)
  }

  ghost predicate InAll(i: string, sets: seq<set<string>>) {
    forall x | x in sets :: i in x
  }

  lemma PassesAppend(mean: Meaning, row: Row, xs: seq<Where>, ys: seq<Where>)
    ensures Passes(mean, row, xs + ys) <==> Passes(mean, row, xs) && Passes(mean, row, ys)
  {
    assert forall c :: c in xs + ys <==> c in xs || c in ys;
  }

  lemma InAllAppend(i: string, xs: seq<set<string>>, ys: seq<set<string>>)
    ensures InAll(i, xs + ys) <==> InAll(i, xs) && InAll(i, ys)
  {
    assert forall c :: c in xs + ys <==> c in xs || c in ys;
  }

  /** A part is exact, on every live row, for clauses that must all hold. */
  ghost predicate PartExact(mean: Meaning, live: map<string, Cell>, cs: seq<Clause>, p: Part) {
    forall i | i in live ::
      (forall c | c in cs :: MatchClause(mean, RowOf(live[i]), c)) <==>
      InAll(i, p.sets) && Passes(mean, RowOf(live[i]), p.residual)
  }

  /** A resolution is exact for a filter on every live row. */
  ghost predicate Exact(mean: Meaning, live: map<string, Cell>, w: Where, r: Resolved) {
    forall i | i in live ::
      MatchWhere(mean, RowOf(live[i]), w) <==> (r.all || i in r.ids) && Passes(mean, RowOf(live[i]), r.residual)
  }


  // ---- resolution as a function of the live rows ----

  ghost function Meet(sets: seq<set<string>>): set<string>
    requires sets != []
  {
    set i | i in sets[0] && InAll(i, sets)
  }

  ghost function Resolve(m: Model, live: map<string, Cell>, w: Where): Result<Resolved, QueryError>
    decreases w, 1
  {
    if w.clauses == [] then Success(Resolved(true, {}, []))
    else
      match ResolveClauses(m, live, w.clauses)
      case Failure(e) => Failure(e)
      case Success(p) =>
        if p.sets == [] then Failure(NoIndexedField) else Success(Resolved(false, Meet(p.sets), p.residual))
  }

  ghost function ResolveClauses(m: Model, live: map<string, Cell>, cs: seq<Clause>): Result<Part, QueryError>
    decreases cs, 0
  {
    if cs == [] then Success(Part([], []))
    else
      match ResolveClauses(m, live, cs[..|cs| - 1])
      case Failure(e) => Failure(e)
      case Success(p) =>
        match ResolveOne(m, live, cs[|cs| - 1])
        case Failure(e) => Failure(e)
        case Success(q) => Success(Part(p.sets + q.sets, p.residual + q.residual))
  }

  ghost function ResolveOne(m: Model, live: map<string, Cell>, c: Clause): Result<Part, QueryError>
    decreases c, 1
  {
    match c
    case And(_, subs) => ResolveBranches(m, live, subs)
    case Or(_, subs) =>
      (match ResolveUnion(m, live, subs)
       case Failure(e) => Failure(e)
       case Success(ids) => Success(Part([ids], [])))
    case Not(_, _) => Success(Part([], [Where([c])]))
    case Field(name, cond) => Success(ResolveCond(m, live, name, cond))
  }

  ghost function ResolveBranches(m: Model, live: map<string, Cell>, subs: seq<Where>): Result<Part, QueryError>
    decreases subs, 0
  {
    if subs == [] then Success(Part([], []))
    else
      match ResolveBranches(m, live, subs[..|subs| - 1])
      case Failure(e) => Failure(e)
      case Success(p) =>
        match Resolve(m, live, subs[|subs| - 1])
        case Failure(e) => Failure(e)
        case Success(q) => Success(Part(if q.all then p.sets else p.sets + [q.ids], p.residual + q.residual))
  }

  ghost function ResolveUnion(m: Model, live: map<string, Cell>, subs: seq<Where>): Result<set<string>, QueryError>
    decreases subs, 0
  {
    if subs == [] then Success({})
    else
      match ResolveUnion(m, live, subs[..|subs| - 1])
      case Failure(e) => Failure(e)
      case Success(ids) =>
        match Resolve(m, live, subs[|subs| - 1])
        case Failure(e) => Failure(e)
        case Success(q) => if q.all || q.residual != [] then Failure(OrNotIndexed) else Success(ids + q.ids)
  }

  ghost function LookupAny(m: Model, live: map<string, Cell>, field: string, vs: seq<Value>): set<string> {
    if vs == [] then {} else LookupAny(m, live, field, vs[..|vs| - 1]) + Lookup(m, live, field, vs[|vs| - 1])
  }

  ghost function ResolveCond(m: Model, live: map<string, Cell>, name: string, cond: Cond): Part {
    var self := [Where([Field(name, cond)])];
    var eq := if cond.Scalar? then Some(cond.v) else cond.eq;
    var rest := if cond.Ops? && cond.others != [] then self else [];
    if Searchable(m, name) && eq.Some? then Part([Lookup(m, live, name, eq.value)], rest)
    else if Searchable(m, name) && cond.Ops? && cond.oneOf.Some? then Part([LookupAny(m, live, name, cond.oneOf.value)], rest)
    else Part([], self)
  }

  // ---- one more clause or branch ----

  lemma BranchesSnoc(m: Model, live: map<string, Cell>, subs: seq<Where>, i: nat, p: Part, q: Resolved)
    requires i < |subs| && ResolveBranches(m, live, subs[..i]) == Success(p) && Resolve(m, live, subs[i]) == Success(q)
    ensures ResolveBranches(m, live, subs[..i + 1]) ==
            Success(Part(if q.all then p.sets else p.sets + [q.ids], p.residual + q.residual))
  {
    assert subs[..i + 1][..i] == subs[..i];
  }

  lemma UnionSnoc(m: Model, live: map<string, Cell>, subs: seq<Where>, i: nat, ids: set<string>, q: Resolved)
    requires i < |subs| && ResolveUnion(m, live, subs[..i]) == Success(ids) && Resolve(m, live, subs[i]) == Success(q)
    requires !q.all && q.residual == []
    ensures ResolveUnion(m, live, subs[..i + 1]) == Success(ids + q.ids)
  {
    assert subs[..i + 1][..i] == subs[..i];
  }

  lemma ClausesSnoc(m: Model, live: map<string, Cell>, cs: seq<Clause>, i: nat, p: Part, q: Part)
    requires i < |cs| && ResolveClauses(m, live, cs[..i]) == Success(p) && ResolveOne(m, live, cs[i]) == Success(q)
    ensures ResolveClauses(m, live, cs[..i + 1]) == Success(Part(p.sets + q.sets, p.residual + q.residual))
  {
    assert cs[..i + 1][..i] == cs[..i];
  }

  // ---- a failure in any branch fails the whole ----

  lemma {:induction false} ClauseFailureSpreads(m: Model, live: map<string, Cell>, cs: seq<Clause>, n: nat)
    requires n <= |cs| && ResolveClauses(m, live, cs[..n]).Failure?
    ensures ResolveClauses(m, live, cs) == ResolveClauses(m, live, cs[..n])
  {
    if n < |cs| {
      var front := cs[..|cs| - 1];
      assert front[..n] == cs[..n];
      ClauseFailureSpreads(m, live, front, n);
    } else {
      assert cs[..n] == cs;
    }
  }

  lemma {:induction false} BranchFailureSpreads(m: Model, live: map<string, Cell>, subs: seq<Where>, n: nat)
    requires n <= |subs| && ResolveBranches(m, live, subs[..n]).Failure?
    ensures ResolveBranches(m, live, subs) == ResolveBranches(m, live, subs[..n])
  {
    if n < |subs| {
      var front := subs[..|subs| - 1];
      assert front[..n] == subs[..n];
      BranchFailureSpreads(m, live, front, n);
    } else {
      assert subs[..n] == subs;
    }
  }

  lemma {:induction false} UnionFailureSpreads(m: Model, live: map<string, Cell>, subs: seq<Where>, n: nat)
    requires n <= |subs| && ResolveUnion(m, live, subs[..n]).Failure?
    ensures ResolveUnion(m, live, subs) == ResolveUnion(m, live, subs[..n])
  {
    if n < |subs| {
      var front := subs[..|subs| - 1];
      assert front[..n] == subs[..n];
      UnionFailureSpreads(m, live, front, n);
    } else {
      assert subs[..n] == subs;
    }
  }

  // ---- the function is right ----

  /** A part is right for clauses that must all hold. */
  ghost predicate GoodPart(m: Model, mean: Meaning, live: map<string, Cell>, cs: seq<Clause>, p: Part) {
    && (p.sets != [] <==> exists c | c in cs :: Seeds(m, c))
    && (p.residual == [] <==> forall c | c in cs :: ClauseClosed(m, c))
    && ((forall c | c in cs :: ClauseFaithful(m, live, c)) ==> PartExact(mean, live, cs, p))
  }

  /** A resolution is right for a filter. */
  ghost predicate GoodResolved(m: Model, mean: Meaning, live: map<string, Cell>, w: Where, r: Resolved) {
    && (r.all <==> w.clauses == [])
    && (r.residual == [] <==> Closed(m, w))
    && (Faithful(m, live, w) ==> Exact(mean, live, w, r))
  }

  lemma {:induction false} ResolveIsRight(m: Model, mean: Meaning, live: map<string, Cell>, w: Where)
    requires Keyed(m, live)
    ensures Resolve(m, live, w).Success? <==> Answerable(m, w)
    ensures Resolve(m, live, w).Success? ==> GoodResolved(m, mean, live, w, Resolve(m, live, w).value)
    decreases w, 1
  {
    assert forall i | 0 <= i < |w.clauses| :: w.clauses[i] in w.clauses;
    if w.clauses != [] {
      ClausesAreRight(m, mean, live, w.clauses);
      var parts := ResolveClauses(m, live, w.clauses);
      if parts.Success? && parts.value.sets != [] {
        MeetIsRight(m, mean, live, w, parts.value);
      }
    }
  }

  lemma MeetIsRight(m: Model, mean: Meaning, live: map<string, Cell>, w: Where, p: Part)
    requires w.clauses != [] && p.sets != [] && GoodPart(m, mean, live, w.clauses, p)
    ensures GoodResolved(m, mean, live, w, Resolved(false, Meet(p.sets), p.residual))
  {
    assert forall i | 0 <= i < |w.clauses| :: w.clauses[i] in w.clauses;
    if Faithful(m, live, w) {
      assert PartExact(mean, live, w.clauses, p);
      forall i | i in live
        ensures MatchWhere(mean, RowOf(live[i]), w) <==> forall c | c in w.clauses :: MatchClause(mean, RowOf(live[i]), c)
      {}
      assert p.sets[0] in p.sets;
    }
  }

  lemma {:induction false} ClausesAreRight(m: Model, mean: Meaning, live: map<string, Cell>, cs: seq<Clause>)
    requires Keyed(m, live)
    ensures ResolveClauses(m, live, cs).Success? <==> forall c | c in cs :: ClauseAnswerable(m, c)
    ensures ResolveClauses(m, live, cs).Success? ==> GoodPart(m, mean, live, cs, ResolveClauses(m, live, cs).value)
    decreases cs, 0
  {
    if cs != [] {
      var front, c := cs[..|cs| - 1], cs[|cs| - 1];
      assert cs == front + [c];
      ClausesAreRight(m, mean, live, front);
      OneIsRight(m, mean, live, c);
      if ResolveClauses(m, live, front).Success? && ResolveOne(m, live, c).Success? {
        PartsJoin(m, mean, live, front, c, ResolveClauses(m, live, front).value, ResolveOne(m, live, c).value);
      }
    }
  }

  lemma PartsJoin(m: Model, mean: Meaning, live: map<string, Cell>, cs: seq<Clause>, c: Clause, p: Part, q: Part)
    requires GoodPart(m, mean, live, cs, p) && GoodPart(m, mean, live, [c], q)
    ensures GoodPart(m, mean, live, cs + [c], Part(p.sets + q.sets, p.residual + q.residual))
  {
    assert forall d :: d in cs + [c] <==> d in cs || d == c;
    assert c in [c] && c in cs + [c];
    if forall d | d in cs + [c] :: ClauseFaithful(m, live, d) {
      PartExactJoins(mean, live, cs, c, p, q);
    }
  }

  lemma PartExactJoins(mean: Meaning, live: map<string, Cell>, cs: seq<Clause>, c: Clause, p: Part, q: Part)
    requires PartExact(mean, live, cs, p) && PartExact(mean, live, [c], q)
    ensures PartExact(mean, live, cs + [c], Part(p.sets + q.sets, p.residual + q.residual))
  {
    assert forall d :: d in cs + [c] <==> d in cs || d in [c];
    forall i | i in live
      ensures (forall d | d in cs + [c] :: MatchClause(mean, RowOf(live[i]), d)) <==>
              InAll(i, p.sets + q.sets) && Passes(mean, RowOf(live[i]), p.residual + q.residual)
    {
      PassesAppend(mean, RowOf(live[i]), p.residual, q.residual);
      InAllAppend(i, p.sets, q.sets);
    }
  }

  lemma {:induction false} OneIsRight(m: Model, mean: Meaning, live: map<string, Cell>, c: Clause)
    requires Keyed(m, live)
    ensures ResolveOne(m, live, c).Success? <==> ClauseAnswerable(m, c)
    ensures ResolveOne(m, live, c).Success? ==> GoodPart(m, mean, live, [c], ResolveOne(m, live, c).value)
    decreases c, 1
  {
    assert c in [c];
    match c
    case And(sp, subs) =>
      BranchesAreRight(m, mean, live, subs);
      assert forall i | 0 <= i < |subs| :: subs[i] in subs;
      if ResolveBranches(m, live, subs).Success? {
        AndIsRight(m, mean, live, sp, subs, ResolveBranches(m, live, subs).value);
      }
    case Or(sp, subs) =>
      UnionIsRight(m, mean, live, subs);
      assert forall i | 0 <= i < |subs| :: subs[i] in subs;
      assert (forall w | w in subs :: BranchAnswerable(m, w)) <==> (forall i | 0 <= i < |subs| :: BranchAnswerable(m, subs[i]));
      if ResolveUnion(m, live, subs).Success? {
        OrIsRight(m, mean, live, sp, subs, ResolveUnion(m, live, subs).value);
      }
    case Not(_, _) => SelfResidual(mean, live, c);
    case Field(name, cond) => CondIsRight(m, mean, live, name, cond);
  }

  /** Keeping the whole clause as a residual is exact. */
  lemma SelfResidual(mean: Meaning, live: map<string, Cell>, c: Clause)
    ensures PartExact(mean, live, [c], Part([], [Where([c])]))
  {
    forall i | i in live
      ensures (forall d | d in [c] :: MatchClause(mean, RowOf(live[i]), d)) <==>
              InAll(i, []) && Passes(mean, RowOf(live[i]), [Where([c])])
    {
      SelfPasses(mean, RowOf(live[i]), c);
    }
  }

  lemma SelfPasses(mean: Meaning, row: Row, c: Clause)
    ensures Passes(mean, row, [Where([c])]) <==> MatchClause(mean, row, c)
  {
    var w := Where([c]);
    assert w.clauses[0] == c;
    assert MatchWhere(mean, row, w) <==> MatchClause(mean, row, c);
    assert w in [w];
  }

  /** A part is right for filters that must all hold. */
  ghost predicate GoodBranches(m: Model, mean: Meaning, live: map<string, Cell>, subs: seq<Where>, p: Part) {
    && (p.sets != [] <==> exists w | w in subs :: w.clauses != [])
    && (p.residual == [] <==> forall w | w in subs :: Closed(m, w))
    && ((forall w | w in subs :: Faithful(m, live, w)) ==> BranchesExact(mean, live, subs, p))
  }

  ghost predicate BranchesExact(mean: Meaning, live: map<string, Cell>, subs: seq<Where>, p: Part) {
    forall i | i in live ::
      (forall w | w in subs :: MatchWhere(mean, RowOf(live[i]), w)) <==>
      InAll(i, p.sets) && Passes(mean, RowOf(live[i]), p.residual)
  }

  lemma {:induction false} BranchesAreRight(m: Model, mean: Meaning, live: map<string, Cell>, subs: seq<Where>)
    requires Keyed(m, live)
    ensures ResolveBranches(m, live, subs).Success? <==> forall w | w in subs :: Answerable(m, w)
    ensures ResolveBranches(m, live, subs).Success? ==> GoodBranches(m, mean, live, subs, ResolveBranches(m, live, subs).value)
    decreases subs, 0
  {
    if subs != [] {
      var front, w := subs[..|subs| - 1], subs[|subs| - 1];
      assert subs == front + [w];
      BranchesAreRight(m, mean, live, front);
      ResolveIsRight(m, mean, live, w);
      if ResolveBranches(m, live, front).Success? && Resolve(m, live, w).Success? {
        BranchesJoin(m, mean, live, front, w, ResolveBranches(m, live, front).value, Resolve(m, live, w).value);
      }
    }
  }

  lemma BranchesJoin(m: Model, mean: Meaning, live: map<string, Cell>, subs: seq<Where>, w: Where, p: Part, q: Resolved)
    requires GoodBranches(m, mean, live, subs, p) && GoodResolved(m, mean, live, w, q)
    ensures GoodBranches(m, mean, live, subs + [w],
                         Part(if q.all then p.sets else p.sets + [q.ids], p.residual + q.residual))
  {
    assert forall v :: v in subs + [w] <==> v in subs || v == w;
    assert w in subs + [w];
    if forall v | v in subs + [w] :: Faithful(m, live, v) {
      BranchesExactJoin(mean, live, subs, w, p, q);
    }
  }

  lemma BranchesExactJoin(mean: Meaning, live: map<string, Cell>, subs: seq<Where>, w: Where, p: Part, q: Resolved)
    requires BranchesExact(mean, live, subs, p) && Exact(mean, live, w, q)
    ensures BranchesExact(mean, live, subs + [w],
                          Part(if q.all then p.sets else p.sets + [q.ids], p.residual + q.residual))
  {
    assert forall v :: v in subs + [w] <==> v in subs || v == w;
    forall i | i in live
      ensures (forall v | v in subs + [w] :: MatchWhere(mean, RowOf(live[i]), v)) <==>
              InAll(i, if q.all then p.sets else p.sets + [q.ids]) && Passes(mean, RowOf(live[i]), p.residual + q.residual)
    {
      PassesAppend(mean, RowOf(live[i]), p.residual, q.residual);
      InAllAppend(i, p.sets, [q.ids]);
      assert InAll(i, [q.ids]) <==> i in q.ids;
    }
  }

  lemma AndIsRight(m: Model, mean: Meaning, live: map<string, Cell>, sp: Spelling, subs: seq<Where>, p: Part)
    requires GoodBranches(m, mean, live, subs, p)
    ensures GoodPart(m, mean, live, [And(sp, subs)], p)
  {
    var c := And(sp, subs);
    assert c in [c];
    assert forall i | 0 <= i < |subs| :: subs[i] in subs;
    if ClauseFaithful(m, live, c) {
      forall i | i in live
        ensures (forall d | d in [c] :: MatchClause(mean, RowOf(live[i]), d)) <==>
                InAll(i, p.sets) && Passes(mean, RowOf(live[i]), p.residual)
      {
        assert MatchClause(mean, RowOf(live[i]), c) <==> forall w | w in subs :: MatchWhere(mean, RowOf(live[i]), w);
      }
    }
  }

  /** A union is right for filters of which one must hold. */
  ghost predicate UnionExact(mean: Meaning, live: map<string, Cell>, subs: seq<Where>, ids: set<string>) {
    forall i | i in live :: i in ids <==> exists w | w in subs :: MatchWhere(mean, RowOf(live[i]), w)
  }

  predicate BranchAnswerable(m: Model, w: Where) {
    Answerable(m, w) && w.clauses != [] && Closed(m, w)
  }

  lemma {:induction false} UnionIsRight(m: Model, mean: Meaning, live: map<string, Cell>, subs: seq<Where>)
    requires Keyed(m, live)
    ensures ResolveUnion(m, live, subs).Success? <==> forall w | w in subs :: BranchAnswerable(m, w)
    ensures ResolveUnion(m, live, subs).Success? && (forall w | w in subs :: Faithful(m, live, w)) ==>
              UnionExact(mean, live, subs, ResolveUnion(m, live, subs).value)
    decreases subs, 0
  {
    if subs != [] {
      var front, w := subs[..|subs| - 1], subs[|subs| - 1];
      assert subs == front + [w];
      UnionIsRight(m, mean, live, front);
      ResolveIsRight(m, mean, live, w);
      assert forall v :: v in subs <==> v in front || v == w;
      assert BranchAnswerable(m, w) <==>
             Resolve(m, live, w).Success? && !Resolve(m, live, w).value.all && Resolve(m, live, w).value.residual == [];
      if ResolveUnion(m, live, subs).Success? && forall v | v in subs :: Faithful(m, live, v) {
        UnionJoins(mean, live, front, w, ResolveUnion(m, live, front).value, Resolve(m, live, w).value);
      }
    }
  }

  lemma UnionJoins(mean: Meaning, live: map<string, Cell>, subs: seq<Where>, w: Where, ids: set<string>, q: Resolved)
    requires UnionExact(mean, live, subs, ids) && Exact(mean, live, w, q) && !q.all && q.residual == []
    ensures UnionExact(mean, live, subs + [w], ids + q.ids)
  {
    assert forall v :: v in subs + [w] <==> v in subs || v == w;
    forall i | i in live
      ensures i in ids + q.ids <==> exists v | v in subs + [w] :: MatchWhere(mean, RowOf(live[i]), v)
    {
      assert MatchWhere(mean, RowOf(live[i]), w) <==> i in q.ids;
      assert w in subs + [w];
    }
  }

  lemma OrIsRight(m: Model, mean: Meaning, live: map<string, Cell>, sp: Spelling, subs: seq<Where>, ids: set<string>)
    requires (forall w | w in subs :: Faithful(m, live, w)) ==> UnionExact(mean, live, subs, ids)
    ensures GoodPart(m, mean, live, [Or(sp, subs)], Part([ids], []))
  {
    var c := Or(sp, subs);
    assert c in [c];
    assert forall i | 0 <= i < |subs| :: subs[i] in subs;
    if ClauseFaithful(m, live, c) {
      forall i | i in live
        ensures (forall d | d in [c] :: MatchClause(mean, RowOf(live[i]), d)) <==>
                InAll(i, [ids]) && Passes(mean, RowOf(live[i]), [])
      {
        assert InAll(i, [ids]) <==> i in ids;
        assert MatchClause(mean, RowOf(live[i]), c) <==> exists w | w in subs :: MatchWhere(mean, RowOf(live[i]), w);
      }
    }
  }

  lemma {:induction false} LookupAnyExact(m: Model, live: map<string, Cell>, f: string, vs: seq<Value>)
    requires Keyed(m, live) && forall v | v in vs :: Told(m, live, f, v)
    ensures forall i | i in live ::
              i in LookupAny(m, live, f, vs) <==> Get(RowOf(live[i]), f).Some? && Get(RowOf(live[i]), f).value in vs
  {
    if vs != [] {
      LookupAnyExact(m, live, f, vs[..|vs| - 1]);
      LookupExactIff(m, live, f, vs[|vs| - 1]);
      assert vs == vs[..|vs| - 1] + [vs[|vs| - 1]];
    }
  }

  lemma CondIsRight(m: Model, mean: Meaning, live: map<string, Cell>, name: string, cond: Cond)
    requires Keyed(m, live)
    ensures GoodPart(m, mean, live, [Field(name, cond)], ResolveCond(m, live, name, cond))
  {
    var c := Field(name, cond);
    assert c in [c];
    SelfResidual(mean, live, c);
    if ClauseFaithful(m, live, c) {
      CondIsExact(m, mean, live, name, cond);
    }
  }

  lemma CondIsExact(m: Model, mean: Meaning, live: map<string, Cell>, name: string, cond: Cond)
    requires Keyed(m, live) && ClauseFaithful(m, live, Field(name, cond))
    ensures PartExact(mean, live, [Field(name, cond)], ResolveCond(m, live, name, cond))
  {
    var c := Field(name, cond);
    assert c in [c];
    forall i | i in live
      ensures (forall d | d in [c] :: MatchClause(mean, RowOf(live[i]), d)) <==>
              InAll(i, ResolveCond(m, live, name, cond).sets) && Passes(mean, RowOf(live[i]), ResolveCond(m, live, name, cond).residual)
    {
      CondExactAt(m, mean, live, name, cond, i);
    }
  }

  lemma CondExactAt(m: Model, mean: Meaning, live: map<string, Cell>, name: string, cond: Cond, i: string)
    requires Keyed(m, live) && i in live && ClauseFaithful(m, live, Field(name, cond))
    ensures var p := ResolveCond(m, live, name, cond);
            MatchCond(mean, Get(RowOf(live[i]), name), cond) <==>
            InAll(i, p.sets) && Passes(mean, RowOf(live[i]), p.residual)
  {
    var p := ResolveCond(m, live, name, cond);
    SelfPasses(mean, RowOf(live[i]), Field(name, cond));
    if p.sets != [] {
      assert p.sets == [p.sets[0]];
      assert InAll(i, p.sets) <==> i in p.sets[0];
      var eq := if cond.Scalar? then Some(cond.v) else cond.eq;
      if eq.Some? {
        assert eq.value in LookedUp(cond);
        LookupExactIff(m, live, name, eq.value);
      } else {
        LookupAnyExact(m, live, name, cond.oneOf.value);
      }
    }
  }

  /**
   The exemption is exact for a filter of one `eq`-and-`in` condition on any
   indexed field, unique field or primary key: resolving it is exact on every set
   of rows that hold no other value printing like that one if and only if the
   value is listed.
   */
  lemma DroppedInIff(m: Model, mean: Meaning, field: string, v: Value, vs: seq<Value>)
    requires Searchable(m, field)
    ensures var cond := Ops(Some(v), Some(vs), []);
            (forall live: map<string, Cell> | Keyed(m, live) && Told(m, live, field, v) ::
               PartExact(mean, live, [Field(field, cond)], ResolveCond(m, live, field, cond)))
            <==> v in vs
  {
    var cond := Ops(Some(v), Some(vs), []);
    var c := Field(field, cond);
    if v !in vs {
      var row: Row := map[m.pk := Null][field := v];
      var id := m.IdText(row[m.pk]);
      var live := map[id := Cell(RowData(row), Never)];
      assert Keyed(m, live) && Told(m, live, field, v);
      assert c in [c];
      assert id in Lookup(m, live, field, v);
      assert InAll(id, ResolveCond(m, live, field, cond).sets);
      assert !PartExact(mean, live, [c], ResolveCond(m, live, field, cond));
    } else {
      forall live: map<string, Cell> | Keyed(m, live) && Told(m, live, field, v)
        ensures PartExact(mean, live, [c], ResolveCond(m, live, field, cond))
      {
        CondIsExact(m, mean, live, field, cond);
      }
    }
  }

  // ---- what a filter selects ----

  /** The ids of the live rows that satisfy the filter. */
  ghost function Matching(mean: Meaning, live: map<string, Cell>, w: Where): set<string> {
    set i | i in live && MatchWhere(mean, RowOf(live[i]), w)
  }

  /** The ids resolving the filter leaves; none when it is not answered. */
  ghost function Selected(m: Model, mean: Meaning, live: map<string, Cell>, w: Where): set<string> {
    match Resolve(m, live, w)
    case Failure(_) => {}
    case Success(r) => set i | i in live && (r.all || i in r.ids) && Passes(mean, RowOf(live[i]), r.residual)
  }

  /** Where its lookups can be relied on, an answered filter selects exactly the rows that satisfy it. */
  lemma SelectedIsMatching(m: Model, mean: Meaning, live: map<string, Cell>, w: Where)
    requires Keyed(m, live) && Answerable(m, w) && Faithful(m, live, w)
    ensures Selected(m, mean, live, w) == Matching(mean, live, w)
  {
    ResolveIsRight(m, mean, live, w);
  }

  // ---- the answers to some filters, in terms of the rows ----

  /** `{field: v, other: {op: u}}`, an equality beside one more operator. */
  function Beside(field: string, v: Value, other: string, op: Op): Where {
    Where([Field(field, Scalar(v)), Field(other, Ops(None, None, [op]))])
  }

  lemma BesideMatches(mean: Meaning, row: Row, field: string, v: Value, other: string, op: Op)
    ensures MatchWhere(mean, row, Beside(field, v, other, op)) <==>
            Get(row, field) == Some(v) && MatchWhere(mean, row, Operator(other, op))
  {
    var w := Beside(field, v, other, op);
    ClausesMean(mean, row, w.clauses);
    assert w.clauses[0] == Field(field, Scalar(v)) && w.clauses[1] == Field(other, Ops(None, None, [op]));
    assert Where(w.clauses) == w;
    MatchEquals(mean, row, field, v);
  }

  /**
   An equality on a key, indexed or unique field beside `ne`, `is` or `notIn` on any
   field selects the rows that hold the value and whose other field is not, is, or
   is none of, what is named.
   */
  lemma BesideSelects(m: Model, mean: Meaning, live: map<string, Cell>, field: string, v: Value, other: string, u: Value, us: seq<Value>)
    requires Keyed(m, live) && (field == m.pk || field in m.indexes || field in m.uniques) && Told(m, live, field, v)
    ensures Answerable(m, Beside(field, v, other, Ne(u))) && Answerable(m, Beside(field, v, other, Is(u)))
    ensures Answerable(m, Beside(field, v, other, NotIn(us)))
    ensures Selected(m, mean, live, Beside(field, v, other, Ne(u))) ==
            set i | i in live && Get(RowOf(live[i]), field) == Some(v) && Get(RowOf(live[i]), other) != Some(u)
    ensures Selected(m, mean, live, Beside(field, v, other, Is(u))) ==
            set i | i in live && Get(RowOf(live[i]), field) == Some(v) && Get(RowOf(live[i]), other) == Some(u)
    ensures Selected(m, mean, live, Beside(field, v, other, NotIn(us))) ==
            set i | i in live && Get(RowOf(live[i]), field) == Some(v) && forall x | x in us :: Get(RowOf(live[i]), other) != Some(x)
  {
    forall op ensures Answerable(m, Beside(field, v, other, op)) && Selected(m, mean, live, Beside(field, v, other, op)) == Matching(mean, live, Beside(field, v, other, op)) {
      var w := Beside(field, v, other, op);
      assert w.clauses[0] == Field(field, Scalar(v)) && w.clauses[1] == Field(other, Ops(None, None, [op]));
      assert Seeds(m, w.clauses[0]);
      assert Faithful(m, live, w);
      SelectedIsMatching(m, mean, live, w);
    }
    forall i | i in live
      ensures MatchWhere(mean, RowOf(live[i]), Beside(field, v, other, Ne(u))) <==>
              Get(RowOf(live[i]), field) == Some(v) && Get(RowOf(live[i]), other) != Some(u)
      ensures MatchWhere(mean, RowOf(live[i]), Beside(field, v, other, Is(u))) <==>
              Get(RowOf(live[i]), field) == Some(v) && Get(RowOf(live[i]), other) == Some(u)
      ensures MatchWhere(mean, RowOf(live[i]), Beside(field, v, other, NotIn(us))) <==>
              Get(RowOf(live[i]), field) == Some(v) && forall x | x in us :: Get(RowOf(live[i]), other) != Some(x)
    {
      BesideMeans(mean, RowOf(live[i]), field, v, other, u, us);
    }
  }

  lemma BesideMeans(mean: Meaning, row: Row, field: string, v: Value, other: string, u: Value, us: seq<Value>)
    ensures MatchWhere(mean, row, Beside(field, v, other, Ne(u))) <==> Get(row, field) == Some(v) && Get(row, other) != Some(u)
    ensures MatchWhere(mean, row, Beside(field, v, other, Is(u))) <==> Get(row, field) == Some(v) && Get(row, other) == Some(u)
    ensures MatchWhere(mean, row, Beside(field, v, other, NotIn(us))) <==>
            Get(row, field) == Some(v) && forall x | x in us :: Get(row, other) != Some(x)
  {
    BesideMatches(mean, row, field, v, other, Ne(u));
    BesideMatches(mean, row, field, v, other, Is(u));
    BesideMatches(mean, row, field, v, other, NotIn(us));
    OperatorsMean(mean, row, other, u, us, "");
  }

  /** `{or: [{f: v}, {g: u}]}`. */
  function Either(s: Spelling, f: string, v: Value, g: string, u: Value): Where {
    Where([Or(s, [Equals(f, v), Equals(g, u)])])
  }

  /** An `or` of two such equalities, in any spelling, is answered, with the rows that hold either value. */
  lemma EitherSelects(m: Model, mean: Meaning, live: map<string, Cell>, s: Spelling, f: string, v: Value, g: string, u: Value)
    requires Keyed(m, live) && Searchable(m, f) && Searchable(m, g) && Told(m, live, f, v) && Told(m, live, g, u)
    ensures Answerable(m, Either(s, f, v, g, u))
    ensures Selected(m, mean, live, Either(s, f, v, g, u)) ==
            set i | i in live && (Get(RowOf(live[i]), f) == Some(v) || Get(RowOf(live[i]), g) == Some(u))
  {
    var subs, w := [Equals(f, v), Equals(g, u)], Either(s, f, v, g, u);
    assert w.clauses[0] == Or(s, subs);
    forall i | 0 <= i < |subs|
      ensures Answerable(m, subs[i]) && Closed(m, subs[i]) && Faithful(m, live, subs[i]) && subs[i].clauses != []
    {
      assert Seeds(m, subs[i].clauses[0]);
    }
    assert Seeds(m, w.clauses[0]);
    SelectedIsMatching(m, mean, live, w);
    forall i | i in live
      ensures MatchWhere(mean, RowOf(live[i]), w) <==> Get(RowOf(live[i]), f) == Some(v) || Get(RowOf(live[i]), g) == Some(u)
    {
      CombinatorsMean(mean, RowOf(live[i]), s, subs, w);
      MatchEquals(mean, RowOf(live[i]), f, v);
      MatchEquals(mean, RowOf(live[i]), g, u);
    }
  }

  /** A condition on a field that is neither key, indexed nor unique, or a negation, is rejected on its own; an `or` with it is too. */
  lemma Unindexed(m: Model, live: map<string, Cell>, field: string, cond: Cond, s: Spelling, sub: Where)
    requires field != m.pk && field !in m.indexes && field !in m.uniques
    ensures Resolve(m, live, Where([Field(field, cond)])) == Failure(NoIndexedField)
    ensures Resolve(m, live, Where([Not(s, sub)])) == Failure(NoIndexedField)
    ensures Resolve(m, live, Where([Or(s, [Where([Field(field, cond)])])])) == Failure(NoIndexedField)
    ensures Resolve(m, live, Where([Or(s, [Where([])])])) == Failure(OrNotIndexed)
  {
    OnlyClause(m, live, Field(field, cond));
    OnlyClause(m, live, Not(s, sub));
    OnlyBranch(m, live, Where([Field(field, cond)]));
    OnlyBranch(m, live, Where([]));
    OnlyClause(m, live, Or(s, [Where([Field(field, cond)])]));
    OnlyClause(m, live, Or(s, [Where([])]));
  }

  lemma OnlyClause(m: Model, live: map<string, Cell>, c: Clause)
    ensures ResolveOne(m, live, c).Failure? ==> Resolve(m, live, Where([c])) == Failure(ResolveOne(m, live, c).error)
    ensures ResolveOne(m, live, c).Success? && ResolveOne(m, live, c).value.sets == [] ==> Resolve(m, live, Where([c])) == Failure(NoIndexedField)
  {
    var cs := Where([c]).clauses;
    assert cs[..|cs| - 1] == [] && cs[|cs| - 1] == c;
    assert ResolveClauses(m, live, []) == Success(Part([], []));
    if ResolveOne(m, live, c).Success? {
      assert [] + ResolveOne(m, live, c).value.sets == ResolveOne(m, live, c).value.sets;
    }
  }

  lemma OnlyBranch(m: Model, live: map<string, Cell>, w: Where)
    ensures Resolve(m, live, w).Failure? ==> ResolveUnion(m, live, [w]) == Failure(Resolve(m, live, w).error)
    ensures w.clauses == [] ==> ResolveUnion(m, live, [w]) == Failure(OrNotIndexed)
  {
    assert [w][..0] == [];
  }
}
