/**
 The structures derived from a model's rows: the id list, equality indexes,
 unique keys and the per-id membership set, and the code that maintains them.
 */
module Indexes {
  import opened Wrappers
  import opened Filters
  import opened Redis
  import opened Overlay
  import opened Executors

  /**
   A registered model: its primary key, its indexed and unique fields, how a
   value is printed into an index key and how a primary-key value is printed.
   */
  datatype Model = Model(
    name: string, pk: string, indexes: seq<string>, uniques: seq<string>,
    encode: Value -> string, text: Value -> string)
  {
    function Segment(v: Value): string { encode(v) }
    function IdText(v: Value): string { text(v) }
  }

  predicate Searchable(m: Model, field: string) {
    field == m.pk || field in m.indexes || field in m.uniques
  }

  /** A row puts its id under index or unique key `k`. */
  predicate Wants(m: Model, row: Row, k: Key) {
    && k.model == m.name
    && ((k.Index? && k.field in m.indexes) || (k.Unique? && k.field in m.uniques))
    && k.field in row
    && m.Segment(row[k.field]) == k.segment
  }

  /** By fields: one index key per indexed field the row has and one unique key per unique field, under its printed value. */
  lemma WantsMeans(m: Model, row: Row, k: Key)
    ensures Wants(m, row, k) <==>
            exists f :: f in row && ((f in m.indexes && k == Index(m.name, f, m.encode(row[f]))) || (f in m.uniques && k == Unique(m.name, f, m.encode(row[f]))))
  {
    if Wants(m, row, k) {
      assert k.field in row && k.segment == m.encode(row[k.field]);
    }
  }

  datatype IndexPlan = IndexPlan(equality: seq<Key>, unique: seq<Key>)

  /** The plan lists exactly the index and unique keys the row wants. */
  ghost predicate Plans(m: Model, row: Row, plan: IndexPlan) {
    && (forall k :: k in plan.equality <==> k.Index? && Wants(m, row, k))
    && (forall k :: k in plan.unique <==> k.Unique? && Wants(m, row, k))
  }

  method PlanIndexes(m: Model, row: Row) returns (plan: IndexPlan)
    ensures Plans(m, row, plan)
  {
    var equality: seq<Key> := [];
    for i := 0 to |m.indexes|
      invariant forall k :: k in equality <==> k.Index? && Wants(m, row, k) && k.field in m.indexes[..i]
    {
      var field := m.indexes[i];
      if field in row {
        equality := equality + [Index(m.name, field, m.Segment(row[field]))];
      }
      assert m.indexes[..i + 1] == m.indexes[..i] + [field];
    }
    assert m.indexes[..|m.indexes|] == m.indexes;
    var unique: seq<Key> := [];
    for i := 0 to |m.uniques|
      invariant forall k :: k in unique <==> k.Unique? && Wants(m, row, k) && k.field in m.uniques[..i]
    {
      var field := m.uniques[i];
      if field in row {
        unique := unique + [Unique(m.name, field, m.Segment(row[field]))];
      }
      assert m.uniques[..i + 1] == m.uniques[..i] + [field];
    }
    assert m.uniques[..|m.uniques|] == m.uniques;
    plan := IndexPlan(equality, unique);
  }

  // ---- one kind of write over a list of keys ----

  /** Nothing the caller of an executor can observe changed except the view. */
  ghost predicate Steady(ex: Executor, base: Db, now: int)
    reads ex.Repr()
  {
    ex.Valid() && ex.Now() == now && Shaped(ex.View()) && (ex.Buffered? ==> ex.Store().db == base)
  }

  lemma PrefixSnoc(ks: seq<Key>, i: nat)
    requires i < |ks|
    ensures forall k :: k in ks[..i + 1] <==> k in ks[..i] || k == ks[i]
  {
    assert ks[..i + 1] == ks[..i] + [ks[i]];
  }

  method ZAddEach(ex: Executor, ks: seq<Key>, score: Score, id: string)
    requires ex.Valid() && Shaped(ex.View()) && forall k | k in ks :: k.Index?
    modifies ex.Repr()
    ensures Steady(ex, old(ex.Store().db), old(ex.Now()))
    ensures forall k :: CellAt(ex.View(), k) == CellAt(old(ex.View()), k)
    ensures forall k, x :: InSet(ex.View(), k, x) <==> InSet(old(ex.View()), k, x)
    ensures forall k, j :: ZScore(ex.View(), k, j) == if j == id && k in ks then Some(score) else ZScore(old(ex.View()), k, j)
    ensures forall j :: ex.Dropped(j) <==> old(ex.Dropped(j))
  {
    for i := 0 to |ks|
      invariant Steady(ex, old(ex.Store().db), old(ex.Now()))
      invariant forall k :: CellAt(ex.View(), k) == CellAt(old(ex.View()), k)
      invariant forall k, x :: InSet(ex.View(), k, x) <==> InSet(old(ex.View()), k, x)
      invariant forall k, j :: ZScore(ex.View(), k, j) == if j == id && k in ks[..i] then Some(score) else ZScore(old(ex.View()), k, j)
      invariant forall j :: ex.Dropped(j) <==> old(ex.Dropped(j))
    {
      PrefixSnoc(ks, i);
      ex.Issue(ZAddTo(ks[i], score, id));
    }
    assert ks[..|ks|] == ks;
  }

  method ZRemEach(ex: Executor, ks: seq<Key>, id: string)
    requires ex.Valid() && Shaped(ex.View()) && forall k | k in ks :: k.Index?
    modifies ex.Repr()
    ensures Steady(ex, old(ex.Store().db), old(ex.Now()))
    ensures forall k :: CellAt(ex.View(), k) == CellAt(old(ex.View()), k)
    ensures forall k, x :: InSet(ex.View(), k, x) <==> InSet(old(ex.View()), k, x)
    ensures forall k, j :: ZScore(ex.View(), k, j) == if j == id && k in ks then None else ZScore(old(ex.View()), k, j)
    ensures forall j :: ex.Dropped(j) <==> old(ex.Dropped(j))
  {
    for i := 0 to |ks|
      invariant Steady(ex, old(ex.Store().db), old(ex.Now()))
      invariant forall k :: CellAt(ex.View(), k) == CellAt(old(ex.View()), k)
      invariant forall k, x :: InSet(ex.View(), k, x) <==> InSet(old(ex.View()), k, x)
      invariant forall k, j :: ZScore(ex.View(), k, j) == if j == id && k in ks[..i] then None else ZScore(old(ex.View()), k, j)
      invariant forall j :: ex.Dropped(j) <==> old(ex.Dropped(j))
    {
      PrefixSnoc(ks, i);
      ex.Issue(ZRemFrom(ks[i], id));
    }
    assert ks[..|ks|] == ks;
  }

  /** Point every unique key at `id`. */
  method PutEach(ex: Executor, ks: seq<Key>, id: string, ttl: Option<int>)
    requires ex.Valid() && Shaped(ex.View()) && forall k | k in ks :: k.Unique?
    requires ex.Buffered? ==> ttl.None? || ttl.value <= 0
    modifies ex.Repr()
    ensures Steady(ex, old(ex.Store().db), old(ex.Now()))
    ensures forall k :: CellAt(ex.View(), k) ==
              if k in ks then Some(Cell(IdData(id), Deadline(ttl, ex.Now()))) else CellAt(old(ex.View()), k)
    ensures forall k, x :: InSet(ex.View(), k, x) <==> InSet(old(ex.View()), k, x)
    ensures forall k, j :: ZScore(ex.View(), k, j) == ZScore(old(ex.View()), k, j)
    ensures forall j :: ex.Dropped(j) <==> old(ex.Dropped(j))
  {
    for i := 0 to |ks|
      invariant Steady(ex, old(ex.Store().db), old(ex.Now()))
      invariant forall k :: CellAt(ex.View(), k) ==
                  if k in ks[..i] then Some(Cell(IdData(id), Deadline(ttl, ex.Now()))) else CellAt(old(ex.View()), k)
      invariant forall k, x :: InSet(ex.View(), k, x) <==> InSet(old(ex.View()), k, x)
      invariant forall k, j :: ZScore(ex.View(), k, j) == ZScore(old(ex.View()), k, j)
      invariant forall j :: ex.Dropped(j) <==> old(ex.Dropped(j))
    {
      PrefixSnoc(ks, i);
      ex.Issue(PutStr(ks[i], IdData(id), ttl));
    }
    assert ks[..|ks|] == ks;
  }

  method DelEach(ex: Executor, ks: seq<Key>)
    requires ex.Valid() && Shaped(ex.View()) && forall k | k in ks :: k.Unique?
    modifies ex.Repr()
    ensures Steady(ex, old(ex.Store().db), old(ex.Now()))
    ensures forall k :: CellAt(ex.View(), k) == if k in ks then None else CellAt(old(ex.View()), k)
    ensures forall k, x :: InSet(ex.View(), k, x) <==> InSet(old(ex.View()), k, x)
    ensures forall k, j :: ZScore(ex.View(), k, j) == ZScore(old(ex.View()), k, j)
    ensures forall j: Key :: !j.Unique? ==> (ex.Dropped(j) <==> old(ex.Dropped(j)))
  {
    for i := 0 to |ks|
      invariant Steady(ex, old(ex.Store().db), old(ex.Now()))
      invariant forall k :: CellAt(ex.View(), k) == if k in ks[..i] then None else CellAt(old(ex.View()), k)
      invariant forall k, x :: InSet(ex.View(), k, x) <==> InSet(old(ex.View()), k, x)
      invariant forall k, j :: ZScore(ex.View(), k, j) == ZScore(old(ex.View()), k, j)
      invariant forall j: Key :: !j.Unique? ==> (ex.Dropped(j) <==> old(ex.Dropped(j)))
    {
      PrefixSnoc(ks, i);
      ex.Issue(DelStr(ks[i]));
    }
    assert ks[..|ks|] == ks;
  }

  // ---- the maintenance routines ----

  method AddToIndexes(ex: Executor, m: Model, id: string, plan: IndexPlan, score: Score, ttl: Option<int>)
    requires ex.Valid() && Shaped(ex.View())
    requires (forall k | k in plan.equality :: k.Index?) && (forall k | k in plan.unique :: k.Unique?)
    requires ex.Buffered? ==> ttl.None? || ttl.value <= 0
    modifies ex.Repr()
    ensures Steady(ex, old(ex.Store().db), old(ex.Now()))
    ensures forall k :: CellAt(ex.View(), k) ==
              if k in plan.unique then Some(Cell(IdData(id), Deadline(ttl, ex.Now()))) else CellAt(old(ex.View()), k)
    ensures forall k, j :: ZScore(ex.View(), k, j) ==
              if j == id && (k == Ids(m.name) || k in plan.equality) then Some(score) else ZScore(old(ex.View()), k, j)
    ensures forall k, x :: InSet(ex.View(), k, x) <==>
              (k == Member(m.name, id) && x in plan.equality + plan.unique) || InSet(old(ex.View()), k, x)
    ensures forall j :: ex.Dropped(j) <==> old(ex.Dropped(j))
  {
    ex.Issue(ZAddTo(Ids(m.name), score, id));
    ZAddEach(ex, plan.equality, score, id);
    PutEach(ex, plan.unique, id, ttl);
    var membership := plan.equality + plan.unique;
    if membership != [] {
      ex.Issue(SAddTo(Member(m.name, id), set j | j in membership));
    }
  }

  /** What remains once `id` is gone from everything its membership set lists. */
  ghost predicate Removed(a: Db, b: Db, m: Model, id: string) {
    var own := Member(m.name, id);
    && (forall k :: CellAt(b, k) == if k.Unique? && InSet(a, own, k) then None else CellAt(a, k))
    && (forall k, j :: ZScore(b, k, j) ==
          if j == id && (k == Ids(m.name) || (k.Index? && InSet(a, own, k))) then None else ZScore(a, k, j))
    && (forall k, x :: InSet(b, k, x) <==> k != Member(m.name, id) && InSet(a, k, x))
  }

  method RemoveFromIndexes(ex: Executor, m: Model, id: string)
    requires ex.Valid() && Shaped(ex.View())
    requires !ex.Dropped(Member(m.name, id))
    requires forall k | InSet(ex.View(), Member(m.name, id), k) :: k.Index? || k.Unique?
    modifies ex.Repr()
    ensures Steady(ex, old(ex.Store().db), old(ex.Now()))
    ensures Removed(old(ex.View()), ex.View(), m, id)
    ensures forall j: Key :: j.Member? && j != Member(m.name, id) ==> (ex.Dropped(j) <==> old(ex.Dropped(j)))
  {
    var members := ex.SMembers(Member(m.name, id));
    assert forall k :: k in members <==> InSet(ex.View(), Member(m.name, id), k);
    RemoveMembers(ex, id, members);
    ex.Issue(ZRemFrom(Ids(m.name), id));
    ex.Issue(DelStr(Member(m.name, id)));
  }

  /** The memberships `gone` of an id undone: unique keys dropped, index sets left. */
  ghost predicate Undone(a: Db, b: Db, id: string, gone: set<Key>) {
    && (forall k :: CellAt(b, k) == if k.Unique? && k in gone then None else CellAt(a, k))
    && (forall k, j :: ZScore(b, k, j) == if j == id && k.Index? && k in gone then None else ZScore(a, k, j))
    && (forall k, x :: InSet(b, k, x) <==> InSet(a, k, x))
  }

  function Undoing(k: Key, id: string): Write {
    if k.Unique? then DelStr(k) else ZRemFrom(k, id)
  }

  lemma UndoneStep(a: Db, b: Db, c: Db, id: string, gone: set<Key>, k: Key, now: int)
    requires Undone(a, b, id, gone) && (k.Index? || k.Unique?)
    requires forall x :: CellAt(c, x) == CellAfter(b, Undoing(k, id), now, x)
    requires forall x, j :: ZScore(c, x, j) == ZScoreAfter(b, Undoing(k, id), x, j)
    requires forall x, y :: InSet(c, x, y) <==> InSetAfter(b, Undoing(k, id), x, y)
    requires forall y :: !InSet(b, k, y)
    ensures Undone(a, c, id, gone + {k})
  {}

  /** Undo each listed membership of `id`. */
  method RemoveMembers(ex: Executor, id: string, members: set<Key>)
    requires ex.Valid() && Shaped(ex.View())
    requires forall k | k in members :: k.Index? || k.Unique?
    modifies ex.Repr()
    ensures Steady(ex, old(ex.Store().db), old(ex.Now()))
    ensures Undone(old(ex.View()), ex.View(), id, members)
    ensures forall j: Key :: j.Member? ==> (ex.Dropped(j) <==> old(ex.Dropped(j)))
  {
    var rest := members;
    ghost var gone: set<Key> := {};
    while rest != {}
      invariant rest <= members && gone == members - rest
      invariant Steady(ex, old(ex.Store().db), old(ex.Now()))
      invariant Undone(old(ex.View()), ex.View(), id, gone)
      invariant forall j: Key :: j.Member? ==> (ex.Dropped(j) <==> old(ex.Dropped(j)))
      decreases rest
    {
      var k :| k in rest;
      RemoveMember(ex, id, k, old(ex.View()), gone);
      rest := rest - {k};
      gone := gone + {k};
    }
  }

  method RemoveMember(ex: Executor, id: string, k: Key, ghost start: Db, ghost gone: set<Key>)
    requires ex.Valid() && Shaped(ex.View()) && (k.Index? || k.Unique?)
    requires Undone(start, ex.View(), id, gone)
    modifies ex.Repr()
    ensures Steady(ex, old(ex.Store().db), old(ex.Now()))
    ensures Undone(start, ex.View(), id, gone + {k})
    ensures forall j: Key :: j.Member? ==> (ex.Dropped(j) <==> old(ex.Dropped(j)))
  {
    ghost var before := ex.View();
    if k.Unique? {
      ex.Issue(DelStr(k));
    } else {
      ex.Issue(ZRemFrom(k, id));
    }
    assert k !in before.sets;
    UndoneStep(start, before, ex.View(), id, gone, k, ex.Now());
  }

  /** The keys of `xs` that are not in `ys`, in order. */
  method Minus(xs: seq<Key>, ys: seq<Key>) returns (r: seq<Key>)
    ensures forall k :: k in r <==> k in xs && k !in ys
  {
    r := [];
    for i := 0 to |xs|
      invariant forall k :: k in r <==> k in xs[..i] && k !in ys
    {
      if xs[i] !in ys {
        r := r + [xs[i]];
      }
      assert xs[..i + 1] == xs[..i] + [xs[i]];
    }
    assert xs[..|xs|] == xs;
  }

  /** The stores before and after an id's entries move from row `o` to row `n`. */
  ghost predicate Reindexed(a: Db, b: Db, m: Model, id: string, o: Row, n: Row, exp: Score) {
    && (forall k :: CellAt(b, k) ==
          if k.Unique? && Wants(m, n, k) && !Wants(m, o, k) then Some(Cell(IdData(id), exp))
          else if k.Unique? && Wants(m, o, k) && !Wants(m, n, k) then None
          else CellAt(a, k))
    && (forall k, j :: ZScore(b, k, j) ==
          if j != id then ZScore(a, k, j)
          else if k == Ids(m.name) || (k.Index? && Wants(m, n, k)) then Some(exp)
          else if k.Index? && Wants(m, o, k) then None
          else ZScore(a, k, j))
    && (forall k, x :: InSet(b, k, x) <==>
          if k == Member(m.name, id)
          then (InSet(a, k, x) || (Wants(m, n, x) && !Wants(m, o, x))) && !(Wants(m, o, x) && !Wants(m, n, x))
          else InSet(a, k, x))
  }

  method Reindex(ex: Executor, m: Model, id: string, o: Row, n: Row, score: Score, ttl: Option<int>)
    requires ex.Valid() && Shaped(ex.View())
    requires ex.Buffered? ==> ttl.None? || ttl.value <= 0
    requires score == Deadline(ttl, ex.Now())
    modifies ex.Repr()
    ensures Steady(ex, old(ex.Store().db), old(ex.Now()))
    ensures Reindexed(old(ex.View()), ex.View(), m, id, o, n, score)
    ensures forall j: Key :: j.Member? ==> (ex.Dropped(j) <==> old(ex.Dropped(j)))
  {
    var before := PlanIndexes(m, o);
    var after := PlanIndexes(m, n);
    var eqAdded := Minus(after.equality, before.equality);
    var eqRemoved := Minus(before.equality, after.equality);
    var uqAdded := Minus(after.unique, before.unique);
    var uqRemoved := Minus(before.unique, after.unique);
    var added, removed := eqAdded + uqAdded, eqRemoved + uqRemoved;
    ghost var start := ex.View();
    MoveStructures(ex, m, id, after.equality, eqRemoved, uqAdded, uqRemoved, added, removed, score, ttl);
    ReindexedByPlans(start, ex.View(), m, id, o, n, score, before, after, eqRemoved, uqAdded, uqRemoved, added, removed);
  }

  lemma ReindexedByPlans(
    a: Db, b: Db, m: Model, id: string, o: Row, n: Row, exp: Score, before: IndexPlan, after: IndexPlan,
    eqRemoved: seq<Key>, uqAdded: seq<Key>, uqRemoved: seq<Key>, added: seq<Key>, removed: seq<Key>)
    requires Plans(m, o, before) && Plans(m, n, after)
    requires forall k :: k in eqRemoved <==> k in before.equality && k !in after.equality
    requires forall k :: k in uqAdded <==> k in after.unique && k !in before.unique
    requires forall k :: k in uqRemoved <==> k in before.unique && k !in after.unique
    requires forall k :: k in added <==> k in uqAdded || (k in after.equality && k !in before.equality)
    requires forall k :: k in removed <==> k in uqRemoved || k in eqRemoved
    requires Moved(a, b, m, id, after.equality, eqRemoved, uqAdded, uqRemoved, added, removed, exp)
    ensures Reindexed(a, b, m, id, o, n, exp)
  {}

  ghost predicate Moved(
    a: Db, b: Db, m: Model, id: string, kept: seq<Key>, eqRemoved: seq<Key>, uqAdded: seq<Key>, uqRemoved: seq<Key>,
    added: seq<Key>, removed: seq<Key>, exp: Score)
  {
    && (forall k :: CellAt(b, k) ==
          if k in uqAdded then Some(Cell(IdData(id), exp)) else if k in uqRemoved then None else CellAt(a, k))
    && (forall k, j :: ZScore(b, k, j) ==
          if j != id then ZScore(a, k, j)
          else if k == Ids(m.name) || k in kept then Some(exp)
          else if k in eqRemoved then None
          else ZScore(a, k, j))
    && (forall k, x :: InSet(b, k, x) <==>
          if k == Member(m.name, id) then (InSet(a, k, x) || x in added) && x !in removed else InSet(a, k, x))
  }

  method MoveStructures(
    ex: Executor, m: Model, id: string, kept: seq<Key>, eqRemoved: seq<Key>, uqAdded: seq<Key>, uqRemoved: seq<Key>,
    added: seq<Key>, removed: seq<Key>, score: Score, ttl: Option<int>)
    requires ex.Valid() && Shaped(ex.View())
    requires (forall k | k in kept + eqRemoved :: k.Index?) && (forall k | k in uqAdded + uqRemoved :: k.Unique?)
    requires (forall k | k in kept :: k !in eqRemoved) && (forall k | k in uqAdded :: k !in uqRemoved)
    requires ex.Buffered? ==> ttl.None? || ttl.value <= 0
    requires score == Deadline(ttl, ex.Now())
    modifies ex.Repr()
    ensures Steady(ex, old(ex.Store().db), old(ex.Now()))
    ensures Moved(old(ex.View()), ex.View(), m, id, kept, eqRemoved, uqAdded, uqRemoved, added, removed, score)
    ensures forall j: Key :: j.Member? ==> (ex.Dropped(j) <==> old(ex.Dropped(j)))
  {
    MoveEntries(ex, id, kept, eqRemoved, score);
    MoveUniques(ex, id, uqAdded, uqRemoved, ttl);
    ex.Issue(ZAddTo(Ids(m.name), score, id));
    MoveMembership(ex, Member(m.name, id), added, removed);
  }

  method MoveEntries(ex: Executor, id: string, kept: seq<Key>, removed: seq<Key>, score: Score)
    requires ex.Valid() && Shaped(ex.View()) && (forall k | k in kept + removed :: k.Index?)
    requires forall k | k in kept :: k !in removed
    modifies ex.Repr()
    ensures Steady(ex, old(ex.Store().db), old(ex.Now()))
    ensures forall k :: CellAt(ex.View(), k) == CellAt(old(ex.View()), k)
    ensures forall k, j :: ZScore(ex.View(), k, j) ==
              if j == id && k in kept then Some(score) else if j == id && k in removed then None else ZScore(old(ex.View()), k, j)
    ensures forall k, x :: InSet(ex.View(), k, x) <==> InSet(old(ex.View()), k, x)
    ensures forall j :: ex.Dropped(j) <==> old(ex.Dropped(j))
  {
    ZAddEach(ex, kept, score, id);
    ZRemEach(ex, removed, id);
  }

  method MoveUniques(ex: Executor, id: string, added: seq<Key>, removed: seq<Key>, ttl: Option<int>)
    requires ex.Valid() && Shaped(ex.View()) && (forall k | k in added + removed :: k.Unique?)
    requires forall k | k in added :: k !in removed
    requires ex.Buffered? ==> ttl.None? || ttl.value <= 0
    modifies ex.Repr()
    ensures Steady(ex, old(ex.Store().db), old(ex.Now()))
    ensures forall k :: CellAt(ex.View(), k) ==
              if k in added then Some(Cell(IdData(id), Deadline(ttl, ex.Now())))
              else if k in removed then None else CellAt(old(ex.View()), k)
    ensures forall k, j :: ZScore(ex.View(), k, j) == ZScore(old(ex.View()), k, j)
    ensures forall k, x :: InSet(ex.View(), k, x) <==> InSet(old(ex.View()), k, x)
    ensures forall j: Key :: j.Member? ==> (ex.Dropped(j) <==> old(ex.Dropped(j)))
  {
    PutEach(ex, added, id, ttl);
    DelEach(ex, removed);
  }

  method MoveMembership(ex: Executor, own: Key, added: seq<Key>, removed: seq<Key>)
    requires ex.Valid() && Shaped(ex.View()) && own.Member?
    modifies ex.Repr()
    ensures Steady(ex, old(ex.Store().db), old(ex.Now()))
    ensures forall k :: CellAt(ex.View(), k) == CellAt(old(ex.View()), k)
    ensures forall k, j :: ZScore(ex.View(), k, j) == ZScore(old(ex.View()), k, j)
    ensures forall k, x :: InSet(ex.View(), k, x) <==>
              if k == own then (InSet(old(ex.View()), k, x) || x in added) && x !in removed else InSet(old(ex.View()), k, x)
    ensures forall j :: ex.Dropped(j) <==> old(ex.Dropped(j))
  {
    if added != [] {
      ex.Issue(SAddTo(own, set j | j in added));
    }
    if removed != [] {
      ex.Issue(SRemFrom(own, set j | j in removed));
    }
  }
}
