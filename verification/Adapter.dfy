/** Create, update, delete and reset, run on either executor. */
module Adapter {
  import opened Wrappers
  import opened Filters
  import opened Redis
  import opened Overlay
  import opened Executors
  import opened Indexes
  import opened Engine
  import opened Resolution
  import opened Query

  datatype WriteError = UniqueViolation | Rejected(why: QueryError)

  /** Does another id hold one of the row's unique values? */
  method EnforceUnique(ex: Executor, m: Model, row: Row, id: string) returns (taken: bool)
    requires ex.Valid()
    ensures taken <==> Taken(ex.View(), m, ex.Now(), row, id)
  {
    for i := 0 to |m.uniques|
      invariant forall k: Key | k.Unique? && Wants(m, row, k) && k.field in m.uniques[..i] :: !HeldByOther(ex.View(), k, id, ex.Now())
    {
      var field := m.uniques[i];
      assert m.uniques[..i + 1] == m.uniques[..i] + [field];
      if field in row {
        var k := Unique(m.name, field, m.Segment(row[field]));
        var held := ex.GetStr(k);
        if held.Some? && held.value.IdData? && held.value.id != "" && held.value.id != id {
          assert Wants(m, row, k) && HeldByOther(ex.View(), k, id, ex.Now());
          return true;
        }
      }
    }
    assert m.uniques[..|m.uniques|] == m.uniques;
    taken := false;
  }

  /** Another of these rows has a unique value of `row`. */
  ghost predicate TakenIn(m: Model, live: map<string, Cell>, row: Row, id: string) {
    exists k: Key, i: string :: k.Unique? && Wants(m, row, k) && Clashing(m, live, k, i, id)
  }

  predicate Clashing(m: Model, live: map<string, Cell>, k: Key, i: string, id: string) {
    i in live && i != id && Wants(m, RowOf(live[i]), k)
  }

  /** By fields: another row holds a value of a unique field that prints like this row's. */
  lemma TakenMeans(m: Model, live: map<string, Cell>, row: Row, id: string)
    ensures TakenIn(m, live, row, id) <==>
            exists f, i :: f in m.uniques && f in row && i in live && i != id && f in RowOf(live[i]) && m.encode(RowOf(live[i])[f]) == m.encode(row[f])
  {
    if k: Key, i: string :| k.Unique? && Wants(m, row, k) && Clashing(m, live, k, i, id) {
      assert k.field in m.uniques && m.encode(RowOf(live[i])[k.field]) == m.encode(row[k.field]);
    }
    if f, i :| f in m.uniques && f in row && i in live && i != id && f in RowOf(live[i]) && m.encode(RowOf(live[i])[f]) == m.encode(row[f]) {
      assert Clashing(m, live, Unique(m.name, f, m.encode(row[f])), i, id);
    }
  }

  /** Where the derived structures fit the rows, a unique value is taken exactly when another live row has it. */
  lemma TakenIsRows(db: Db, m: Model, now: int, row: Row, id: string)
    requires Tied(db, m, now)
    ensures Taken(db, m, now, row, id) <==> TakenIn(m, Live(db, m, now), row, id)
  {
    assert Shown(0);
    LiveLookup(db, m, now);
    var live := Live(db, m, now);
    if k: Key :| k.Unique? && Wants(m, row, k) && HeldByOther(db, k, id, now) {
      var i := CellAt(db, k).value.data.id;
      assert Clashing(m, live, k, i, id);
    }
    if k: Key, i: string :| k.Unique? && Wants(m, row, k) && Clashing(m, live, k, i, id) {
      assert Holds(db, k, i);
      assert CellAt(db, k).value.exp == ExpAt(db, m, i);
      assert CellAt(db, Obj(m.name, i)).Some?;
      assert HeldByOther(db, k, id, now);
    }
  }

  /** Sound but for the keys rows print. */
  ghost predicate Firm(ex: Executor, m: Model)
    reads ex.Repr()
  {
    && ex.Valid()
    && Shaped(ex.View())
    && Tied(ex.View(), m, ex.Now())
    && (forall i: string {:trigger HasRow(ex.View(), m, i)} :: HasRow(ex.View(), m, i) ==> !ex.Dropped(Member(m.name, i)))
  }

  lemma SoundIff(ex: Executor, m: Model)
    ensures Sound(ex, m) <==> Firm(ex, m) && Odd(ex.View(), m) == iset{}
  {
    InvIff(ex.View(), m, ex.Now());
  }

  /** `EnforceUnique`, in terms of the live rows. */
  method CheckUnique(ex: Executor, m: Model, row: Row, id: string) returns (taken: bool)
    requires Firm(ex, m)
    ensures taken <==> Taken(ex.View(), m, ex.Now(), row, id)
    ensures taken <==> TakenIn(m, Live(ex.View(), m, ex.Now()), row, id)
  {
    TakenIsRows(ex.View(), m, ex.Now(), row, id);
    taken := EnforceUnique(ex, m, row, id);
  }

  // ---- create ----

  /** How a missing primary key is made: from the model's counter, or given (a fresh UUID). */
  datatype PkSource = FromSequence | Generated(v: Value)

  predicate PkGiven(m: Model, input: Row) {
    m.pk in input && input[m.pk] != Null
  }

  function NewPk(db: Db, m: Model, input: Row, source: PkSource, now: int): Value {
    if PkGiven(m, input) then input[m.pk]
    else match source
         case FromSequence => Int(Counter(db, Seq(m.name), now) + 1)
         case Generated(v) => v
  }

  /** The store a create starts writing in: the counter has moved if it was drawn from. */
  ghost function Drawn(db: Db, m: Model, input: Row, source: PkSource, now: int): Db {
    if !PkGiven(m, input) && source.FromSequence? then Incr(db, Seq(m.name), now) else db
  }

  /** The outcome of inserting `row` under `id`, on the stores: refused with nothing written, or stored and listed. */
  ghost predicate Wrote(a: Db, b: Db, m: Model, now: int, id: string, row: Row, exp: Score, r: Result<Row, WriteError>) {
    if Taken(a, m, now, row, id) then r == Failure(UniqueViolation) && b == a
    else r == Success(row) && Created(a, b, m, id, row, exp)
  }

  /** The same on the rows: they gain it, unless a unique value is taken; and whether the store is still consistent. */
  ghost predicate Inserted(a: Db, b: Db, m: Model, now: int, id: string, row: Row, exp: Score, r: Result<Row, WriteError>) {
    && (if TakenIn(m, Live(a, m, now), row, id)
        then r == Failure(UniqueViolation) && Live(b, m, now) == Live(a, m, now)
        else r == Success(row) && Live(b, m, now) == Live(a, m, now)[id := Cell(RowData(row), exp)])
    && (Inv(b, m, now) <==> r.Failure? || CanHold(a, m, id, row))
    && (Lively(a, m, now) ==> Lively(b, m, now))
    && (forall i: string {:trigger HasRow(b, m, i)} :: HasRow(b, m, i) <==> HasRow(a, m, i) || (r.Success? && i == id))
  }

  /** Draw the next number from the model's counter. */
  method NextPk(ex: Executor, m: Model) returns (v: Value)
    requires ex.Valid() && Shaped(ex.View())
    modifies ex.Repr()
    ensures ex.Valid() && Shaped(ex.View()) && ex.Now() == old(ex.Now())
    ensures v == Int(Counter(old(ex.View()), Seq(m.name), ex.Now()) + 1)
    ensures ex.View() == Incr(old(ex.View()), Seq(m.name), ex.Now())
    ensures ex.Buffered? ==> ex.Store().db == Incr(old(ex.Store().db), Seq(m.name), ex.Now())
    ensures forall j :: ex.Dropped(j) <==> old(ex.Dropped(j))
  {
    IncrCounts(ex.View(), m, ex.Now());
    var n := ex.IncrKey(Seq(m.name));
    v := Int(n);
  }

  lemma IncrCounts(db: Db, m: Model, now: int)
    requires Shaped(db)
    ensures Counted(db, Incr(db, Seq(m.name), now), m) && Shaped(Incr(db, Seq(m.name), now))
    ensures forall i: string :: HasRow(Incr(db, Seq(m.name), now), m, i) <==> HasRow(db, m, i)
  {
    assert forall i: string :: CellAt(Incr(db, Seq(m.name), now), Obj(m.name, i)) == CellAt(db, Obj(m.name, i));
  }

  /** The write half of a create: check, store the object, index it. */
  method Insert(ex: Executor, m: Model, id: string, row: Row, ttl: Option<int>) returns (r: Result<Row, WriteError>)
    requires ex.Valid() && Shaped(ex.View())
    requires ex.Buffered? ==> ttl.None? || ttl.value <= 0
    modifies ex.Repr()
    ensures Steady(ex, old(ex.Store().db), old(ex.Now()))
    ensures Wrote(old(ex.View()), ex.View(), m, ex.Now(), id, row, Deadline(ttl, ex.Now()), r)
    ensures forall j :: ex.Dropped(j) <==> old(ex.Dropped(j))
  {
    var taken := EnforceUnique(ex, m, row, id);
    if taken {
      return Failure(UniqueViolation);
    }
    StoreNew(ex, m, id, row, ttl);
    r := Success(row);
  }

  /** The whole of a create, as the commands it sends. */
  method InsertNew(ex: Executor, m: Model, input: Row, source: PkSource, ttl: Option<int>)
    returns (r: Result<Row, WriteError>, ghost drawn: Db)
    requires ex.Valid() && Shaped(ex.View())
    requires ex.Buffered? ==> ttl.None? || ttl.value <= 0
    modifies ex.Repr()
    ensures Steady(ex, Drawn(old(ex.Store().db), m, input, source, old(ex.Now())), old(ex.Now()))
    ensures drawn == Drawn(old(ex.View()), m, input, source, old(ex.Now()))
    ensures var v := NewPk(old(ex.View()), m, input, source, old(ex.Now()));
            Wrote(drawn, ex.View(), m, ex.Now(), m.IdText(v), input[m.pk := v], Deadline(ttl, ex.Now()), r)
    ensures forall j :: ex.Dropped(j) <==> old(ex.Dropped(j))
  {
    var v := DrawPk(ex, m, input, source);
    drawn := ex.View();
    r := Insert(ex, m, m.IdText(v), input[m.pk := v], ttl);
  }

  /** The key of a create: given, drawn from the counter, or generated. */
  method DrawPk(ex: Executor, m: Model, input: Row, source: PkSource) returns (v: Value)
    requires ex.Valid() && Shaped(ex.View())
    modifies ex.Repr()
    ensures Steady(ex, Drawn(old(ex.Store().db), m, input, source, old(ex.Now())), old(ex.Now()))
    ensures v == NewPk(old(ex.View()), m, input, source, old(ex.Now()))
    ensures ex.View() == Drawn(old(ex.View()), m, input, source, old(ex.Now()))
    ensures forall j :: ex.Dropped(j) <==> old(ex.Dropped(j))
  {
    if PkGiven(m, input) {
      v := input[m.pk];
    } else if source.Generated? {
      v := source.v;
    } else {
      v := NextPk(ex, m);
    }
  }

  /** From the commands of a create to its meaning on the rows. */
  lemma WroteMeans(a: Db, drawn: Db, b: Db, m: Model, now: int, id: string, row: Row, exp: Score, r: Result<Row, WriteError>)
    requires Inv(a, m, now) && Shaped(drawn) && Shaped(b) && (drawn == a || Counted(a, drawn, m)) && Wrote(drawn, b, m, now, id, row, exp, r)
    requires m.pk in row && m.IdText(row[m.pk]) == id && Alive(exp, now)
    ensures Inserted(a, b, m, now, id, row, exp, r) && SameElsewhere(drawn, b, m)
    ensures forall i: string :: HasRow(b, m, i) <==> HasRow(a, m, i) || (r.Success? && i == id)
  {
    if drawn != a {
      CountKeepsInv(a, drawn, m, m, now);
      CountLively(a, drawn, m, now);
      CountLive(a, drawn, m, now);
      CountHolds(a, drawn, m, id, row);
    }
    InvIff(drawn, m, now);
    TakenIsRows(drawn, m, now, row, id);
    if r.Success? {
      InsertKeeps(drawn, b, m, now, id, row, exp);
    }
  }

  /**
   Create a row under a given or drawn key, without looking whether the key is
   free.  The store stays sound if and only if the id can take the row and was
   not deleted earlier in the same transaction.  `drawn` is the view after the
   draw: the draw stands even if the insert is refused.
   */
  method Create(ex: Executor, m: Model, input: Row, source: PkSource, ttl: Option<int>)
    returns (r: Result<Row, WriteError>, ghost drawn: Db)
    requires Sound(ex, m)
    requires ex.Buffered? ==> ttl.None? || ttl.value <= 0
    modifies ex.Repr()
    ensures Steady(ex, Drawn(old(ex.Store().db), m, input, source, old(ex.Now())), old(ex.Now()))
    ensures drawn == Drawn(old(ex.View()), m, input, source, old(ex.Now()))
    ensures SameElsewhere(drawn, ex.View(), m)
    ensures var v := NewPk(old(ex.View()), m, input, source, old(ex.Now()));
            && Inserted(old(ex.View()), ex.View(), m, ex.Now(), m.IdText(v), input[m.pk := v], Deadline(ttl, ex.Now()), r)
            && (Sound(ex, m) <==> r.Failure? || (CanHold(old(ex.View()), m, m.IdText(v), input[m.pk := v]) && !ex.Dropped(Member(m.name, m.IdText(v)))))
    ensures r.Success? ==> MadeFrom(old(ex.View()), ex.View(), m, ex.Now(), input, source, Deadline(ttl, ex.Now()), r.value)
    ensures forall j :: ex.Dropped(j) <==> old(ex.Dropped(j))
  {
    ghost var before, now := ex.View(), ex.Now();
    r, drawn := CreateOn(ex, m, input, source, ttl);
    InsertedMeans(before, ex.View(), m, now, input, source, Deadline(ttl, now), r);
  }

  /** The same, with the row that is stored given by `NewPk`. */
  method CreateOn(ex: Executor, m: Model, input: Row, source: PkSource, ttl: Option<int>)
    returns (r: Result<Row, WriteError>, ghost drawn: Db)
    requires Sound(ex, m)
    requires ex.Buffered? ==> ttl.None? || ttl.value <= 0
    modifies ex.Repr()
    ensures Steady(ex, Drawn(old(ex.Store().db), m, input, source, old(ex.Now())), old(ex.Now()))
    ensures drawn == Drawn(old(ex.View()), m, input, source, old(ex.Now()))
    ensures SameElsewhere(drawn, ex.View(), m)
    ensures var v := NewPk(old(ex.View()), m, input, source, old(ex.Now()));
            && Inserted(old(ex.View()), ex.View(), m, ex.Now(), m.IdText(v), input[m.pk := v], Deadline(ttl, ex.Now()), r)
            && (Sound(ex, m) <==> r.Failure? || (CanHold(old(ex.View()), m, m.IdText(v), input[m.pk := v]) && !ex.Dropped(Member(m.name, m.IdText(v)))))
    ensures forall j :: ex.Dropped(j) <==> old(ex.Dropped(j))
  {
    ghost var before, now := ex.View(), ex.Now();
    ghost var v := NewPk(before, m, input, source, now);
    IncrCounts(before, m, now);
    r, drawn := InsertNew(ex, m, input, source, ttl);
    WroteMeans(before, drawn, ex.View(), m, now, m.IdText(v), input[m.pk := v], Deadline(ttl, now), r);
    CreatedIsSound(ex, m, before, m.IdText(v), r.Success?);
  }

  /** The new row has the key given or else drawn and the input's other fields, and is live under its key; the others stay. */
  ghost predicate MadeFrom(a: Db, b: Db, m: Model, now: int, input: Row, source: PkSource, exp: Score, row: Row) {
    && m.pk in row && (forall f | f != m.pk :: Get(row, f) == Get(input, f))
    && row[m.pk] == (if m.pk in input && input[m.pk] != Null then input[m.pk]
                     else if source.Generated? then source.v
                     else Int(Counter(a, Seq(m.name), now) + 1))
    && Live(b, m, now) == Live(a, m, now)[m.text(row[m.pk]) := Cell(RowData(row), exp)]
  }

  lemma InsertedMeans(a: Db, b: Db, m: Model, now: int, input: Row, source: PkSource, exp: Score, r: Result<Row, WriteError>)
    requires var v := NewPk(a, m, input, source, now); Inserted(a, b, m, now, m.IdText(v), input[m.pk := v], exp, r)
    ensures r.Success? ==> MadeFrom(a, b, m, now, input, source, exp, r.value)
  {}

  /** After a create the executor is sound exactly when the store is consistent and the id's set was not deleted before. */
  lemma CreatedIsSound(ex: Executor, m: Model, a: Db, id: string, created: bool)
    requires ex.Valid() && Shaped(ex.View())
    requires forall i: string :: HasRow(ex.View(), m, i) <==> HasRow(a, m, i) || (created && i == id)
    requires forall i: string {:trigger HasRow(a, m, i)} :: HasRow(a, m, i) ==> !ex.Dropped(Member(m.name, i))
    ensures Sound(ex, m) <==> Inv(ex.View(), m, ex.Now()) && (created ==> !ex.Dropped(Member(m.name, id)))
  {
    assert created ==> HasRow(ex.View(), m, id);
  }

  lemma CountLively(a: Db, b: Db, m: Model, now: int)
    requires Counted(a, b, m)
    ensures forall i: string :: HasRow(b, m, i) <==> HasRow(a, m, i)
    ensures Lively(a, m, now) ==> Lively(b, m, now)
  {
    assert forall i: string :: CellAt(b, Obj(m.name, i)) == CellAt(a, Obj(m.name, i));
  }

  lemma CountHolds(a: Db, b: Db, m: Model, id: string, row: Row)
    requires Counted(a, b, m)
    ensures CanHold(a, m, id, row) <==> CanHold(b, m, id, row)
  {
    assert CellAt(b, Obj(m.name, id)) == CellAt(a, Obj(m.name, id));
  }

  lemma InsertKeeps(a: Db, b: Db, m: Model, now: int, id: string, row: Row, exp: Score)
    requires Inv(a, m, now) && Shaped(b) && Created(a, b, m, id, row, exp)
    requires m.pk in row && m.IdText(row[m.pk]) == id && Alive(exp, now) && !Taken(a, m, now, row, id)
    ensures Inv(b, m, now) <==> CanHold(a, m, id, row)
    ensures SameElsewhere(a, b, m)
    ensures Lively(a, m, now) ==> Lively(b, m, now)
    ensures Live(b, m, now) == Live(a, m, now)[id := Cell(RowData(row), exp)]
    ensures forall i: string :: HasRow(b, m, i) <==> i == id || HasRow(a, m, i)
  {
    CreateKeepsInvIff(a, b, m, now, id, row, exp);
    CreateLive(a, b, m, id, row, exp, now);
    CreateRows(a, b, m, id, row, exp);
    CreatedElsewhere(a, b, m, id, row, exp);
  }

  method StoreNew(ex: Executor, m: Model, id: string, row: Row, ttl: Option<int>)
    requires ex.Valid() && Shaped(ex.View())
    requires ex.Buffered? ==> ttl.None? || ttl.value <= 0
    modifies ex.Repr()
    ensures Steady(ex, old(ex.Store().db), old(ex.Now()))
    ensures Created(old(ex.View()), ex.View(), m, id, row, Deadline(ttl, ex.Now()))
    ensures forall j :: ex.Dropped(j) <==> old(ex.Dropped(j))
  {
    ghost var a, exp := ex.View(), Deadline(ttl, ex.Now());
    ex.Issue(PutObj(Obj(m.name, id), RowData(row), ttl));
    ghost var b := ex.View();
    var plan := PlanIndexes(m, row);
    AddToIndexes(ex, m, id, plan, Deadline(ttl, ex.Store().now), ttl);
    CreatedInSteps(a, b, ex.View(), m, id, row, plan, exp);
  }

  lemma CreatedInSteps(a: Db, b: Db, c: Db, m: Model, id: string, row: Row, plan: IndexPlan, exp: Score)
    requires Plans(m, row, plan)
    requires forall k :: CellAt(b, k) == if k == Obj(m.name, id) then Some(Cell(RowData(row), exp)) else CellAt(a, k)
    requires forall k, j :: ZScore(b, k, j) == ZScore(a, k, j)
    requires forall k, x :: InSet(b, k, x) <==> InSet(a, k, x)
    requires forall k :: CellAt(c, k) == if k in plan.unique then Some(Cell(IdData(id), exp)) else CellAt(b, k)
    requires forall k, j :: ZScore(c, k, j) ==
               if j == id && (k == Ids(m.name) || k in plan.equality) then Some(exp) else ZScore(b, k, j)
    requires forall k, x :: InSet(c, k, x) <==>
               (k == Member(m.name, id) && x in plan.equality + plan.unique) || InSet(b, k, x)
    ensures Created(a, c, m, id, row, exp)
  {}

  // ---- update ----

  /**
   The write half of an update: check, keep the current expiry, store, reindex.
   Afterwards the row of this id prints its key if the new row does.
   */
  method Rewrite(ex: Executor, m: Model, id: string, o: Row, n: Row) returns (ok: bool)
    requires Firm(ex, m) && LiveRow(ex.View(), m, id, ex.Now()) && RowAt(ex.View(), m, id) == o
    modifies ex.Repr()
    ensures Firm(ex, m) && ex.Now() == old(ex.Now())
    ensures Odd(ex.View(), m) == if ok then OddNext(m, old(Odd(ex.View(), m)), id, n) else old(Odd(ex.View(), m))
    ensures Lively(old(ex.View()), m, ex.Now()) ==> Lively(ex.View(), m, ex.Now())
    ensures ok <==> !TakenIn(m, old(Live(ex.View(), m, ex.Now())), n, id)
    ensures SameElsewhere(old(ex.View()), ex.View(), m) && RowsWithin(old(ex.View()), ex.View(), m)
    ensures Live(ex.View(), m, ex.Now()) ==
            if ok then old(Live(ex.View(), m, ex.Now()))[id := Cell(RowData(n), ExpAt(old(ex.View()), m, id))]
            else old(Live(ex.View(), m, ex.Now()))
    ensures ex.Buffered? ==> ex.Store().db == old(ex.Store().db)
    ensures forall j: Key :: j.Member? ==> (ex.Dropped(j) <==> old(ex.Dropped(j)))
  {
    var taken := CheckUnique(ex, m, n, id);
    if taken {
      return false;
    }
    ghost var before, now := ex.View(), ex.Now();
    var ttl := CurrentTtl(ex, m, id);
    StoreAgain(ex, m, id, o, n, ttl);
    ok := true;
    RewriteKeeps(before, ex.View(), m, now, id, o, n, Deadline(ttl, now));
  }

  lemma RewriteKeeps(a: Db, b: Db, m: Model, now: int, id: string, o: Row, n: Row, exp: Score)
    requires Tied(a, m, now) && Shaped(b) && LiveRow(a, m, id, now) && RowAt(a, m, id) == o && exp == ExpAt(a, m, id)
    requires Patched(a, b, m, id, o, n, exp) && !Taken(a, m, now, n, id)
    ensures Tied(b, m, now) && Odd(b, m) == OddNext(m, Odd(a, m), id, n)
    ensures SameElsewhere(a, b, m)
    ensures Lively(a, m, now) ==> Lively(b, m, now)
    ensures Live(b, m, now) == Live(a, m, now)[id := Cell(RowData(n), exp)]
    ensures forall i: string :: HasRow(b, m, i) <==> HasRow(a, m, i)
  {
    PatchKeepsTied(a, b, m, now, id, n, exp);
    PatchLive(a, b, m, id, n, exp, now);
    PatchRows(a, b, m, id, n, exp);
    PatchedElsewhere(a, b, m, id, o, n, exp);
  }

  /** The remaining lifetime to write back, none for a row without an expiry. */
  method CurrentTtl(ex: Executor, m: Model, id: string) returns (ttl: Option<int>)
    requires Firm(ex, m) && LiveRow(ex.View(), m, id, ex.Now())
    ensures Deadline(ttl, ex.Now()) == ExpAt(ex.View(), m, id)
    ensures ex.Buffered? ==> ttl.None?
  {
    var current := ex.PTtl(Obj(m.name, id));
    ttl := if current > 0 then Some(current) else None;
    if ex.Buffered? {
      TimelessReplay(ex.tx.client.db, ex.tx.writes, ex.tx.client.now);
    }
  }

  method StoreAgain(ex: Executor, m: Model, id: string, o: Row, n: Row, ttl: Option<int>)
    requires ex.Valid() && Shaped(ex.View())
    requires ex.Buffered? ==> ttl.None? || ttl.value <= 0
    modifies ex.Repr()
    ensures Steady(ex, old(ex.Store().db), old(ex.Now()))
    ensures Patched(old(ex.View()), ex.View(), m, id, o, n, Deadline(ttl, ex.Now()))
    ensures forall j: Key :: j.Member? ==> (ex.Dropped(j) <==> old(ex.Dropped(j)))
  {
    ghost var a, exp := ex.View(), Deadline(ttl, ex.Now());
    ex.Issue(PutObj(Obj(m.name, id), RowData(n), ttl));
    ghost var b := ex.View();
    Reindex(ex, m, id, o, n, Deadline(ttl, ex.Store().now), ttl);
    PatchedInSteps(a, b, ex.View(), m, id, o, n, exp);
  }

  lemma PatchedInSteps(a: Db, b: Db, c: Db, m: Model, id: string, o: Row, n: Row, exp: Score)
    requires forall k :: CellAt(b, k) == if k == Obj(m.name, id) then Some(Cell(RowData(n), exp)) else CellAt(a, k)
    requires forall k, j :: ZScore(b, k, j) == ZScore(a, k, j)
    requires forall k, x :: InSet(b, k, x) <==> InSet(a, k, x)
    requires Reindexed(b, c, m, id, o, n, exp)
    ensures Patched(a, c, m, id, o, n, exp)
  {}

  /**
   `persistPatch`: one record by id, or nothing when it is gone.  The patch may
   name the primary key; the store stays sound if and only if the row still prints
   the key it is stored under.
   */
  method PersistPatch(ex: Executor, m: Model, id: string, patch: Row) returns (r: Result<Option<Row>, WriteError>)
    requires Sound(ex, m)
    modifies ex.Repr()
    ensures ex.Valid() && Shaped(ex.View()) && ex.Now() == old(ex.Now())
    ensures Sound(ex, m) <==> (r.Success? && r.value.Some? ==> ProperRow(m, id, r.value.value))
    ensures Lively(old(ex.View()), m, ex.Now()) ==> Lively(ex.View(), m, ex.Now())
    ensures SameElsewhere(old(ex.View()), ex.View(), m) && RowsWithin(old(ex.View()), ex.View(), m)
    ensures var live := old(Live(ex.View(), m, ex.Now()));
            if id !in live then r == Success(None) && Live(ex.View(), m, ex.Now()) == live
            else
              var n := RowOf(live[id]) + patch;
              if TakenIn(m, live, n, id)
              then r == Failure(UniqueViolation) && Live(ex.View(), m, ex.Now()) == live
              else r == Success(Some(n)) && Live(ex.View(), m, ex.Now()) == live[id := Cell(RowData(n), live[id].exp)]
    ensures forall j: Key :: j.Member? ==> (ex.Dropped(j) <==> old(ex.Dropped(j)))
    ensures ex.Buffered? ==> ex.Store().db == old(ex.Store().db)
  {
    ReadsLiveRow(ex.View(), m, ex.Now(), id);
    var raw := ex.GetObj(Obj(m.name, id));
    if raw.None? {
      return Success(None);
    }
    LiveMember(ex.View(), m, ex.Now(), id);
    var o := if raw.value.RowData? then raw.value.row else map[];
    var n := o + patch;
    SoundIff(ex, m);
    var ok := Rewrite(ex, m, id, o, n);
    SoundIff(ex, m);
    assert id in OddNext(m, iset{}, id, n) <==> !ProperRow(m, id, n);
    r := if ok then Success(Some(n)) else Failure(UniqueViolation);
  }

  /** The patch an update derives for one row. */
  function Change(patch: Row -> Row, row: Row): Row {
    patch(row)
  }

  function After(patch: Row -> Row, row: Row): Row {
    row + Change(patch, row)
  }

  /** The patch leaves each of these rows printing the key it is stored under, as a caller can tell from rows and patch. */
  ghost predicate KeepsKeys(m: Model, live: map<string, Cell>, ids: set<string>, patch: Row -> Row) {
    forall i | i in live && i in ids :: ProperRow(m, i, After(patch, RowOf(live[i])))
  }

  /** The rows after patching the given ids. */
  ghost function PatchedLive(live: map<string, Cell>, ids: set<string>, patch: Row -> Row): map<string, Cell> {
    map i | i in live :: if i in ids then Cell(RowData(After(patch, RowOf(live[i]))), live[i].exp) else live[i]
  }

  lemma PatchedStep(live: map<string, Cell>, done: set<string>, id: string, patch: Row -> Row)
    requires id in live && id !in done
    ensures PatchedLive(live, done + {id}, patch) ==
            PatchedLive(live, done, patch)[id := Cell(RowData(After(patch, RowOf(live[id]))), live[id].exp)]
  {}

  /** Only membership sets of rows live at the snapshot have been deleted since. */
  ghost predicate DroppedWithin(ex: Executor, m: Model, s: Snapshot)
    reads ex.Repr()
  {
    forall k: Key | k in DroppedKeys(ex) :: k in s.dropped || (k.model == m.name && k.id in s.live)
  }

  /** A bulk write under way since the snapshot, with these rows live now. */
  ghost predicate Underway(ex: Executor, m: Model, s: Snapshot, live: map<string, Cell>)
    reads ex.Repr()
  {
    && Sound(ex, m)
    && ex.Now() == s.now
    && SameElsewhere(s.origin, ex.View(), m)
    && (Lively(s.origin, m, s.now) ==> Lively(ex.View(), m, s.now))
    && (ex.Buffered? ==> ex.Store().db == s.base)
    && Live(ex.View(), m, s.now) == live
    && DroppedWithin(ex, m, s)
  }

  /** `Underway`, looked at only where `Shown` is mentioned. */
  ghost predicate Going(ex: Executor, m: Model, s: Snapshot, live: map<string, Cell>)
    reads ex.Repr()
  {
    forall n: nat {:trigger Shown(n)} :: Shown(n) ==> Underway(ex, m, s, live)
  }

  /** The rows of `done` that no longer print their key once patched. */
  ghost function OddOnes(m: Model, live: map<string, Cell>, done: set<string>, patch: Row -> Row): iset<string> {
    iset i | i in done && i in live && !ProperRow(m, i, After(patch, RowOf(live[i])))
  }

  lemma OddStep(m: Model, live: map<string, Cell>, done: set<string>, id: string, patch: Row -> Row)
    requires id in live && id !in done
    ensures OddOnes(m, live, done + {id}, patch) == OddNext(m, OddOnes(m, live, done, patch), id, After(patch, RowOf(live[id])))
  {
    assert id !in OddOnes(m, live, done, patch);
  }

  /** A row that is given no change stays as it is. */
  lemma NothingPatched(m: Model, live: map<string, Cell>, done: set<string>, id: string, patch: Row -> Row)
    requires id in live && id !in done && live[id].data.RowData? && ProperRow(m, id, RowOf(live[id]))
    requires Change(patch, RowOf(live[id])) == map[]
    ensures PatchedLive(live, done + {id}, patch) == PatchedLive(live, done, patch)
    ensures OddOnes(m, live, done + {id}, patch) == OddOnes(m, live, done, patch)
  {
    assert After(patch, RowOf(live[id])) == RowOf(live[id]);
  }

  /** A bulk patch under way since the snapshot, with these rows live and these ids odd now. */
  ghost predicate Midway(ex: Executor, m: Model, s: Snapshot, live: map<string, Cell>, odd: iset<string>)
    reads ex.Repr()
  {
    && Firm(ex, m)
    && ex.Now() == s.now
    && SameElsewhere(s.origin, ex.View(), m)
    && (Lively(s.origin, m, s.now) ==> Lively(ex.View(), m, s.now))
    && (ex.Buffered? ==> ex.Store().db == s.base)
    && Live(ex.View(), m, s.now) == live
    && Odd(ex.View(), m) == odd
    && DroppedWithin(ex, m, s)
  }

  lemma MidwayIff(ex: Executor, m: Model, s: Snapshot, live: map<string, Cell>)
    ensures Underway(ex, m, s, live) <==> Midway(ex, m, s, live, iset{})
  {
    SoundIff(ex, m);
  }

  /** The rows of `done` are patched; looked at only where `Shown` is mentioned. */
  ghost predicate Patching(ex: Executor, m: Model, s: Snapshot, done: set<string>, patch: Row -> Row)
    reads ex.Repr()
  {
    forall n: nat {:trigger Shown(n)} :: Shown(n) ==> Midway(ex, m, s, PatchedLive(s.live, done, patch), OddOnes(m, s.live, done, patch))
  }

  lemma PatchingStarts(ex: Executor, m: Model, s: Snapshot, patch: Row -> Row)
    requires Underway(ex, m, s, s.live)
    ensures Patching(ex, m, s, {}, patch)
  {
    MidwayIff(ex, m, s, s.live);
    assert s.live == PatchedLive(s.live, {}, patch) && OddOnes(m, s.live, {}, patch) == iset{};
  }

  /** The executor is sound if and only if the patch keeps the keys of the rows patched. */
  lemma PatchingIff(ex: Executor, m: Model, s: Snapshot, done: set<string>, patch: Row -> Row)
    requires Patching(ex, m, s, done, patch)
    ensures Midway(ex, m, s, PatchedLive(s.live, done, patch), OddOnes(m, s.live, done, patch))
    ensures Sound(ex, m) <==> KeepsKeys(m, s.live, done, patch)
    ensures Sound(ex, m) ==> Underway(ex, m, s, PatchedLive(s.live, done, patch))
  {
    assert Shown(0);
    SoundIff(ex, m);
    var odd := OddOnes(m, s.live, done, patch);
    if odd == iset{} {
      forall i | i in s.live && i in done ensures ProperRow(m, i, After(patch, RowOf(s.live[i]))) {
        assert i !in odd;
      }
    } else {
      var i :| i in odd;
    }
  }

  /** Patch one matched row, which no earlier step has touched. */
  method UpdateOne(ex: Executor, m: Model, row: Row, patch: Row -> Row, ghost s: Snapshot, ghost done: set<string>)
    returns (ok: bool)
    requires Midway(ex, m, s, PatchedLive(s.live, done, patch), OddOnes(m, s.live, done, patch))
    requires IdOf(m, row) in s.live && IdOf(m, row) !in done && s.live[IdOf(m, row)].data == RowData(row)
    requires ProperRow(m, IdOf(m, row), row)
    modifies ex.Repr()
    ensures var after := if ok then done + {IdOf(m, row)} else done;
            Midway(ex, m, s, PatchedLive(s.live, after, patch), OddOnes(m, s.live, after, patch))
    ensures !ok ==> TakenIn(m, PatchedLive(s.live, done, patch), After(patch, row), IdOf(m, row))
  {
    ghost var id := IdOf(m, row);
    var input := Change(patch, row);
    if input == map[] {
      NothingPatched(m, s.live, done, id, patch);
      return true;
    }
    PatchedStep(s.live, done, id, patch);
    OddStep(m, s.live, done, id, patch);
    ok := PatchOne(ex, m, row, input, s, PatchedLive(s.live, done, patch), OddOnes(m, s.live, done, patch));
  }

  /** Rewrite one live row as part of a bulk write. */
  method PatchOne(ex: Executor, m: Model, row: Row, input: Row, ghost s: Snapshot, ghost live: map<string, Cell>, ghost odd: iset<string>)
    returns (ok: bool)
    requires Midway(ex, m, s, live, odd) && m.pk in row
    requires IdOf(m, row) in live && live[IdOf(m, row)].data == RowData(row)
    modifies ex.Repr()
    ensures var id := IdOf(m, row);
            if ok then Midway(ex, m, s, live[id := Cell(RowData(row + input), live[id].exp)], OddNext(m, odd, id, row + input))
            else Midway(ex, m, s, live, odd)
    ensures ok <==> !TakenIn(m, live, row + input, IdOf(m, row))
  {
    ghost var before := ex.View();
    LiveLookup(before, m, s.now);
    ok := Rewrite(ex, m, m.IdText(row[m.pk]), row, row + input);
    SameElsewhereTwice(s.origin, before, ex.View(), m);
  }

  lemma SameElsewhereTwice(a: Db, b: Db, c: Db, m: Model)
    requires SameElsewhere(a, b, m) && SameElsewhere(b, c, m)
    ensures SameElsewhere(a, c, m)
  {}

  ghost function IdsOf(m: Model, rows: seq<Row>): set<string> {
    set a | 0 <= a < |rows| :: IdOf(m, rows[a])
  }

  method UpdateNext(ex: Executor, m: Model, row: Row, patch: Row -> Row, ghost s: Snapshot, ghost done: set<string>)
    returns (ok: bool)
    requires Patching(ex, m, s, done, patch)
    requires IdOf(m, row) in s.live && IdOf(m, row) !in done && s.live[IdOf(m, row)].data == RowData(row)
    requires ProperRow(m, IdOf(m, row), row)
    modifies ex.Repr()
    ensures Patching(ex, m, s, if ok then done + {IdOf(m, row)} else done, patch)
    ensures !ok ==> TakenIn(m, PatchedLive(s.live, done, patch), After(patch, row), IdOf(m, row))
  {
    assert Shown(0);
    ok := UpdateOne(ex, m, row, patch, s, done);
  }

  /** The listed rows are live rows with a key, each listed once. */
  ghost predicate Listing(m: Model, live: map<string, Cell>, rows: seq<Row>) {
    && (forall a | 0 <= a < |rows| ::
          ProperRow(m, IdOf(m, rows[a]), rows[a]) && IdOf(m, rows[a]) in live && live[IdOf(m, rows[a])].data == RowData(rows[a]))
    && (forall a, b | 0 <= a < b < |rows| :: IdOf(m, rows[a]) != IdOf(m, rows[b]))
  }

  lemma ListingStep(m: Model, live: map<string, Cell>, rows: seq<Row>, i: nat)
    requires Listing(m, live, rows) && i < |rows|
    ensures IdOf(m, rows[i]) !in IdsOf(m, rows[..i])
    ensures IdsOf(m, rows[..i + 1]) == IdsOf(m, rows[..i]) + {IdOf(m, rows[i])}
    ensures IdsOf(m, rows[..i]) <= live.Keys
  {
    var shorter, longer := rows[..i], rows[..i + 1];
    forall a | 0 <= a < i ensures IdOf(m, shorter[a]) != IdOf(m, rows[i]) && IdOf(m, shorter[a]) in live {
      assert shorter[a] == rows[a];
    }
    forall id ensures id in IdsOf(m, longer) <==> id in IdsOf(m, shorter) + {IdOf(m, rows[i])} {
      if id in IdsOf(m, shorter) {
        var a :| 0 <= a < i && IdOf(m, shorter[a]) == id;
        assert longer[a] == shorter[a];
      }
      if id == IdOf(m, rows[i]) {
        assert longer[i] == rows[i];
      }
    }
  }

  lemma AnswersList(db: Db, m: Model, now: int, hits: set<string>, rows: seq<Row>)
    requires Inv(db, m, now) && Answers(m, Live(db, m, now), hits, rows)
    ensures Listing(m, Live(db, m, now), rows)
    ensures IdsOf(m, rows) == hits
  {
    assert Shown(0);
    LiveLookup(db, m, now);
    forall a | 0 <= a < |rows| ensures ProperRow(m, IdOf(m, rows[a]), rows[a]) && Live(db, m, now)[IdOf(m, rows[a])].data == RowData(rows[a]) {
      assert CellAt(db, Obj(m.name, IdOf(m, rows[a]))).Some?;
    }
    forall id | id in hits ensures id in IdsOf(m, rows) {
      var a :| 0 <= a < |rows| && IdOf(m, rows[a]) == id;
    }
  }

  /** With the rows of `done` patched, some other matched row would take a unique value another row has. */
  ghost predicate Stuck(m: Model, live: map<string, Cell>, patch: Row -> Row, hits: set<string>, done: set<string>) {
    exists id :: id in hits - done && id in live && TakenIn(m, PatchedLive(live, done, patch), After(patch, RowOf(live[id])), id)
  }

  lemma StuckHere(m: Model, live: map<string, Cell>, patch: Row -> Row, rows: seq<Row>, i: nat, done: set<string>)
    requires Listing(m, live, rows) && i < |rows| && IdOf(m, rows[i]) !in done
    requires TakenIn(m, PatchedLive(live, done, patch), After(patch, rows[i]), IdOf(m, rows[i]))
    ensures Stuck(m, live, patch, IdsOf(m, rows), done)
  {
    assert IdOf(m, rows[i]) in IdsOf(m, rows);
  }

  /** The loop of an update: patch the matched rows until one is refused. */
  method UpdateAll(ex: Executor, m: Model, rows: seq<Row>, patch: Row -> Row, ghost s: Snapshot)
    returns (r: Result<seq<Row>, WriteError>, ghost done: set<string>)
    requires Patching(ex, m, s, {}, patch) && Listing(m, s.live, rows)
    modifies ex.Repr()
    ensures Patching(ex, m, s, done, patch)
    ensures done <= IdsOf(m, rows) && (r.Success? ==> done == IdsOf(m, rows))
    ensures r.Success? ==> r.value == AfterAll(patch, rows)
    ensures r.Failure? ==> r.error == UniqueViolation && Stuck(m, s.live, patch, IdsOf(m, rows), done)
  {
    assert rows[..|rows|] == rows;
    done := {};
    var updated := [];
    for i := 0 to |rows|
      invariant updated == AfterAll(patch, rows[..i])
      invariant done == IdsOf(m, rows[..i]) && done <= IdsOf(m, rows)
      invariant Patching(ex, m, s, done, patch)
    {
      var ok;
      ok, done := UpdateAt(ex, m, rows, i, patch, s, done);
      if !ok {
        return Failure(UniqueViolation), done;
      }
      assert rows[..i + 1][..i] == rows[..i];
      updated := updated + [After(patch, rows[i])];
    }
    r := Success(updated);
  }

  /** One turn of the loop. */
  method UpdateAt(ex: Executor, m: Model, rows: seq<Row>, i: nat, patch: Row -> Row, ghost s: Snapshot, ghost done: set<string>)
    returns (ok: bool, ghost further: set<string>)
    requires i < |rows| && Listing(m, s.live, rows)
    requires done == IdsOf(m, rows[..i]) && Patching(ex, m, s, done, patch)
    modifies ex.Repr()
    ensures Patching(ex, m, s, further, patch) && further <= IdsOf(m, rows)
    ensures ok ==> further == IdsOf(m, rows[..i + 1])
    ensures !ok ==> Stuck(m, s.live, patch, IdsOf(m, rows), further)
  {
    ListingStep(m, s.live, rows, i);
    ListedPrefix(m, rows, i);
    assert rows[i] in rows && IdOf(m, rows[i]) in IdsOf(m, rows);
    ok := UpdateNext(ex, m, rows[i], patch, s, done);
    if ok {
      further := done + {IdOf(m, rows[i])};
    } else {
      further := done;
      StuckHere(m, s.live, patch, rows, i, done);
    }
  }

  lemma ListedPrefix(m: Model, rows: seq<Row>, i: nat)
    requires i <= |rows|
    ensures IdsOf(m, rows[..i]) <= IdsOf(m, rows)
  {
    forall id | id in IdsOf(m, rows[..i]) ensures id in IdsOf(m, rows) {
      var a :| 0 <= a < i && IdOf(m, rows[..i][a]) == id;
      assert IdOf(m, rows[a]) == id;
    }
  }

  /** What an update answers: whatever the filter selected, each row patched once, or a refusal at some point on the way. */
  ghost predicate Updated(m: Model, mean: Meaning, live: map<string, Cell>, w: Where, patch: Row -> Row,
                          r: Result<seq<Row>, WriteError>, done: set<string>)
  {
    var hits := Selected(m, mean, live, w);
    && done <= hits
    && (r.Failure? && r.error.Rejected? <==> !Answerable(m, w))
    && (r.Failure? && r.error.UniqueViolation? ==> Stuck(m, live, patch, hits, done))
    && (r.Success? ==> done == hits && RowSet(r.value) == PatchedRows(live, done, patch))
  }

  /**
   Update every row the filter selects.  On a unique violation part-way the rows
   already patched stay patched.  The store is sound afterwards if and only if
   each row patched still prints the key it is stored under; every derived
   structure fits the rows all the same.
   */
  method Update(ex: Executor, m: Model, w: Where, patch: Row -> Row, mean: Meaning)
    returns (r: Result<seq<Row>, WriteError>, ghost done: set<string>)
    requires Ready(ex, m)
    modifies ex.Repr()
    ensures var s := old(Snap(ex, m));
            Midway(ex, m, s, PatchedLive(s.live, done, patch), OddOnes(m, s.live, done, patch))
    ensures Sound(ex, m) <==> KeepsKeys(m, old(Snap(ex, m)).live, done, patch)
    ensures var was, live := old(Snap(ex, m)).live, Live(ex.View(), m, ex.Now());
            && live.Keys == was.Keys && done <= was.Keys
            && (forall i | i in was && i !in done :: live[i] == was[i])
            && (forall i, f | i in done ::
                  Get(RowOf(live[i]), f) == if f in patch(RowOf(was[i])) then Some(patch(RowOf(was[i]))[f]) else Get(RowOf(was[i]), f))
            && (forall i | i in done :: live[i].exp == was[i].exp)
            && (r.Success? ==> forall n :: n in r.value <==> exists i :: i in done && n == RowOf(live[i]))
    ensures Updated(m, mean, old(Snap(ex, m)).live, w, patch, r, done)
    ensures r.Success? && Faithful(m, old(Snap(ex, m)).live, w) ==> done == Matching(mean, old(Snap(ex, m)).live, w)
  {
    ghost var s := Snap(ex, m);
    WhatIsSelected(ex.View(), m, mean, s.now, w);
    r, done := UpdateSelected(ex, m, w, patch, mean, s);
    PatchingIff(ex, m, s, done, patch);
    assert Live(ex.View(), m, s.now) == PatchedLive(s.live, done, patch);
    PatchedMeans(s.live, done, patch);
    if r.Success? {
      RowSetMembers(r.value);
    }
  }

  lemma RowSetMembers(rows: seq<Row>)
    ensures forall n :: n in RowSet(rows) <==> n in rows
  {}

  /** A patched row has the patch's fields, and its own where the patch has none; the others stay. */
  lemma PatchedMeans(live: map<string, Cell>, done: set<string>, patch: Row -> Row)
    ensures var after := PatchedLive(live, done, patch);
            && after.Keys == live.Keys
            && (forall i | i in live && i !in done :: after[i] == live[i])
            && (forall i, f | i in live && i in done ::
                  Get(RowOf(after[i]), f) == if f in patch(RowOf(live[i])) then Some(patch(RowOf(live[i]))[f]) else Get(RowOf(live[i]), f))
            && (forall i | i in live && i in done :: after[i].exp == live[i].exp)
            && (forall n :: n in PatchedRows(live, done, patch) <==> exists i :: i in live && i in done && n == RowOf(after[i]))
  {
    var after := PatchedLive(live, done, patch);
    forall i | i in live && i in done ensures RowOf(after[i]) == After(patch, RowOf(live[i])) {}
  }

  method UpdateSelected(ex: Executor, m: Model, w: Where, patch: Row -> Row, mean: Meaning, ghost s: Snapshot)
    returns (r: Result<seq<Row>, WriteError>, ghost done: set<string>)
    requires Ready(ex, m) && s == Snap(ex, m)
    modifies ex.Repr()
    ensures Patching(ex, m, s, done, patch)
    ensures Updated(m, mean, s.live, w, patch, r, done)
  {
    done := {};
    var found, hits := ExecuteQuery(ex, m, w, mean);
    PatchingStarts(ex, m, s, patch);
    if found.Failure? {
      r := Failure(Rejected(found.error));
      return;
    }
    AnswersList(ex.View(), m, s.now, hits, found.value);
    r, done := UpdateAll(ex, m, found.value, patch, s);
    if r.Success? {
      PatchedRowSet(m, s.live, found.value, patch, r.value);
    }
  }

  /** Each row patched, in order. */
  function AfterAll(patch: Row -> Row, rows: seq<Row>): seq<Row> {
    if rows == [] then [] else AfterAll(patch, rows[..|rows| - 1]) + [After(patch, rows[|rows| - 1])]
  }

  lemma {:induction false} AfterAllAt(patch: Row -> Row, rows: seq<Row>)
    ensures |AfterAll(patch, rows)| == |rows|
    ensures forall a | 0 <= a < |rows| :: AfterAll(patch, rows)[a] == After(patch, rows[a])
  {
    if rows != [] {
      AfterAllAt(patch, rows[..|rows| - 1]);
    }
  }

  ghost function RowSet(rows: seq<Row>): set<Row> {
    set a | 0 <= a < |rows| :: rows[a]
  }

  ghost function PatchedRows(live: map<string, Cell>, ids: set<string>, patch: Row -> Row): set<Row> {
    set i | i in live && i in ids :: After(patch, RowOf(live[i]))
  }

  lemma PatchedRowSet(m: Model, live: map<string, Cell>, rows: seq<Row>, patch: Row -> Row, updated: seq<Row>)
    requires Listing(m, live, rows) && updated == AfterAll(patch, rows)
    ensures RowSet(updated) == PatchedRows(live, IdsOf(m, rows), patch)
  {
    AfterAllAt(patch, rows);
    forall r | r in RowSet(updated) ensures r in PatchedRows(live, IdsOf(m, rows), patch) {
      var a :| 0 <= a < |updated| && updated[a] == r;
      assert IdOf(m, rows[a]) in IdsOf(m, rows);
    }
    forall r | r in PatchedRows(live, IdsOf(m, rows), patch) ensures r in RowSet(updated) {
      var i :| i in live && i in IdsOf(m, rows) && After(patch, RowOf(live[i])) == r;
      var a :| 0 <= a < |rows| && IdOf(m, rows[a]) == i;
      assert updated[a] == r;
    }
  }

  // ---- delete ----

  /** Delete every row the filter selects; the deleted rows are returned. */
  method Delete(ex: Executor, m: Model, w: Where, mean: Meaning)
    returns (r: Result<seq<Row>, QueryError>, ghost hits: set<string>)
    requires Ready(ex, m)
    modifies ex.Repr()
    ensures r.Success? <==> Answerable(m, w)
    ensures hits == Selected(m, mean, old(Snap(ex, m)).live, w)
    ensures r.Success? ==> Answers(m, old(Snap(ex, m)).live, hits, r.value)
    ensures r.Success? && Faithful(m, old(Snap(ex, m)).live, w) ==> hits == Matching(mean, old(Snap(ex, m)).live, w)
    ensures Underway(ex, m, old(Snap(ex, m)), old(Snap(ex, m)).live - hits)
  {
    ghost var s := Snap(ex, m);
    WhatIsSelected(ex.View(), m, mean, s.now, w);
    r, hits := DeleteSelected(ex, m, w, mean, s);
    assert Shown(0);
  }

  method DeleteSelected(ex: Executor, m: Model, w: Where, mean: Meaning, ghost s: Snapshot)
    returns (r: Result<seq<Row>, QueryError>, ghost hits: set<string>)
    requires Ready(ex, m) && s == Snap(ex, m)
    modifies ex.Repr()
    ensures r.Success? <==> Answerable(m, w)
    ensures hits == Selected(m, mean, s.live, w)
    ensures r.Success? ==> Answers(m, s.live, hits, r.value)
    ensures Going(ex, m, s, s.live - hits) && NoneStored(ex, m, s.origin)
  {
    var found, all := ExecuteQuery(ex, m, w, mean);
    hits := all;
    if found.Failure? {
      assert s.live - {} == s.live;
      return Failure(found.error), hits;
    }
    AnswersList(ex.View(), m, s.now, all, found.value);
    DeleteAll(ex, m, found.value, s);
    r := Success(found.value);
  }

  /** No row is stored that was not before; looked at only where `Shown` is mentioned. */
  ghost predicate NoneStored(ex: Executor, m: Model, origin: Db)
    reads ex.Repr()
  {
    forall n: nat {:trigger Shown(n)} :: Shown(n) ==> RowsWithin(origin, ex.View(), m)
  }

  method DeleteAll(ex: Executor, m: Model, rows: seq<Row>, ghost s: Snapshot)
    requires Going(ex, m, s, s.live) && Listing(m, s.live, rows) && NoneStored(ex, m, s.origin)
    modifies ex.Repr()
    ensures Going(ex, m, s, s.live - IdsOf(m, rows)) && NoneStored(ex, m, s.origin)
  {
    ghost var live := s.live;
    assert rows[..|rows|] == rows;
    for i := 0 to |rows|
      invariant Going(ex, m, s, live) && NoneStored(ex, m, s.origin)
      invariant live == s.live - IdsOf(m, rows[..i])
    {
      ListingStep(m, s.live, rows, i);
      MinusStep(s.live, IdsOf(m, rows[..i]), IdOf(m, rows[i]));
      DeleteNext(ex, m, rows[i], s, live);
      live := live - {IdOf(m, rows[i])};
    }
  }

  lemma MinusStep(live: map<string, Cell>, done: set<string>, id: string)
    ensures (live - done) - {id} == live - (done + {id})
    ensures id in live && id !in done ==> id in live - done
  {}

  method DeleteNext(ex: Executor, m: Model, row: Row, ghost s: Snapshot, ghost live: map<string, Cell>)
    requires Going(ex, m, s, live) && IdOf(m, row) in live && IdOf(m, row) in s.live && m.pk in row
    requires NoneStored(ex, m, s.origin)
    modifies ex.Repr()
    ensures Going(ex, m, s, live - {IdOf(m, row)}) && NoneStored(ex, m, s.origin)
  {
    assert Shown(0);
    DeleteOne(ex, m, row, s, live);
  }

  method DeleteOne(ex: Executor, m: Model, row: Row, ghost s: Snapshot, ghost live: map<string, Cell>)
    requires Underway(ex, m, s, live) && IdOf(m, row) in live && IdOf(m, row) in s.live && m.pk in row
    modifies ex.Repr()
    ensures Underway(ex, m, s, live - {IdOf(m, row)}) && RowsWithin(old(ex.View()), ex.View(), m)
  {
    var id := m.IdText(row[m.pk]);
    ghost var before := ex.View();
    LiveMember(before, m, s.now, id);
    MembersAreKeys(before, m, s.now, id);
    DeleteRow(ex, m, id);
    DeletedLive(before, ex.View(), m, s.now, id);
    SameElsewhereTwice(s.origin, before, ex.View(), m);
  }

  /** What deleting a live row leaves. */
  lemma DeletedLive(a: Db, b: Db, m: Model, now: int, id: string)
    requires Inv(a, m, now) && Shaped(b) && Deleted(a, b, m, id) && LiveRow(a, m, id, now)
    ensures Inv(b, m, now) && SameElsewhere(a, b, m) && RowsWithin(a, b, m)
    ensures Live(b, m, now) == Live(a, m, now) - {id}
    ensures Lively(a, m, now) ==> Lively(b, m, now)
    ensures !HasRow(b, m, id)
  {
    LiveIsUnstolen(a, m, id, now);
    DeleteKeepsInv(a, b, m, now, id);
    DeleteRows(a, b, m, id);
    DeleteLive(a, b, m, id, now);
    DeletedElsewhere(a, b, m, now, id);
  }
}
