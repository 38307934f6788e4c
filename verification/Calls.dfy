/**
 One adapter call on either executor, as a step on the rows of its model: what it
 answers and which rows and counter it leaves, over stores without expiries.
 */
module Calls {
  import opened Wrappers
  import opened Filters
  import opened Redis
  import opened Executors
  import opened Indexes
  import opened Engine
  import opened Resolution
  import opened Query
  import opened Adapter

  datatype Call =
    | CreateCall(input: Row, source: PkSource)
    | PatchCall(id: string, patch: Row)
    | UpdateCall(where: Where, change: Row -> Row)
    | DeleteCall(where: Where)
    | FindCall(where: Where)

  /** The rows of the model, the cell of its counter, and the ids that had rows before this call. */
  datatype Abs = Abs(rows: map<string, Cell>, counter: Option<Cell>, past: set<string>)

  /** After a call, with these rows and this counter. */
  function Next(a: Abs, rows: map<string, Cell>, counter: Option<Cell>): Abs {
    Abs(rows, counter, a.past + a.rows.Keys)
  }

  function CounterOf(c: Option<Cell>): int {
    if c.Some? && c.value.data.Count? then c.value.data.n else 0
  }

  // ---- what each call means on rows ----

  function KeyFor(m: Model, a: Abs, input: Row, source: PkSource): Value {
    if PkGiven(m, input) then input[m.pk]
    else match source
         case FromSequence => Int(CounterOf(a.counter) + 1)
         case Generated(v) => v
  }

  function CounterAfter(m: Model, a: Abs, input: Row, source: PkSource): Option<Cell> {
    if !PkGiven(m, input) && source.FromSequence? then Some(Cell(Count(CounterOf(a.counter) + 1), Never)) else a.counter
  }

  ghost function Outcome(m: Model, mean: Meaning, a: Abs, call: Call): (Abs, set<Row>) {
    match call
    case CreateCall(input, source) =>
      var v := KeyFor(m, a, input, source);
      var row := input[m.pk := v];
      (Next(a, a.rows[m.IdText(v) := Cell(RowData(row), Never)], CounterAfter(m, a, input, source)), {row})
    case PatchCall(id, patch) =>
      if id !in a.rows then (Next(a, a.rows, a.counter), {})
      else
        var row := RowOf(a.rows[id]) + patch;
        (Next(a, a.rows[id := Cell(RowData(row), a.rows[id].exp)], a.counter), {row})
    case UpdateCall(w, change) =>
      var hits := Selected(m, mean, a.rows, w);
      (Next(a, PatchedLive(a.rows, hits, change), a.counter), PatchedRows(a.rows, hits, change))
    case DeleteCall(w) =>
      var hits := Selected(m, mean, a.rows, w);
      (Next(a, a.rows - hits, a.counter), RowsOf(a.rows, hits))
    case FindCall(w) => (Next(a, a.rows, a.counter), RowsOf(a.rows, Selected(m, mean, a.rows, w)))
  }

  /** What an update means, field by field, on the rows left and on those answered. */
  lemma UpdateOutcome(m: Model, mean: Meaning, a: Abs, w: Where, change: Row -> Row)
    ensures var hits, (after, reply) := Selected(m, mean, a.rows, w), Outcome(m, mean, a, UpdateCall(w, change));
            && after.rows.Keys == a.rows.Keys
            && (forall i | i in a.rows && i !in hits :: after.rows[i] == a.rows[i])
            && (forall i, f | i in a.rows && i in hits ::
                  Get(RowOf(after.rows[i]), f) ==
                  if f in change(RowOf(a.rows[i])) then Some(change(RowOf(a.rows[i]))[f]) else Get(RowOf(a.rows[i]), f))
            && (forall n :: n in reply <==> exists i :: i in a.rows && i in hits && n == RowOf(after.rows[i]))
  {
    PatchedMeans(a.rows, Selected(m, mean, a.rows, w), change);
  }

  /** What a create means: the key given, else the one drawn, and the input's other fields. */
  lemma CreateMeans(m: Model, mean: Meaning, a: Abs, input: Row, source: PkSource)
    ensures var (after, reply) := Outcome(m, mean, a, CreateCall(input, source));
            var v := if m.pk in input && input[m.pk] != Null then input[m.pk]
                     else if source.Generated? then source.v
                     else Int((if a.counter.Some? && a.counter.value.data.Count? then a.counter.value.data.n else 0) + 1);
            && after.rows == a.rows[m.text(v) := Cell(RowData(input[m.pk := v]), Never)] && reply == {input[m.pk := v]}
  {}

  /**
   The call leaves every row under the key it prints.  A create is not under the
   empty key nor under one deleted before, and over a stored row it is listed
   wherever that row was; patches keep the keys of the rows they change.
   */
  ghost predicate KeysHold(m: Model, mean: Meaning, a: Abs, call: Call) {
    match call
    case CreateCall(input, source) =>
      var v := KeyFor(m, a, input, source);
      var id := m.IdText(v);
      id != "" && if id in a.rows then Outgrows(m, RowOf(a.rows[id]), input[m.pk := v]) else id !in a.past
    case PatchCall(id, patch) => id in a.rows ==> ProperRow(m, id, RowOf(a.rows[id]) + patch)
    case UpdateCall(w, change) => KeepsKeys(m, a.rows, Selected(m, mean, a.rows, w), change)
    case DeleteCall(_) => true
    case FindCall(_) => true
  }

  /** The call cannot be refused: its unique values are free at every step and its filter is answered. */
  ghost predicate Clear(m: Model, mean: Meaning, a: Abs, call: Call) {
    match call
    case CreateCall(input, source) =>
      var v := KeyFor(m, a, input, source);
      !TakenIn(m, a.rows, input[m.pk := v], m.IdText(v))
    case PatchCall(id, patch) => id in a.rows ==> !TakenIn(m, a.rows, RowOf(a.rows[id]) + patch, id)
    case UpdateCall(w, change) => Answerable(m, w) && NeverStuck(m, a.rows, change, Selected(m, mean, a.rows, w))
    case DeleteCall(w) => Answerable(m, w)
    case FindCall(w) => Answerable(m, w)
  }

  ghost predicate NeverStuck(m: Model, rows: map<string, Cell>, change: Row -> Row, hits: set<string>) {
    forall done {:trigger Stuck(m, rows, change, hits, done)} | done <= hits :: !Stuck(m, rows, change, hits, done)
  }

  ghost function RowsOf(live: map<string, Cell>, ids: set<string>): set<Row> {
    set i | i in live && i in ids :: RowOf(live[i])
  }

  lemma AnswersRowSet(m: Model, live: map<string, Cell>, ids: set<string>, out: seq<Row>)
    requires Answers(m, live, ids, out) && ids <= live.Keys
    ensures RowSet(out) == RowsOf(live, ids)
  {
    forall r | r in RowsOf(live, ids) ensures r in RowSet(out) {
      var i :| i in live && i in ids && RowOf(live[i]) == r;
      var a :| 0 <= a < |out| && IdOf(m, out[a]) == i;
    }
  }

  // ---- an executor showing an abstract state ----

  ghost predicate OtherModelsSame(a: Db, b: Db, m: Model) {
    && (forall k: Key :: k.model != m.name ==> CellAt(b, k) == CellAt(a, k))
    && (forall k: Key, j: string :: k.model != m.name ==> ZScore(b, k, j) == ZScore(a, k, j))
    && (forall k: Key, x: Key :: k.model != m.name ==> (InSet(b, k, x) <==> InSet(a, k, x)))
  }

  /** The store holds exactly these rows and this counter for `m`, and `start` elsewhere. */
  ghost predicate StoresNow(db: Db, m: Model, now: int, start: Db, a: Abs) {
    && Inv(db, m, now)
    && Lively(db, m, now)
    && Live(db, m, now) == a.rows
    && CellAt(db, Seq(m.name)) == a.counter
    && (a.counter.Some? ==> a.counter.value.exp == Never)
    && (forall i | i in a.rows :: a.rows[i].exp == Never)
    && OtherModelsSame(start, db, m)
  }

  /** `StoresNow`, looked at only where `Shown` is mentioned. */
  ghost predicate Stores(db: Db, m: Model, now: int, start: Db, a: Abs) {
    forall n: nat {:trigger Shown(n)} :: Shown(n) ==> StoresNow(db, m, now, start, a)
  }

  lemma StoredRows(db: Db, m: Model, now: int, start: Db, a: Abs)
    requires Stores(db, m, now, start, a)
    ensures Lively(db, m, now) && GcSafe(db, m, now) && Live(db, m, now) == a.rows
    ensures forall i | i in a.rows :: a.rows[i].exp == Never
  {
    assert Shown(0);
    LivelyIsGcSafe(db, m, now);
  }

  /** A write confined to the model's rows moves the abstract rows and nothing else. */
  lemma StoresStep(x: Db, y: Db, m: Model, now: int, start: Db, a: Abs, rows: map<string, Cell>)
    requires Stores(x, m, now, start, a) && Inv(y, m, now) && Live(y, m, now) == rows
    requires Lively(x, m, now) ==> Lively(y, m, now)
    requires SameElsewhere(x, y, m)
    requires forall i | i in rows :: rows[i].exp == Never
    ensures Stores(y, m, now, start, Next(a, rows, a.counter))
  {
    assert Shown(0);
    SameChain(start, x, y, m);
  }

  lemma SameChain(start: Db, x: Db, y: Db, m: Model)
    requires OtherModelsSame(start, x, m) && SameElsewhere(x, y, m)
    ensures OtherModelsSame(start, y, m) && CellAt(y, Seq(m.name)) == CellAt(x, Seq(m.name))
  {}

  /** Drawing from the counter moves the abstract counter and nothing else. */
  lemma StoresDrawn(x: Db, m: Model, now: int, start: Db, a: Abs, input: Row, source: PkSource)
    requires Stores(x, m, now, start, a) && Shaped(x)
    ensures Stores(Drawn(x, m, input, source, now), m, now, start, a.(counter := CounterAfter(m, a, input, source)))
  {
    assert Shown(0);
    var y := Drawn(x, m, input, source, now);
    DrawnCounts(x, m, input, source, now);
    DrawnCell(x, m, input, source, now, a);
    CountKeepsInv(x, y, m, m, now);
    CountLively(x, y, m, now);
    CountLive(x, y, m, now);
    CountedElsewhere(start, x, y, m);
  }

  lemma CountedElsewhere(start: Db, x: Db, y: Db, m: Model)
    requires OtherModelsSame(start, x, m) && Counted(x, y, m)
    ensures OtherModelsSame(start, y, m)
  {}

  lemma DrawnCounts(db: Db, m: Model, input: Row, source: PkSource, now: int)
    requires Shaped(db)
    ensures Counted(db, Drawn(db, m, input, source, now), m) && Shaped(Drawn(db, m, input, source, now))
  {
    IncrCounts(db, m, now);
  }

  lemma DrawnCell(db: Db, m: Model, input: Row, source: PkSource, now: int, a: Abs)
    requires CellAt(db, Seq(m.name)) == a.counter && (a.counter.Some? ==> a.counter.value.exp == Never)
    ensures CellAt(Drawn(db, m, input, source, now), Seq(m.name)) == CounterAfter(m, a, input, source)
    ensures NewPk(db, m, input, source, now) == KeyFor(m, a, input, source)
  {}

  lemma StoredKey(db: Db, m: Model, input: Row, source: PkSource, now: int, start: Db, a: Abs)
    requires Stores(db, m, now, start, a)
    ensures NewPk(db, m, input, source, now) == KeyFor(m, a, input, source)
  {
    assert Shown(0);
    DrawnCell(db, m, input, source, now, a);
  }

  /** What surrounds a call: the view and the base store it starts from, and the membership sets deleted before. */
  datatype Origin = Origin(start: Db, base: Db, dropped: iset<Key>)

  /** An executor showing `a`; a transaction's base differs from where it was only in the counter. */
  ghost predicate Showing(ex: Executor, m: Model, o: Origin, a: Abs)
    reads ex.Repr()
  {
    && Poised(ex, m)
    && Stores(ex.View(), m, ex.Now(), o.start, a)
    && BaseKept(ex, m, o.base)
    && DropsOnly(DroppedKeys(ex), m, o.dropped, a)
  }

  /** Of this model only ids that had rows before have been deleted, of others nothing more than before. */
  ghost predicate DropsOnly(dropped: iset<Key>, m: Model, before: iset<Key>, a: Abs) {
    forall k | k in dropped :: k.Member? && if k.model == m.name then k.id in a.past else k in before
  }

  ghost predicate BaseKept(ex: Executor, m: Model, base: Db)
    reads ex.Repr()
  {
    ex.Buffered? ==> CountedOn(base, ex.Store().db, m)
  }

  /** Since `base` only the counter moved; looked at only where `Shown` is mentioned. */
  ghost predicate CountedOn(base: Db, db: Db, m: Model) {
    forall n: nat {:trigger Shown(n)} :: Shown(n) ==> Shaped(db) && Counted(base, db, m)
  }

  // ---- one call ----

  /** The snapshot once a create has drawn its key. */
  ghost function DrawnSnap(s: Snapshot, m: Model, input: Row, source: PkSource): Snapshot {
    s.(origin := Drawn(s.origin, m, input, source, s.now), base := Drawn(s.base, m, input, source, s.now))
  }

  /** A finished call shows the rows it says. */
  lemma AfterWrite(ex: Executor, m: Model, s: Snapshot, o: Origin, a: Abs, rows: map<string, Cell>)
    requires Going(ex, m, s, rows) && Stores(s.origin, m, s.now, o.start, a) && s.live == a.rows
    requires DropsOnly(s.dropped, m, o.dropped, a)
    requires ex.Buffered? ==> CountedOn(o.base, s.base, m)
    ensures BaseKept(ex, m, o.base) && ex.Now() == s.now
    ensures (forall i | i in rows :: rows[i].exp == Never) ==> Showing(ex, m, o, Next(a, rows, a.counter))
  {
    assert Shown(0);
    if forall i | i in rows :: rows[i].exp == Never {
      StoresStep(s.origin, ex.View(), m, s.now, o.start, a, rows);
    }
  }

  /** On the store, what `KeysHold` says of a create on the rows. */
  lemma KeyHoldsHere(ex: Executor, m: Model, mean: Meaning, o: Origin, a: Abs, input: Row, source: PkSource)
    requires Showing(ex, m, o, a) && KeysHold(m, mean, a, CreateCall(input, source))
    ensures KeyFits(ex, m, Snap(ex, m), input, source)
  {
    assert Shown(0);
    var v := KeyFor(m, a, input, source);
    var id := m.IdText(v);
    StoredKey(ex.View(), m, input, source, ex.Now(), o.start, a);
    LiveLookup(ex.View(), m, ex.Now());
    if HasRow(ex.View(), m, id) {
      assert id in a.rows;
    } else {
      assert Member(m.name, id) !in DroppedKeys(ex);
    }
  }

  /** The id a create will use can take its row, and was not deleted before. */
  ghost predicate KeyFits(ex: Executor, m: Model, s: Snapshot, input: Row, source: PkSource)
    reads ex.Repr()
  {
    var v := NewPk(s.origin, m, input, source, s.now);
    CanHold(s.origin, m, m.IdText(v), input[m.pk := v]) && !ex.Dropped(Member(m.name, m.IdText(v)))
  }

  /** A create under a key that fits, its snapshot the one after the draw. */
  method CreateDrawn(ex: Executor, m: Model, input: Row, source: PkSource, ghost before: Snapshot) returns (r: Result<Row, WriteError>)
    requires Sound(ex, m) && Lively(ex.View(), m, ex.Now()) && before == Snap(ex, m)
    requires KeyFits(ex, m, before, input, source)
    modifies ex.Repr()
    ensures Drew(m, before, input, source, r)
    ensures Underway(ex, m, DrawnSnap(before, m, input, source), RowsAfter(m, before, input, source, r))
  {
    var made, drawn := CreateOn(ex, m, input, source, None);
    r := made;
  }

  /** A create is refused exactly for a unique value another row has. */
  ghost predicate Drew(m: Model, s: Snapshot, input: Row, source: PkSource, r: Result<Row, WriteError>) {
    var v := NewPk(s.origin, m, input, source, s.now);
    r == if TakenIn(m, s.live, input[m.pk := v], m.IdText(v)) then Failure(UniqueViolation) else Success(input[m.pk := v])
  }

  ghost function RowsAfter(m: Model, s: Snapshot, input: Row, source: PkSource, r: Result<Row, WriteError>): map<string, Cell> {
    if r.Failure? then s.live
    else s.live[m.IdText(NewPk(s.origin, m, input, source, s.now)) := Cell(RowData(r.value), Never)]
  }

  method CreateStep(ex: Executor, m: Model, input: Row, source: PkSource, ghost before: Snapshot) returns (r: Result<Row, WriteError>)
    requires Poised(ex, m) && Lively(ex.View(), m, ex.Now()) && before == Snap(ex, m)
    requires KeyFits(ex, m, before, input, source)
    modifies ex.Repr()
    ensures Drew(m, before, input, source, r)
    ensures Going(ex, m, DrawnSnap(before, m, input, source), RowsAfter(m, before, input, source, r))
  {
    assert Sound(ex, m) by { assert Shown(0); }
    r := CreateDrawn(ex, m, input, source, before);
  }

  lemma CreateOutcome(m: Model, mean: Meaning, a: Abs, input: Row, source: PkSource)
    requires forall i | i in a.rows :: a.rows[i].exp == Never
    ensures var (b, reply) := Outcome(m, mean, a, CreateCall(input, source));
            var v := KeyFor(m, a, input, source);
            && b == Next(a.(counter := CounterAfter(m, a, input, source)),
                         a.rows[m.IdText(v) := Cell(RowData(input[m.pk := v]), Never)], CounterAfter(m, a, input, source))
            && reply == {input[m.pk := v]}
            && forall i | i in b.rows :: b.rows[i].exp == Never
  {}

  /** The draw, on the abstract state. */
  lemma DrawnBase(base: Db, db: Db, m: Model, input: Row, source: PkSource, now: int)
    requires CountedOn(base, db, m)
    ensures CountedOn(base, Drawn(db, m, input, source, now), m)
  {
    assert Shown(0);
    DrawnCounts(db, m, input, source, now);
  }

  lemma DrewOn(ex: Executor, m: Model, o: Origin, a: Abs, input: Row, source: PkSource)
    requires Showing(ex, m, o, a)
    ensures var s := DrawnSnap(Snap(ex, m), m, input, source);
            Stores(s.origin, m, s.now, o.start, a.(counter := CounterAfter(m, a, input, source))) &&
            (ex.Buffered? ==> CountedOn(o.base, s.base, m))
  {
    assert Shaped(ex.View()) && Stores(ex.View(), m, ex.Now(), o.start, a) && (ex.Buffered? ==> CountedOn(o.base, ex.Store().db, m)) by {
      assert Shown(0);
    }
    StoresDrawn(ex.View(), m, ex.Now(), o.start, a, input, source);
    if ex.Buffered? {
      DrawnBase(o.base, ex.Store().db, m, input, source, ex.Now());
    }
  }

  method InvokeCreate(ex: Executor, m: Model, input: Row, source: PkSource, ghost mean: Meaning, ghost o: Origin, ghost a: Abs)
    returns (r: Result<set<Row>, WriteError>)
    requires Showing(ex, m, o, a) && KeysHold(m, mean, a, CreateCall(input, source))
    modifies ex.Repr()
    ensures BaseKept(ex, m, o.base) && ex.Now() == old(ex.Now())
    ensures Clear(m, mean, a, CreateCall(input, source)) ==> r.Success?
    ensures r.Success? ==>
              Showing(ex, m, o, Outcome(m, mean, a, CreateCall(input, source)).0) &&
              r.value == Outcome(m, mean, a, CreateCall(input, source)).1
  {
    ghost var s := Snap(ex, m);
    StoredRows(s.origin, m, s.now, o.start, a);
    StoredKey(s.origin, m, input, source, s.now, o.start, a);
    DrewOn(ex, m, o, a, input, source);
    KeyHoldsHere(ex, m, mean, o, a, input, source);
    var made := CreateStep(ex, m, input, source, s);
    CreateOutcome(m, mean, a, input, source);
    AfterWrite(ex, m, DrawnSnap(s, m, input, source), o, a.(counter := CounterAfter(m, a, input, source)), RowsAfter(m, s, input, source, made));
    r := if made.Failure? then Failure(made.error) else Success({made.value});
  }

  method PatchNow(ex: Executor, m: Model, id: string, patch: Row, ghost s: Snapshot) returns (r: Result<Option<Row>, WriteError>)
    requires Sound(ex, m) && s == Snap(ex, m) && (id in s.live ==> ProperRow(m, id, RowOf(s.live[id]) + patch))
    modifies ex.Repr()
    ensures r.Failure? ==> Underway(ex, m, s, s.live) && id in s.live && TakenIn(m, s.live, RowOf(s.live[id]) + patch, id)
    ensures r.Success? ==>
              if id !in s.live then r.value == None && Underway(ex, m, s, s.live)
              else
                var n := RowOf(s.live[id]) + patch;
                r.value == Some(n) && Underway(ex, m, s, s.live[id := Cell(RowData(n), s.live[id].exp)])
  {
    r := PersistPatch(ex, m, id, patch);
  }

  method PatchStep(ex: Executor, m: Model, id: string, patch: Row, ghost s: Snapshot) returns (r: Result<Option<Row>, WriteError>)
    requires Poised(ex, m) && s == Snap(ex, m) && (id in s.live ==> ProperRow(m, id, RowOf(s.live[id]) + patch))
    modifies ex.Repr()
    ensures r.Failure? ==> Going(ex, m, s, s.live) && id in s.live && TakenIn(m, s.live, RowOf(s.live[id]) + patch, id)
    ensures r.Success? ==>
              if id !in s.live then r.value == None && Going(ex, m, s, s.live)
              else
                var n := RowOf(s.live[id]) + patch;
                r.value == Some(n) && Going(ex, m, s, s.live[id := Cell(RowData(n), s.live[id].exp)])
  {
    assert Sound(ex, m) by { assert Shown(0); }
    r := PatchNow(ex, m, id, patch, s);
  }

  method InvokePatch(ex: Executor, m: Model, id: string, patch: Row, ghost mean: Meaning, ghost o: Origin, ghost a: Abs)
    returns (r: Result<set<Row>, WriteError>)
    requires Showing(ex, m, o, a) && KeysHold(m, mean, a, PatchCall(id, patch))
    modifies ex.Repr()
    ensures BaseKept(ex, m, o.base) && ex.Now() == old(ex.Now())
    ensures Clear(m, mean, a, PatchCall(id, patch)) ==> r.Success?
    ensures r.Success? ==>
              Showing(ex, m, o, Outcome(m, mean, a, PatchCall(id, patch)).0) &&
              r.value == Outcome(m, mean, a, PatchCall(id, patch)).1
  {
    StoredRows(ex.View(), m, ex.Now(), o.start, a);
    ghost var s := Snap(ex, m);
    var done := PatchStep(ex, m, id, patch, s);
    if done.Failure? {
      AfterWrite(ex, m, s, o, a, a.rows);
      return Failure(done.error);
    }
    AfterWrite(ex, m, s, o, a, Outcome(m, mean, a, PatchCall(id, patch)).0.rows);
    r := Success(if done.value.None? then {} else {done.value.value});
  }

  /** `Update`, answering the set of rows as written. */
  method UpdateStep(ex: Executor, m: Model, w: Where, change: Row -> Row, mean: Meaning, ghost s: Snapshot)
    returns (r: Result<set<Row>, WriteError>, ghost done: set<string>)
    requires Poised(ex, m) && GcSafe(ex.View(), m, ex.Now()) && s == Snap(ex, m)
    requires KeepsKeys(m, s.live, Selected(m, mean, s.live, w), change)
    modifies ex.Repr()
    ensures Going(ex, m, s, PatchedLive(s.live, done, change))
    ensures r.Success? ==> done == Selected(m, mean, s.live, w) && r.value == PatchedRows(s.live, done, change)
    ensures r.Failure? && Answerable(m, w) ==> !NeverStuck(m, s.live, change, Selected(m, mean, s.live, w))
  {
    assert Ready(ex, m) by { assert Shown(0); }
    var updated, patched := UpdateSelected(ex, m, w, change, mean, s);
    done := patched;
    PatchingIff(ex, m, s, done, change);
    r := if updated.Failure? then Failure(updated.error)
    else Success(set n | 0 <= n < |updated.value| :: updated.value[n]);
  }

  method InvokeUpdate(ex: Executor, m: Model, w: Where, change: Row -> Row, mean: Meaning, ghost o: Origin, ghost a: Abs)
    returns (r: Result<set<Row>, WriteError>)
    requires Showing(ex, m, o, a) && KeysHold(m, mean, a, UpdateCall(w, change))
    modifies ex.Repr()
    ensures BaseKept(ex, m, o.base) && ex.Now() == old(ex.Now())
    ensures Clear(m, mean, a, UpdateCall(w, change)) ==> r.Success?
    ensures r.Success? ==>
              Showing(ex, m, o, Outcome(m, mean, a, UpdateCall(w, change)).0) &&
              r.value == Outcome(m, mean, a, UpdateCall(w, change)).1
  {
    StoredRows(ex.View(), m, ex.Now(), o.start, a);
    ghost var s := Snap(ex, m);
    var updated, done := UpdateStep(ex, m, w, change, mean, s);
    AfterWrite(ex, m, s, o, a, PatchedLive(a.rows, done, change));
    r := if updated.Failure? then Failure(updated.error) else Success(updated.value);
  }

  /** `Delete`, answering the set of rows it removed. */
  method DeleteStep(ex: Executor, m: Model, w: Where, mean: Meaning, ghost s: Snapshot) returns (r: Result<set<Row>, QueryError>)
    requires Poised(ex, m) && GcSafe(ex.View(), m, ex.Now()) && s == Snap(ex, m)
    modifies ex.Repr()
    ensures r.Success? <==> Answerable(m, w)
    ensures r.Success? ==> r.value == RowsOf(s.live, Selected(m, mean, s.live, w))
    ensures Going(ex, m, s, s.live - Selected(m, mean, s.live, w))
  {
    assert Ready(ex, m) by { assert Shown(0); }
    var deleted, hits := DeleteSelected(ex, m, w, mean, s);
    if deleted.Failure? {
      return Failure(deleted.error);
    }
    AnswersRowSet(m, s.live, hits, deleted.value);
    r := Success(set n | 0 <= n < |deleted.value| :: deleted.value[n]);
  }

  lemma DeleteOutcome(m: Model, mean: Meaning, a: Abs, w: Where)
    requires forall i | i in a.rows :: a.rows[i].exp == Never
    ensures var b := Outcome(m, mean, a, DeleteCall(w)).0;
            && b == Next(a, a.rows - Selected(m, mean, a.rows, w), a.counter)
            && forall i | i in b.rows :: b.rows[i].exp == Never
  {}

  method InvokeDelete(ex: Executor, m: Model, w: Where, mean: Meaning, ghost o: Origin, ghost a: Abs)
    returns (r: Result<set<Row>, WriteError>)
    requires Showing(ex, m, o, a)
    modifies ex.Repr()
    ensures BaseKept(ex, m, o.base) && ex.Now() == old(ex.Now())
    ensures Clear(m, mean, a, DeleteCall(w)) ==> r.Success?
    ensures r.Success? ==>
              Showing(ex, m, o, Outcome(m, mean, a, DeleteCall(w)).0) &&
              r.value == Outcome(m, mean, a, DeleteCall(w)).1
  {
    StoredRows(ex.View(), m, ex.Now(), o.start, a);
    ghost var s := Snap(ex, m);
    var deleted := DeleteStep(ex, m, w, mean, s);
    DeleteOutcome(m, mean, a, w);
    AfterWrite(ex, m, s, o, a, Outcome(m, mean, a, DeleteCall(w)).0.rows);
    r := if deleted.Failure? then Failure(Rejected(deleted.error)) else Success(deleted.value);
  }

  /** `ExecuteQuery`, answering the set of rows found. */
  method FindStep(ex: Executor, m: Model, w: Where, mean: Meaning, ghost s: Snapshot) returns (r: Result<set<Row>, QueryError>)
    requires Poised(ex, m) && GcSafe(ex.View(), m, ex.Now()) && s == Snap(ex, m)
    modifies ex.Repr()
    ensures Going(ex, m, s, s.live)
    ensures r.Success? <==> Answerable(m, w)
    ensures r.Success? ==> r.value == RowsOf(s.live, Selected(m, mean, s.live, w))
  {
    assert Shown(0);
    var found, hits := ExecuteQuery(ex, m, w, mean);
    if found.Failure? {
      return Failure(found.error);
    }
    AnswersRowSet(m, s.live, hits, found.value);
    r := Success(set n | 0 <= n < |found.value| :: found.value[n]);
  }

  lemma FindOutcome(m: Model, mean: Meaning, a: Abs, w: Where)
    ensures Outcome(m, mean, a, FindCall(w)) == (Next(a, a.rows, a.counter), RowsOf(a.rows, Selected(m, mean, a.rows, w)))
    ensures Clear(m, mean, a, FindCall(w)) <==> Answerable(m, w)
  {}

  method InvokeFind(ex: Executor, m: Model, w: Where, mean: Meaning, ghost o: Origin, ghost a: Abs)
    returns (r: Result<set<Row>, WriteError>)
    requires Showing(ex, m, o, a)
    modifies ex.Repr()
    ensures BaseKept(ex, m, o.base) && ex.Now() == old(ex.Now())
    ensures Clear(m, mean, a, FindCall(w)) ==> r.Success?
    ensures r.Success? ==>
              Showing(ex, m, o, Outcome(m, mean, a, FindCall(w)).0) && r.value == Outcome(m, mean, a, FindCall(w)).1
  {
    StoredRows(ex.View(), m, ex.Now(), o.start, a);
    ghost var s := Snap(ex, m);
    var found := FindStep(ex, m, w, mean, s);
    FindOutcome(m, mean, a, w);
    AfterWrite(ex, m, s, o, a, a.rows);
    r := if found.Failure? then Failure(Rejected(found.error)) else Success(found.value);
  }

  method Invoke(ex: Executor, m: Model, call: Call, mean: Meaning, ghost o: Origin, ghost a: Abs)
    returns (r: Result<set<Row>, WriteError>)
    requires Showing(ex, m, o, a) && KeysHold(m, mean, a, call)
    modifies ex.Repr()
    ensures BaseKept(ex, m, o.base) && ex.Now() == old(ex.Now())
    ensures Clear(m, mean, a, call) ==> r.Success?
    ensures r.Success? ==>
              Showing(ex, m, o, Outcome(m, mean, a, call).0) && r.value == Outcome(m, mean, a, call).1
  {
    match call {
      case CreateCall(input, source) => r := InvokeCreate(ex, m, input, source, mean, o, a);
      case PatchCall(id, patch) => r := InvokePatch(ex, m, id, patch, mean, o, a);
      case UpdateCall(w, change) => r := InvokeUpdate(ex, m, w, change, mean, o, a);
      case DeleteCall(w) => r := InvokeDelete(ex, m, w, mean, o, a);
      case FindCall(w) => r := InvokeFind(ex, m, w, mean, o, a);
    }
  }
}
