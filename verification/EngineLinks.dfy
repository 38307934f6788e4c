/**
 The storage engine's own relationship accessors, run on either executor through
 its find, create, patch and delete.  `belongsToMany` works on the rows of a join
 model, `hasMany` and `hasOne` on a foreign key of the target model; both meet the
 specification in `Links`, with the relation read off the live rows.
 */
module EngineLinks {
  import opened Wrappers
  import opened Filters
  import opened Redis
  import opened Executors
  import opened Indexes
  import opened Engine
  import opened Resolution
  import opened Query
  import opened Adapter
  import opened Calls
  import Links

  /** A join model, its two foreign keys and the lifetime its rows are created with, if any. */
  datatype Join = Join(m: Model, near: string, far: string, ttl: Option<int>)

  /** Both foreign keys can be searched by, and neither is the primary key. */
  predicate Wired(j: Join) {
    Searchable(j.m, j.near) && Searchable(j.m, j.far) && j.near != j.far && j.near != j.m.pk && j.far != j.m.pk
  }

  /** A transaction is given no lifetimes. */
  predicate Lasting(ex: Executor, j: Join) {
    ex.Buffered? ==> j.ttl.None? || j.ttl.value <= 0
  }

  function EndsOf(j: Join): Links.Ends {
    Links.Ends(j.near, j.far)
  }

  function EdgeOf(j: Join, row: Row): Links.Edge {
    Links.EdgeOf(EndsOf(j), row)
  }

  /** The join rows among the live rows, by id. */
  ghost function EdgesOf(j: Join, live: map<string, Cell>): map<string, Links.Edge> {
    map i | i in live :: EdgeOf(j, RowOf(live[i]))
  }

  // ---- the keys creates will draw ----

  /** The next primary keys, and whether they come from the model's counter. */
  datatype Supply = Supply(sequence: bool, keys: seq<Value>)

  ghost predicate FreeKey(db: Db, dropped: iset<Key>, m: Model, v: Value) {
    m.IdText(v) != "" && !HasRow(db, m, m.IdText(v)) && Member(m.name, m.IdText(v)) !in dropped
  }

  /** The next keys are distinct, not stored, not deleted before, and the ones the counter gives if it is used. */
  ghost predicate Stocked(db: Db, dropped: iset<Key>, m: Model, now: int, next: Supply) {
    && (forall n | 0 <= n < |next.keys| :: FreeKey(db, dropped, m, next.keys[n]))
    && (forall n, k | 0 <= n < k < |next.keys| :: m.IdText(next.keys[n]) != m.IdText(next.keys[k]))
    && (next.sequence ==> forall n | 0 <= n < |next.keys| :: next.keys[n] == Int(Counter(db, Seq(m.name), now) + 1 + n))
  }

  function Source(next: Supply): PkSource
    requires next.keys != []
  {
    if next.sequence then FromSequence else Generated(next.keys[0])
  }

  function Rest(next: Supply): Supply
    requires next.keys != []
  {
    next.(keys := next.keys[1..])
  }

  /** No key left: a refused create may have moved the counter. */
  function Spent(next: Supply): Supply {
    next.(keys := [])
  }

  lemma StockKept(x: Db, y: Db, before: iset<Key>, after: iset<Key>, m: Model, now: int, next: Supply)
    requires Stocked(x, before, m, now, next) && RowsWithin(x, y, m) && CellAt(y, Seq(m.name)) == CellAt(x, Seq(m.name))
    requires forall k | k in after && k.Member? && k.model == m.name :: k in before || HasRow(x, m, k.id)
    ensures Stocked(y, after, m, now, next)
  {
    assert Counter(y, Seq(m.name), now) == Counter(x, Seq(m.name), now);
    forall n | 0 <= n < |next.keys| ensures FreeKey(y, after, m, next.keys[n]) {
      assert FreeKey(x, before, m, next.keys[n]);
      assert Member(m.name, m.IdText(next.keys[n])).id == m.IdText(next.keys[n]);
    }
  }

  /** After a create the rest of the keys are still good. */
  lemma StockDrawn(x: Db, y: Db, dropped: iset<Key>, m: Model, now: int, next: Supply)
    requires next.keys != [] && Stocked(x, dropped, m, now, next)
    requires forall i: string {:trigger HasRow(y, m, i)} :: HasRow(y, m, i) ==> HasRow(x, m, i) || i == m.IdText(next.keys[0])
    requires CellAt(y, Seq(m.name)) == if next.sequence then Some(Redis.Bumped(x, Seq(m.name), now)) else CellAt(x, Seq(m.name))
    ensures Stocked(y, dropped, m, now, Rest(next))
  {
    var rest := Rest(next).keys;
    assert forall n | 0 <= n < |rest| :: rest[n] == next.keys[n + 1];
    if next.sequence {
      assert Counter(y, Seq(m.name), now) == Counter(x, Seq(m.name), now) + 1;
    }
    forall n | 0 <= n < |rest| ensures FreeKey(y, dropped, m, rest[n]) {
      assert FreeKey(x, dropped, m, next.keys[n + 1]);
    }
  }

  // ---- what each step keeps ----

  /**
   Between two steps of an accessor, on values: other models are as they were, a
   transaction's base moved in the counter only, and the next keys are good.
   Expired rows may be stored only where no unique key is at stake.
   */
  ghost predicate Grounds(s: Snapshot, buffered: bool, m: Model, o: Origin, next: Supply) {
    && Inv(s.origin, m, s.now) && Shaped(s.origin)
    && s.live == Live(s.origin, m, s.now)
    && (m.uniques == [] || Lively(s.origin, m, s.now))
    && OtherModelsSame(o.start, s.origin, m)
    && (buffered ==> CountedOn(o.base, s.base, m))
    && (forall k | k in s.dropped && k.model != m.name :: k in o.dropped)
    && Stocked(s.origin, s.dropped, m, s.now, next)
  }

  /** `Grounds`, looked at only where `Shown` is mentioned. */
  ghost predicate Grounded(s: Snapshot, buffered: bool, m: Model, o: Origin, next: Supply) {
    forall n: nat {:trigger Shown(n)} :: Shown(n) ==> Grounds(s, buffered, m, o, next)
  }

  /** The executor shows these rows, with all of the above. */
  ghost predicate Serving(ex: Executor, m: Model, o: Origin, live: map<string, Cell>, next: Supply)
    reads ex.Repr()
  {
    Poised(ex, m) && Snap(ex, m).live == live && Grounded(Snap(ex, m), ex.Buffered?, m, o, next)
  }

  /** `Serving`, looked at only where `Shown` is mentioned. */
  ghost predicate Serves(ex: Executor, m: Model, o: Origin, live: map<string, Cell>, next: Supply)
    reads ex.Repr()
  {
    forall n: nat {:trigger Shown(n)} :: Shown(n) ==> Serving(ex, m, o, live, next)
  }

  lemma Close(ex: Executor, m: Model, o: Origin, live: map<string, Cell>, next: Supply)
    requires Serving(ex, m, o, live, next)
    ensures Serves(ex, m, o, live, next)
  {}

  lemma Open(ex: Executor, m: Model, o: Origin, live: map<string, Cell>, next: Supply)
    requires Serves(ex, m, o, live, next)
    ensures Serving(ex, m, o, live, next)
  {
    assert Shown(0);
  }

  /** A serving executor is ready for any operation, and its rows are listed under their own keys. */
  lemma ServesReady(ex: Executor, m: Model, o: Origin, live: map<string, Cell>, next: Supply)
    requires Serves(ex, m, o, live, next)
    ensures Ready(ex, m) && Serving(ex, m, o, live, next)
  {
    assert Shown(0);
    if m.uniques == [] {
      GcSafeWithoutUniques(ex.View(), m, ex.Now());
    } else {
      LivelyIsGcSafe(ex.View(), m, ex.Now());
    }
  }

  lemma ServesKeyed(ex: Executor, m: Model, o: Origin, live: map<string, Cell>, next: Supply)
    requires Serves(ex, m, o, live, next)
    ensures Keyed(m, live)
  {
    assert Shown(0);
    LiveIsKeyed(ex.View(), m, ex.Now());
  }

  /** A step that stores no new id, and deletes membership sets of live rows only, keeps the grounds. */
  lemma GroundsKept(s: Snapshot, t: Snapshot, buffered: bool, m: Model, o: Origin, next: Supply)
    requires Grounded(s, buffered, m, o, next)
    requires Inv(t.origin, m, t.now) && Shaped(t.origin) && t.live == Live(t.origin, m, t.now) && t.now == s.now
    requires SameElsewhere(s.origin, t.origin, m) && RowsWithin(s.origin, t.origin, m)
    requires Lively(s.origin, m, s.now) ==> Lively(t.origin, m, s.now)
    requires buffered ==> t.base == s.base
    requires forall k | k in t.dropped :: k in s.dropped || (k.Member? && k.model == m.name && k.id in s.live)
    ensures Grounded(t, buffered, m, o, next)
  {
    assert Shown(0);
    SameChain(o.start, s.origin, t.origin, m);
    LiveLookup(s.origin, m, s.now);
    StockKept(s.origin, t.origin, s.dropped, t.dropped, m, s.now, next);
  }

  /** A create keeps the grounds, with one key less, or none left if it was refused. */
  lemma GroundsDrawn(s: Snapshot, t: Snapshot, buffered: bool, m: Model, o: Origin, next: Supply, input: Row, r: Result<Row, WriteError>)
    requires Grounded(s, buffered, m, o, next) && m.pk !in input && next.keys != []
    requires Inv(t.origin, m, t.now) && Shaped(t.origin) && t.live == Live(t.origin, m, t.now) && t.now == s.now && t.dropped == s.dropped
    requires SameElsewhere(Drawn(s.origin, m, input, Source(next), s.now), t.origin, m)
    requires RowsAfterCreate(s.origin, t.origin, m, next, r)
    requires Lively(s.origin, m, s.now) ==> Lively(t.origin, m, s.now)
    requires buffered ==> t.base == Drawn(s.base, m, input, Source(next), s.now)
    ensures Grounded(t, buffered, m, o, if r.Success? then Rest(next) else Spent(next))
  {
    assert Grounds(s, buffered, m, o, next) by { assert Shown(0); }
    DrawnElsewhere(o.start, s.origin, t.origin, m, input, Source(next), s.now);
    var left := if r.Success? then Rest(next) else Spent(next);
    assert Stocked(t.origin, s.dropped, m, s.now, left) by {
      if r.Success? {
        StockDrawn(s.origin, t.origin, s.dropped, m, s.now, next);
      }
    }
    if buffered {
      DrawnBase(o.base, s.base, m, input, Source(next), s.now);
    }
    assert Grounds(t, buffered, m, o, left);
  }

  /** A create stores no row but its own. */
  ghost predicate RowsAfterCreate(a: Db, b: Db, m: Model, next: Supply, r: Result<Row, WriteError>)
    requires next.keys != []
  {
    forall i: string {:trigger HasRow(b, m, i)} :: HasRow(b, m, i) ==> HasRow(a, m, i) || (r.Success? && i == m.IdText(next.keys[0]))
  }

  lemma DrawnElsewhere(start: Db, x: Db, y: Db, m: Model, input: Row, source: PkSource, now: int)
    requires OtherModelsSame(start, x, m) && Shaped(x) && SameElsewhere(Drawn(x, m, input, source, now), y, m)
    ensures OtherModelsSame(start, y, m)
    ensures CellAt(y, Seq(m.name)) ==
            if !PkGiven(m, input) && source.FromSequence? then Some(Redis.Bumped(x, Seq(m.name), now)) else CellAt(x, Seq(m.name))
  {
    var drawn := Drawn(x, m, input, source, now);
    DrawnCounts(x, m, input, source, now);
    CountedElsewhere(start, x, drawn, m);
    SameChain(start, drawn, y, m);
  }

  /** The key a create draws is the next one, and is free. */
  lemma NextKey(s: Snapshot, buffered: bool, m: Model, o: Origin, next: Supply, input: Row)
    requires Grounded(s, buffered, m, o, next) && m.pk !in input && next.keys != []
    ensures NewPk(s.origin, m, input, Source(next), s.now) == next.keys[0]
    ensures CanHold(s.origin, m, m.IdText(next.keys[0]), input[m.pk := next.keys[0]])
    ensures Member(m.name, m.IdText(next.keys[0])) !in s.dropped && m.IdText(next.keys[0]) !in s.live
  {
    assert Shown(0);
    assert FreeKey(s.origin, s.dropped, m, next.keys[0]);
    LiveLookup(s.origin, m, s.now);
  }

  // ---- the steps ----

  method FindRows(ex: Executor, m: Model, w: Where, mean: Meaning, ghost o: Origin, ghost live: map<string, Cell>, ghost next: Supply)
    returns (rows: seq<Row>)
    requires Serves(ex, m, o, live, next) && Answerable(m, w)
    modifies ex.Repr()
    ensures ex.Now() == old(ex.Now()) && Serves(ex, m, o, live, next)
    ensures Answers(m, live, Selected(m, mean, live, w), rows)
  {
    ServesReady(ex, m, o, live, next);
    ghost var s := Snap(ex, m);
    var found, hits := ExecuteQuery(ex, m, w, mean);
    GroundsKept(s, Snap(ex, m), ex.Buffered?, m, o, next);
    Close(ex, m, o, live, next);
    rows := found.value;
  }

  /** What a create does to a snapshot of a sound executor whose next key is free. */
  ghost predicate Made(s: Snapshot, t: Snapshot, buffered: bool, m: Model, input: Row, source: PkSource, exp: Score, v: Value, r: Result<Row, WriteError>) {
    var (row, id) := (input[m.pk := v], m.IdText(v));
    && Inv(t.origin, m, t.now) && Shaped(t.origin) && t.live == Live(t.origin, m, t.now) && t.now == s.now && t.dropped == s.dropped
    && SameElsewhere(Drawn(s.origin, m, input, source, s.now), t.origin, m)
    && (forall i: string {:trigger HasRow(t.origin, m, i)} :: HasRow(t.origin, m, i) ==> HasRow(s.origin, m, i) || (r.Success? && i == id))
    && (Lively(s.origin, m, s.now) ==> Lively(t.origin, m, s.now))
    && (buffered ==> t.base == Drawn(s.base, m, input, source, s.now))
    && t.live == (if r.Success? then s.live[id := Cell(RowData(row), exp)] else s.live)
    && (r.Success? ==> r.value == row)
  }

  method MakeRow(ex: Executor, m: Model, input: Row, source: PkSource, ttl: Option<int>, ghost v: Value)
    returns (r: Result<Row, WriteError>)
    requires Sound(ex, m) && v == NewPk(ex.View(), m, input, source, ex.Now())
    requires CanHold(ex.View(), m, m.IdText(v), input[m.pk := v]) && !ex.Dropped(Member(m.name, m.IdText(v)))
    requires ex.Buffered? ==> ttl.None? || ttl.value <= 0
    modifies ex.Repr()
    ensures Sound(ex, m)
    ensures Made(old(Snap(ex, m)), Snap(ex, m), ex.Buffered?, m, input, source, Deadline(ttl, ex.Now()), v, r)
  {
    ghost var s := Snap(ex, m);
    var made, drawn := CreateOn(ex, m, input, source, ttl);
    r := made;
    assert DroppedKeys(ex) == s.dropped && Sound(ex, m);
    MadeMeans(s, Snap(ex, m), ex.Buffered?, m, input, source, Deadline(ttl, ex.Now()), v, r);
  }

  lemma MadeMeans(s: Snapshot, t: Snapshot, buffered: bool, m: Model, input: Row, source: PkSource, exp: Score, v: Value, r: Result<Row, WriteError>)
    requires Inv(t.origin, m, t.now) && Shaped(t.origin) && t.now == s.now && t.dropped == s.dropped
    requires s.live == Live(s.origin, m, s.now) && t.live == Live(t.origin, m, t.now)
    requires SameElsewhere(Drawn(s.origin, m, input, source, s.now), t.origin, m)
    requires Inserted(s.origin, t.origin, m, s.now, m.IdText(v), input[m.pk := v], exp, r)
    requires buffered ==> t.base == Drawn(s.base, m, input, source, s.now)
    ensures Made(s, t, buffered, m, input, source, exp, v, r)
  {}

  method CreateRow(ex: Executor, m: Model, input: Row, source: PkSource, ttl: Option<int>, ghost o: Origin, ghost live: map<string, Cell>, ghost next: Supply)
    returns (r: Result<Row, WriteError>, ghost after: map<string, Cell>)
    requires Serves(ex, m, o, live, next) && m.pk !in input && next.keys != [] && source == Source(next)
    requires ex.Buffered? ==> ttl.None? || ttl.value <= 0
    modifies ex.Repr()
    ensures ex.Now() == old(ex.Now())
    ensures Serves(ex, m, o, after, if r.Success? then Rest(next) else Spent(next))
    ensures r.Failure? ==> after == live
    ensures var row := input[m.pk := next.keys[0]];
            var id := m.IdText(next.keys[0]);
            r.Success? ==> r.value == row && id !in live && after == live[id := Cell(RowData(row), Deadline(ttl, ex.Now()))]
  {
    Open(ex, m, o, live, next);
    ghost var s := Snap(ex, m);
    NextKey(s, ex.Buffered?, m, o, next, input);
    assert Sound(ex, m) by { assert Shown(0); }
    r := MakeRow(ex, m, input, source, ttl, next.keys[0]);
    after := Live(ex.View(), m, s.now);
    GroundsDrawn(s, Snap(ex, m), ex.Buffered?, m, o, next, input, r);
    Close(ex, m, o, after, if r.Success? then Rest(next) else Spent(next));
  }

  method PatchRow(ex: Executor, m: Model, id: string, patch: Row, ghost o: Origin, ghost live: map<string, Cell>, ghost next: Supply)
    returns (r: Result<Option<Row>, WriteError>, ghost after: map<string, Cell>)
    requires Serves(ex, m, o, live, next) && m.pk !in patch
    modifies ex.Repr()
    ensures ex.Now() == old(ex.Now()) && Serves(ex, m, o, after, next)
    ensures after == if r.Success? && id in live then live[id := Cell(RowData(RowOf(live[id]) + patch), live[id].exp)] else live
    ensures r.Failure? ==> id in live && TakenIn(m, live, RowOf(live[id]) + patch, id)
  {
    Open(ex, m, o, live, next);
    ghost var s := Snap(ex, m);
    assert Sound(ex, m) by { assert Shown(0); }
    if id in live {
      LiveMember(s.origin, m, s.now, id);
    }
    r := PersistPatch(ex, m, id, patch);
    after := Live(ex.View(), m, s.now);
    GroundsKept(s, Snap(ex, m), ex.Buffered?, m, o, next);
    Close(ex, m, o, after, next);
  }

  method DeleteWhere(ex: Executor, m: Model, w: Where, mean: Meaning, ghost o: Origin, ghost live: map<string, Cell>, ghost next: Supply)
    requires Serves(ex, m, o, live, next) && Answerable(m, w)
    modifies ex.Repr()
    ensures ex.Now() == old(ex.Now()) && Serves(ex, m, o, live - Selected(m, mean, live, w), next)
  {
    ServesReady(ex, m, o, live, next);
    ghost var s := Snap(ex, m);
    var deleted, hits := DeleteSelected(ex, m, w, mean, s);
    DeletedServes(ex, m, o, s, s.live - hits, next);
  }

  lemma DeletedServes(ex: Executor, m: Model, o: Origin, s: Snapshot, live: map<string, Cell>, next: Supply)
    requires Going(ex, m, s, live) && NoneStored(ex, m, s.origin) && Grounded(s, ex.Buffered?, m, o, next)
    ensures ex.Now() == s.now && Serves(ex, m, o, live, next)
  {
    assert Shown(0);
    GroundsKept(s, Snap(ex, m), ex.Buffered?, m, o, next);
  }

  // ---- filters on the join model ----

  /** The filter of a pair, or of a source alone. */
  function EdgeWhere(j: Join, source: Value, target: Option<Value>): Where {
    match target
    case None => Equals(j.near, source)
    case Some(t) => Where([And(Lower, [Equals(j.near, source), Equals(j.far, t)])])
  }

  function Only(target: Option<Value>): Option<set<Value>> {
    match target
    case None => None
    case Some(t) => Some({t})
  }

  lemma EqualsAnswered(m: Model, field: string, v: Value)
    requires Searchable(m, field)
    ensures Answerable(m, Equals(field, v))
  {
    assert Equals(field, v).clauses == [Field(field, Scalar(v))];
    assert Seeds(m, Equals(field, v).clauses[0]);
  }

  lemma EdgeAnswered(j: Join, source: Value, target: Option<Value>)
    requires Wired(j)
    ensures Answerable(j.m, EdgeWhere(j, source, target))
  {
    EqualsAnswered(j.m, j.near, source);
    if target.Some? {
      EqualsAnswered(j.m, j.far, target.value);
      var subs := [Equals(j.near, source), Equals(j.far, target.value)];
      var w := EdgeWhere(j, source, target);
      assert w.clauses == [And(Lower, subs)];
      assert subs[0].clauses != [];
      assert Seeds(j.m, w.clauses[0]);
    }
  }

  lemma EdgeMatches(j: Join, mean: Meaning, row: Row, source: Value, target: Option<Value>)
    ensures MatchWhere(mean, row, EdgeWhere(j, source, target)) <==> Links.Named(EdgeOf(j, row), source, Only(target))
  {
    MatchEquals(mean, row, j.near, source);
    if target.Some? {
      MatchEquals(mean, row, j.far, target.value);
      var subs := [Equals(j.near, source), Equals(j.far, target.value)];
      var w := EdgeWhere(j, source, target);
      assert w.clauses == [And(Lower, subs)];
      assert MatchWhere(mean, row, w) <==> MatchClause(mean, row, w.clauses[0]);
      assert MatchClause(mean, row, And(Lower, subs)) <==> MatchWhere(mean, row, subs[0]) && MatchWhere(mean, row, subs[1]);
    }
  }

  lemma EdgeFaithful(j: Join, live: map<string, Cell>, source: Value, target: Option<Value>)
    requires Told(j.m, live, j.near, source) && (target.Some? ==> Told(j.m, live, j.far, target.value))
    ensures Faithful(j.m, live, EdgeWhere(j, source, target))
  {
    assert Faithful(j.m, live, Equals(j.near, source));
    if target.Some? {
      assert Faithful(j.m, live, Equals(j.far, target.value));
      assert EdgeWhere(j, source, target).clauses == [And(Lower, [Equals(j.near, source), Equals(j.far, target.value)])];
    }
  }

  /** A find or delete by keys reaches exactly the join rows named. */
  lemma EdgeSelects(j: Join, mean: Meaning, live: map<string, Cell>, source: Value, target: Option<Value>)
    requires Wired(j) && Keyed(j.m, live)
    requires Told(j.m, live, j.near, source) && (target.Some? ==> Told(j.m, live, j.far, target.value))
    ensures forall i :: i in Selected(j.m, mean, live, EdgeWhere(j, source, target)) <==>
                    i in live && Links.Named(EdgesOf(j, live)[i], source, Only(target))
  {
    EdgeAnswered(j, source, target);
    EdgeFaithful(j, live, source, target);
    SelectedIsMatching(j.m, mean, live, EdgeWhere(j, source, target));
    forall i | i in live
      ensures MatchWhere(mean, RowOf(live[i]), EdgeWhere(j, source, target)) <==> Links.Named(EdgesOf(j, live)[i], source, Only(target))
    {
      EdgeMatches(j, mean, RowOf(live[i]), source, target);
    }
  }

  /** The keys the rows hold and the keys named print distinctly. */
  ghost predicate AllTold(j: Join, live: map<string, Cell>, source: Value, ts: seq<Value>) {
    && Told(j.m, live, j.near, source)
    && (forall t | t in ts :: Told(j.m, live, j.far, t))
    && (forall t, u | t in ts && u in ts && j.m.Segment(t) == j.m.Segment(u) :: t == u)
  }

  /** Keys the attributes name print unlike the keys asked for, unless they are the same. */
  predicate AttributesTold(j: Join, source: Value, ts: seq<Value>, data: Row) {
    && (j.near in data && j.m.Segment(data[j.near]) == j.m.Segment(source) ==> data[j.near] == source)
    && (j.far in data ==> forall t | t in ts && j.m.Segment(data[j.far]) == j.m.Segment(t) :: data[j.far] == t)
  }

  lemma ToldAfterLink(j: Join, live: map<string, Cell>, source: Value, ts: seq<Value>, data: Row, id: string, c: Cell, t: Value)
    requires Wired(j) && AllTold(j, live, source, ts) && AttributesTold(j, source, ts, data) && t in ts
    requires c.data.RowData? && Links.Written(EndsOf(j), c.data.row, source, t, data)
    ensures AllTold(j, live[id := c], source, ts)
  {}

  lemma ToldAfterDelete(j: Join, live: map<string, Cell>, source: Value, ts: seq<Value>, gone: set<string>)
    requires AllTold(j, live, source, ts)
    ensures AllTold(j, live - gone, source, ts)
  {}

  // ---- belongsToMany ----

  /**
   Link one target: create the join row, or patch the first one there.  Attributes
   are spread over the row last, so a key they name replaces the pair's.
   */
  method LinkOne(ex: Executor, j: Join, source: Value, target: Value, data: Row, pk: PkSource, mean: Meaning,
                 ghost o: Origin, ghost live: map<string, Cell>, ghost next: Supply, ghost ts: seq<Value>)
    returns (r: Result<bool, WriteError>, ghost after: map<string, Cell>)
    requires Serves(ex, j.m, o, live, next) && next.keys != [] && pk == Source(next) && Lasting(ex, j)
    requires Wired(j) && j.m.pk !in data && AllTold(j, live, source, ts) && AttributesTold(j, source, ts, data) && target in ts
    modifies ex.Repr()
    ensures ex.Now() == old(ex.Now())
    ensures Serves(ex, j.m, o, after, if r.Failure? then Spent(next) else if r.value then Rest(next) else next)
    ensures r.Failure? ==> after == live
    ensures r.Success? ==> Links.LinkedAs(EndsOf(j), EdgesOf(j, live), EdgesOf(j, after), source, target, data) && AllTold(j, after, source, ts)
  {
    var existing := FindPair(ex, j, source, target, mean, o, live, next);
    if existing.None? {
      var input := map[j.near := source, j.far := target] + data;
      var made;
      made, after := CreateRow(ex, j.m, input, pk, j.ttl, o, live, next);
      if made.Failure? {
        return Failure(made.error), after;
      }
      EdgeCreated(j, live, source, target, data, Deadline(j.ttl, ex.Now()), next, ts);
      r := Success(true);
    } else if data == map[] {
      after := live;
      EdgeKept(j, live, source, target, existing.value);
      r := Success(false);
    } else {
      var done;
      done, after := PatchRow(ex, j.m, existing.value, data, o, live, next);
      if done.Failure? {
        SpentServes(ex, j.m, o, live, next);
        return Failure(done.error), after;
      }
      EdgePatched(j, live, source, target, data, existing.value, ts);
      r := Success(false);
    }
  }

  /** The id of a join row of the pair, if there is one. */
  method FindPair(ex: Executor, j: Join, source: Value, target: Value, mean: Meaning,
                  ghost o: Origin, ghost live: map<string, Cell>, ghost next: Supply)
    returns (id: Option<string>)
    requires Serves(ex, j.m, o, live, next) && Wired(j)
    requires Told(j.m, live, j.near, source) && Told(j.m, live, j.far, target)
    modifies ex.Repr()
    ensures ex.Now() == old(ex.Now()) && Serves(ex, j.m, o, live, next)
    ensures id.None? <==> target !in Links.Linked(EdgesOf(j, live), source)
    ensures id.Some? ==> id.value in live && Links.Pairs(EdgesOf(j, live)[id.value], source, target)
  {
    ServesKeyed(ex, j.m, o, live, next);
    EdgeAnswered(j, source, Some(target));
    EdgeSelects(j, mean, live, source, Some(target));
    var rows := FindRows(ex, j.m, EdgeWhere(j, source, Some(target)), mean, o, live, next);
    if rows == [] {
      NoEdge(j, mean, live, source, target, rows);
      id := None;
    } else {
      EdgeFound(j, mean, live, source, target, rows);
      id := Some(j.m.IdText(rows[0][j.m.pk]));
    }
  }

  lemma SpentServes(ex: Executor, m: Model, o: Origin, live: map<string, Cell>, next: Supply)
    requires Serves(ex, m, o, live, next)
    ensures Serves(ex, m, o, live, Spent(next))
  {
    assert Shown(0);
  }

  lemma NoEdge(j: Join, mean: Meaning, live: map<string, Cell>, source: Value, target: Value, rows: seq<Row>)
    requires Answers(j.m, live, Selected(j.m, mean, live, EdgeWhere(j, source, Some(target))), rows) && rows == []
    requires forall i :: i in Selected(j.m, mean, live, EdgeWhere(j, source, Some(target))) <==>
                     i in live && Links.Named(EdgesOf(j, live)[i], source, Some({target}))
    ensures target !in Links.Linked(EdgesOf(j, live), source)
  {}

  lemma EdgeFound(j: Join, mean: Meaning, live: map<string, Cell>, source: Value, target: Value, rows: seq<Row>)
    requires Keyed(j.m, live) && rows != []
    requires Answers(j.m, live, Selected(j.m, mean, live, EdgeWhere(j, source, Some(target))), rows)
    requires forall i :: i in Selected(j.m, mean, live, EdgeWhere(j, source, Some(target))) <==>
                     i in live && Links.Named(EdgesOf(j, live)[i], source, Some({target}))
    ensures target in Links.Linked(EdgesOf(j, live), source)
    ensures j.m.pk in rows[0] && j.m.IdText(rows[0][j.m.pk]) in live
    ensures Links.Pairs(EdgesOf(j, live)[j.m.IdText(rows[0][j.m.pk])], source, target)
  {
    var id := IdOf(j.m, rows[0]);
    assert id in live && rows[0] == RowOf(live[id]) && j.m.pk in RowOf(live[id]);
    assert Links.Named(EdgesOf(j, live)[id], source, Some({target}));
  }

  lemma EdgeCreated(j: Join, live: map<string, Cell>, source: Value, target: Value, data: Row, exp: Score, next: Supply, ts: seq<Value>)
    requires Wired(j) && j.m.pk !in data && next.keys != [] && target !in Links.Linked(EdgesOf(j, live), source)
    requires AllTold(j, live, source, ts) && AttributesTold(j, source, ts, data) && target in ts && j.m.IdText(next.keys[0]) !in live
    ensures var row := (map[j.near := source, j.far := target] + data)[j.m.pk := next.keys[0]];
            var after := live[j.m.IdText(next.keys[0]) := Cell(RowData(row), exp)];
            Links.LinkedAs(EndsOf(j), EdgesOf(j, live), EdgesOf(j, after), source, target, data) && AllTold(j, after, source, ts)
  {
    var row := (map[j.near := source, j.far := target] + data)[j.m.pk := next.keys[0]];
    var id := j.m.IdText(next.keys[0]);
    var after := live[id := Cell(RowData(row), exp)];
    assert EdgesOf(j, after) == EdgesOf(j, live)[id := EdgeOf(j, row)];
    assert Links.Written(EndsOf(j), row, source, target, data);
    Links.AppendLinkedAs(EndsOf(j), EdgesOf(j, live), id, row, source, target, data);
    ToldAfterLink(j, live, source, ts, data, id, Cell(RowData(row), exp), target);
  }

  lemma EdgePatched(j: Join, live: map<string, Cell>, source: Value, target: Value, data: Row, id: string, ts: seq<Value>)
    requires Wired(j) && id in live && Links.Pairs(EdgesOf(j, live)[id], source, target)
    requires AllTold(j, live, source, ts) && AttributesTold(j, source, ts, data) && target in ts
    ensures var after := live[id := Cell(RowData(RowOf(live[id]) + data), live[id].exp)];
            Links.LinkedAs(EndsOf(j), EdgesOf(j, live), EdgesOf(j, after), source, target, data) && AllTold(j, after, source, ts)
  {
    var row := RowOf(live[id]) + data;
    var after := live[id := Cell(RowData(row), live[id].exp)];
    assert EdgesOf(j, after) == EdgesOf(j, live)[id := EdgeOf(j, row)];
    assert data == map[] ==> row == RowOf(live[id]);
    Links.AttributesLinkIff(EndsOf(j), source, target, data, RowOf(live[id]));
    Links.RewriteLinkedAs(EndsOf(j), EdgesOf(j, live), id, row, source, target, data);
    ToldAfterLink(j, live, source, ts, data, id, Cell(RowData(row), live[id].exp), target);
  }

  /** No attributes: the row there is left as it is. */
  lemma EdgeKept(j: Join, live: map<string, Cell>, source: Value, target: Value, id: string)
    requires id in live && Links.Pairs(EdgesOf(j, live)[id], source, target)
    ensures Links.LinkedAs(EndsOf(j), EdgesOf(j, live), EdgesOf(j, live), source, target, map[])
  {
    var edges := EdgesOf(j, live);
    assert edges[id := EdgeOf(j, RowOf(live[id]))] == edges;
    Links.RewriteLinkedAs(EndsOf(j), edges, id, RowOf(live[id]), source, target, map[]);
  }

  /** The keys left once `drawn` of them are used. */
  function LeftAfter(next: Supply, drawn: nat): Supply
    requires drawn <= |next.keys|
  {
    next.(keys := next.keys[drawn..])
  }

  /**
   `add`: link each target in turn, until one is refused.  `uuids` are the keys a
   model without a counter will draw.
   */
  method Add(ex: Executor, j: Join, source: Value, ts: seq<Value>, data: Row, uuids: Option<seq<Value>>, mean: Meaning,
             ghost o: Origin, ghost live: map<string, Cell>, ghost next: Supply)
    returns (error: Option<WriteError>, ghost after: map<string, Cell>, ghost linked: nat)
    requires Serves(ex, j.m, o, live, next) && |ts| <= |next.keys|
    requires AllTold(j, live, source, ts) && Asked(j, source, ts, data, uuids, next) && Lasting(ex, j)
    modifies ex.Repr()
    ensures ex.Now() == old(ex.Now()) && Serves(ex, j.m, o, after, Spent(next))
    ensures linked <= |ts| && (error.None? ==> linked == |ts|)
    ensures Links.Adds(EdgesOf(j, live), EdgesOf(j, after), source, ts[..linked], data) <==> Links.AllKeysStand(EndsOf(j), data, source, ts[..linked])
    ensures Links.AddsAs(EndsOf(j), EdgesOf(j, live), EdgesOf(j, after), source, ts[..linked], data)
  {
    AddingStarts(ex, j, o, live, source, ts, data, uuids, next);
    ghost var used;
    error, after, linked, used := AddEach(ex, j, source, ts, data, uuids, mean, o, live, next);
    AddingEnds(ex, j, o, live, after, source, ts, linked, data, uuids, next, used);
  }

  /** The loop of `add`. */
  method AddEach(ex: Executor, j: Join, source: Value, ts: seq<Value>, data: Row, uuids: Option<seq<Value>>, mean: Meaning,
                 ghost o: Origin, ghost live: map<string, Cell>, ghost next: Supply)
    returns (error: Option<WriteError>, ghost after: map<string, Cell>, ghost linked: nat, ghost used: nat)
    requires Adding(ex, j, o, live, live, source, ts, 0, data, uuids, next, 0) && |ts| <= |next.keys| && Lasting(ex, j)
    modifies ex.Repr()
    ensures ex.Now() == old(ex.Now())
    ensures linked <= |ts| && (error.None? ==> linked == |ts|)
    ensures Adding(ex, j, o, live, after, source, ts, linked, data, uuids, next, used)
  {
    after, used, error := live, 0, None;
    var n: nat, drawn: nat := 0, 0;
    while n < |ts| && error.None?
      invariant n <= |ts| && (error.None? ==> drawn == used && used <= n) && (error.Some? ==> n < |ts|)
      invariant ex.Now() == old(ex.Now())
      invariant Adding(ex, j, o, live, after, source, ts, n, data, uuids, next, used)
      decreases |ts| - n, error.None?
    {
      error, n, drawn, used, after := AddNext(ex, j, source, ts, n, data, uuids, drawn, mean, o, live, after, next);
    }
    linked := n;
  }

  /** What `add` is given: keys to draw as the model draws them, and attributes that leave the join row's own key alone. */
  ghost predicate Asked(j: Join, source: Value, ts: seq<Value>, data: Row, uuids: Option<seq<Value>>, next: Supply) {
    && uuids == (if next.sequence then None else Some(next.keys))
    && Wired(j) && j.m.pk !in data && AttributesTold(j, source, ts, data)
  }

  /** The marker `Adding` is opened by, so that opening it leaves what `Shown` opens closed. */
  ghost predicate Turn(n: nat) { true }

  /** The first `n` targets are linked and `drawn` keys are used; looked at only where `Turn` is mentioned. */
  ghost predicate Adding(ex: Executor, j: Join, o: Origin, live: map<string, Cell>, after: map<string, Cell>, source: Value,
                         ts: seq<Value>, n: nat, data: Row, uuids: Option<seq<Value>>, next: Supply, drawn: nat)
    reads ex.Repr()
  {
    forall k: nat {:trigger Turn(k)} :: Turn(k) ==>
      && drawn <= |next.keys| && Asked(j, source, ts, data, uuids, next)
      && Serves(ex, j.m, o, after, LeftAfter(next, drawn))
      && Added(j, live, after, source, ts, n, data)
  }

  lemma AddingStarts(ex: Executor, j: Join, o: Origin, live: map<string, Cell>, source: Value, ts: seq<Value>, data: Row,
                     uuids: Option<seq<Value>>, next: Supply)
    requires Serves(ex, j.m, o, live, next) && AllTold(j, live, source, ts) && Asked(j, source, ts, data, uuids, next)
    ensures Adding(ex, j, o, live, live, source, ts, 0, data, uuids, next, 0)
  {
    AddedNone(j, live, source, ts, data);
    assert LeftAfter(next, 0) == next;
  }

  lemma AddingEnds(ex: Executor, j: Join, o: Origin, live: map<string, Cell>, after: map<string, Cell>, source: Value,
                   ts: seq<Value>, n: nat, data: Row, uuids: Option<seq<Value>>, next: Supply, drawn: nat)
    requires Adding(ex, j, o, live, after, source, ts, n, data, uuids, next, drawn) && n <= |ts|
    ensures Serves(ex, j.m, o, after, Spent(next))
    ensures Links.AddsAs(EndsOf(j), EdgesOf(j, live), EdgesOf(j, after), source, ts[..n], data)
    ensures Links.Adds(EdgesOf(j, live), EdgesOf(j, after), source, ts[..n], data) <==> Links.AllKeysStand(EndsOf(j), data, source, ts[..n])
  {
    assert drawn <= |next.keys| && Serves(ex, j.m, o, after, LeftAfter(next, drawn)) && Added(j, live, after, source, ts, n, data) by {
      assert Turn(0);
    }
    assert Spent(LeftAfter(next, drawn)) == Spent(next);
    SpentServes(ex, j.m, o, after, LeftAfter(next, drawn));
    AddedMeans(j, live, after, source, ts, n, data);
  }

  /** The first `n` targets are linked; looked at only where `Shown` is mentioned. */
  ghost predicate Added(j: Join, live: map<string, Cell>, after: map<string, Cell>, source: Value, ts: seq<Value>, n: nat, data: Row) {
    forall k: nat {:trigger Shown(k)} :: Shown(k) ==>
      n <= |ts| && AllTold(j, after, source, ts) && Links.AddsAs(EndsOf(j), EdgesOf(j, live), EdgesOf(j, after), source, ts[..n], data)
  }

  lemma AddedNone(j: Join, live: map<string, Cell>, source: Value, ts: seq<Value>, data: Row)
    requires AllTold(j, live, source, ts)
    ensures Added(j, live, live, source, ts, 0, data)
  {
    assert ts[..0] == [];
    Links.AddsNone(EdgesOf(j, live), source, data);
  }

  lemma AddedMeans(j: Join, live: map<string, Cell>, after: map<string, Cell>, source: Value, ts: seq<Value>, n: nat, data: Row)
    requires Added(j, live, after, source, ts, n, data) && n <= |ts|
    ensures Links.AddsAs(EndsOf(j), EdgesOf(j, live), EdgesOf(j, after), source, ts[..n], data)
    ensures Links.Adds(EdgesOf(j, live), EdgesOf(j, after), source, ts[..n], data) <==> Links.AllKeysStand(EndsOf(j), data, source, ts[..n])
  {
    assert Shown(0);
    Links.AddsIff(EndsOf(j), EdgesOf(j, live), EdgesOf(j, after), source, ts[..n], data);
  }

  /** One turn of `add`. */
  method AddNext(ex: Executor, j: Join, source: Value, ts: seq<Value>, n: nat, data: Row, uuids: Option<seq<Value>>, drawn: nat, mean: Meaning,
                 ghost o: Origin, ghost live: map<string, Cell>, ghost before: map<string, Cell>, ghost next: Supply)
    returns (error: Option<WriteError>, done: nat, further: nat, ghost used: nat, ghost after: map<string, Cell>)
    requires drawn <= n < |ts| <= |next.keys| && Adding(ex, j, o, live, before, source, ts, n, data, uuids, next, drawn) && Lasting(ex, j)
    modifies ex.Repr()
    ensures ex.Now() == old(ex.Now()) && done == (if error.None? then n + 1 else n)
    ensures error.None? ==> further == used && used <= done
    ensures Adding(ex, j, o, live, after, source, ts, done, data, uuids, next, used)
  {
    assert Serves(ex, j.m, o, before, LeftAfter(next, drawn)) && Added(j, live, before, source, ts, n, data) && Asked(j, source, ts, data, uuids, next) by {
      assert Turn(0);
    }
    var pk := if uuids.Some? then Generated(uuids.value[drawn]) else FromSequence;
    ghost var left := LeftAfter(next, drawn);
    assert pk == Source(left) && Rest(left) == LeftAfter(next, drawn + 1) && Spent(left) == LeftAfter(next, |next.keys|);
    assert AllTold(j, before, source, ts) by {
      assert Shown(0);
    }
    var one;
    one, after := LinkOne(ex, j, source, ts[n], data, pk, mean, o, before, left, ts);
    if one.Failure? {
      return Some(one.error), n, drawn, |next.keys|, after;
    }
    AddedNext(j, live, before, after, source, ts, n, data);
    error, done, further := None, n + 1, if one.value then drawn + 1 else drawn;
    used := further;
  }

  lemma AddedNext(j: Join, live: map<string, Cell>, before: map<string, Cell>, after: map<string, Cell>, source: Value, ts: seq<Value>, n: nat, data: Row)
    requires Added(j, live, before, source, ts, n, data) && n < |ts|
    requires Links.LinkedAs(EndsOf(j), EdgesOf(j, before), EdgesOf(j, after), source, ts[n], data) && AllTold(j, after, source, ts)
    ensures Added(j, live, after, source, ts, n + 1, data)
  {
    assert Shown(0);
    Links.AddsAsMore(EndsOf(j), EdgesOf(j, live), EdgesOf(j, before), EdgesOf(j, after), source, ts, n, data);
  }

  /** A delete by keys takes exactly the join rows named. */
  lemma EdgesDeleted(j: Join, mean: Meaning, live: map<string, Cell>, source: Value, target: Option<Value>)
    requires Wired(j) && Keyed(j.m, live)
    requires Told(j.m, live, j.near, source) && (target.Some? ==> Told(j.m, live, j.far, target.value))
    ensures EdgesOf(j, live - Selected(j.m, mean, live, EdgeWhere(j, source, target))) == Links.Kept(EdgesOf(j, live), source, Only(target))
  {
    EdgeSelects(j, mean, live, source, target);
  }

  /** `remove`: one delete per target, none of which can be refused. */
  method Remove(ex: Executor, j: Join, source: Value, ts: seq<Value>, mean: Meaning,
                ghost o: Origin, ghost live: map<string, Cell>, ghost next: Supply)
    returns (ghost after: map<string, Cell>)
    requires Serves(ex, j.m, o, live, next) && Wired(j) && AllTold(j, live, source, ts)
    modifies ex.Repr()
    ensures ex.Now() == old(ex.Now()) && Serves(ex, j.m, o, after, next)
    ensures Links.Removes(EdgesOf(j, live), EdgesOf(j, after), source, ts)
  {
    Links.AddsNone(EdgesOf(j, live), source, map[]);
    after := live;
    for n := 0 to |ts|
      invariant ex.Now() == old(ex.Now()) && Serves(ex, j.m, o, after, next)
      invariant AllTold(j, after, source, ts)
      invariant Links.Removes(EdgesOf(j, live), EdgesOf(j, after), source, ts[..n])
    {
      ghost var before := after;
      after := Unlink(ex, j, source, Some(ts[n]), mean, o, before, next);
      Links.RemovesMore(EdgesOf(j, live), EdgesOf(j, before), source, ts, n);
      ToldAfterDelete(j, before, source, ts, Selected(j.m, mean, before, EdgeWhere(j, source, Some(ts[n]))));
    }
    assert ts[..|ts|] == ts;
  }

  /** One delete of join rows by their keys. */
  method Unlink(ex: Executor, j: Join, source: Value, target: Option<Value>, mean: Meaning,
                ghost o: Origin, ghost live: map<string, Cell>, ghost next: Supply)
    returns (ghost after: map<string, Cell>)
    requires Serves(ex, j.m, o, live, next) && Wired(j)
    requires Told(j.m, live, j.near, source) && (target.Some? ==> Told(j.m, live, j.far, target.value))
    modifies ex.Repr()
    ensures ex.Now() == old(ex.Now()) && Serves(ex, j.m, o, after, next)
    ensures after == live - Selected(j.m, mean, live, EdgeWhere(j, source, target))
    ensures EdgesOf(j, after) == Links.Kept(EdgesOf(j, live), source, Only(target))
  {
    ServesKeyed(ex, j.m, o, live, next);
    EdgeAnswered(j, source, target);
    EdgesDeleted(j, mean, live, source, target);
    DeleteWhere(ex, j.m, EdgeWhere(j, source, target), mean, o, live, next);
    after := live - Selected(j.m, mean, live, EdgeWhere(j, source, target));
  }

  /**
   `set`: delete every join row of the source, then link.  If a link is refused,
   the targets before it are linked and the others are not.
   */
  method Set(ex: Executor, j: Join, source: Value, ts: seq<Value>, data: Row, uuids: Option<seq<Value>>, mean: Meaning,
             ghost o: Origin, ghost live: map<string, Cell>, ghost next: Supply)
    returns (error: Option<WriteError>, ghost after: map<string, Cell>, ghost linked: nat)
    requires Serves(ex, j.m, o, live, next) && |ts| <= |next.keys|
    requires AllTold(j, live, source, ts) && Asked(j, source, ts, data, uuids, next) && Lasting(ex, j)
    modifies ex.Repr()
    ensures ex.Now() == old(ex.Now()) && Serves(ex, j.m, o, after, Spent(next))
    ensures linked <= |ts| && (error.None? ==> linked == |ts|)
    ensures Links.Replaces(EdgesOf(j, live), EdgesOf(j, after), source, ts[..linked], data) <==> Links.AllKeysStand(EndsOf(j), data, source, ts[..linked])
    ensures Links.Linked(EdgesOf(j, after), source) == Links.Targets(ts[..linked]) <==> Links.AllKeysStand(EndsOf(j), data, source, ts[..linked])
  {
    ghost var cleared := Unlink(ex, j, source, None, mean, o, live, next);
    ToldAfterDelete(j, live, source, ts, Selected(j.m, mean, live, EdgeWhere(j, source, None)));
    error, after, linked := Add(ex, j, source, ts, data, uuids, mean, o, cleared, next);
    Links.ClearedThenAddedIff(EndsOf(j), EdgesOf(j, live), EdgesOf(j, after), source, ts[..linked], data);
  }

  // ---- hasMany and hasOne ----

  /** The foreign keys of the target rows, by id. */
  ghost function FksOf(fk: string, live: map<string, Cell>): map<string, Option<Value>> {
    map i | i in live :: Get(RowOf(live[i]), fk)
  }

  function Ids(ids: seq<string>): set<string> {
    set i | i in ids
  }

  lemma IdsSnoc(ids: seq<string>, n: nat)
    requires n < |ids|
    ensures Ids(ids[..n + 1]) == Ids(ids[..n]) + {ids[n]}
  {
    assert ids[..n + 1] == ids[..n] + [ids[n]];
  }

  lemma FkPatched(fk: string, live: map<string, Cell>, id: string, v: Value)
    ensures var after := if id in live then live[id := Cell(RowData(RowOf(live[id]) + map[fk := v]), live[id].exp)] else live;
            FksOf(fk, after) == Links.Pointed(FksOf(fk, live), {id}, v)
  {}

  /** `add` with the source's key, `remove` with null: patch each row in turn, until one is refused. */
  method PointEach(ex: Executor, m: Model, fk: string, ids: seq<string>, v: Value,
                   ghost o: Origin, ghost live: map<string, Cell>, ghost next: Supply)
    returns (error: Option<WriteError>, ghost after: map<string, Cell>, ghost pointed: nat)
    requires Serves(ex, m, o, live, next) && fk != m.pk
    modifies ex.Repr()
    ensures ex.Now() == old(ex.Now()) && Serves(ex, m, o, after, next)
    ensures pointed <= |ids| && (error.None? ==> pointed == |ids|)
    ensures FksOf(fk, after) == Links.Pointed(FksOf(fk, live), Ids(ids[..pointed]), v)
  {
    Links.PointedMore(FksOf(fk, live), {}, "", v);
    after, pointed := live, 0;
    for n := 0 to |ids|
      invariant ex.Now() == old(ex.Now()) && Serves(ex, m, o, after, next)
      invariant pointed == n
      invariant FksOf(fk, after) == Links.Pointed(FksOf(fk, live), Ids(ids[..n]), v)
    {
      ghost var before := after;
      var done;
      done, after := PatchRow(ex, m, ids[n], map[fk := v], o, before, next);
      if done.Failure? {
        return Some(done.error), after, pointed;
      }
      FkPatched(fk, before, ids[n], v);
      IdsSnoc(ids, n);
      Links.PointedMore(FksOf(fk, live), Ids(ids[..n]), ids[n], v);
      pointed := n + 1;
    }
    error := None;
  }

  /** The rows that point at the source. */
  method Current(ex: Executor, m: Model, fk: string, source: Value, mean: Meaning,
                 ghost o: Origin, ghost live: map<string, Cell>, ghost next: Supply)
    returns (ids: seq<string>)
    requires Serves(ex, m, o, live, next) && Searchable(m, fk) && Told(m, live, fk, source)
    modifies ex.Repr()
    ensures ex.Now() == old(ex.Now()) && Serves(ex, m, o, live, next)
    ensures Ids(ids) == Links.Children(FksOf(fk, live), source)
  {
    ServesKeyed(ex, m, o, live, next);
    EqualsAnswered(m, fk, source);
    assert Faithful(m, live, Equals(fk, source));
    SelectedIsMatching(m, mean, live, Equals(fk, source));
    var rows := FindRows(ex, m, Equals(fk, source), mean, o, live, next);
    ids := [];
    for n := 0 to |rows|
      invariant |ids| == n && forall k | 0 <= k < n :: ids[k] == IdOf(m, rows[k])
    {
      ids := ids + [IdOf(m, rows[n])];
    }
    ChildIds(m, mean, fk, live, source, rows, ids);
  }

  lemma ChildIds(m: Model, mean: Meaning, fk: string, live: map<string, Cell>, source: Value, rows: seq<Row>, ids: seq<string>)
    requires Answers(m, live, Matching(mean, live, Equals(fk, source)), rows)
    requires |ids| == |rows| && forall k | 0 <= k < |ids| :: ids[k] == IdOf(m, rows[k])
    ensures Ids(ids) == Links.Children(FksOf(fk, live), source)
  {
    forall i | i in live ensures i in Matching(mean, live, Equals(fk, source)) <==> i in Links.Children(FksOf(fk, live), source) {
      MatchEquals(mean, RowOf(live[i]), fk, source);
    }
    forall i | i in Matching(mean, live, Equals(fk, source)) ensures i in ids {
      var a :| 0 <= a < |rows| && IdOf(m, rows[a]) == i;
      assert ids[a] == i;
    }
  }

  /**
   `set`: clear the foreign key of every current child, then point the named rows
   at the source.  If a write is refused, the ones before it stand.
   */
  method SetAll(ex: Executor, m: Model, fk: string, source: Value, ids: seq<string>, mean: Meaning,
                ghost o: Origin, ghost live: map<string, Cell>, ghost next: Supply)
    returns (error: Option<WriteError>, ghost after: map<string, Cell>, ghost cleared: set<string>, ghost pointed: nat)
    requires Serves(ex, m, o, live, next) && fk != m.pk && Searchable(m, fk) && Told(m, live, fk, source)
    modifies ex.Repr()
    ensures ex.Now() == old(ex.Now()) && Serves(ex, m, o, after, next)
    ensures cleared <= Links.Children(FksOf(fk, live), source) && pointed <= |ids|
    ensures FksOf(fk, after) == Links.Pointed(Links.Pointed(FksOf(fk, live), cleared, Null), Ids(ids[..pointed]), source)
    ensures error.None? ==> FksOf(fk, after) == Links.Relinked(FksOf(fk, live), source, Ids(ids))
  {
    var current := Current(ex, m, fk, source, mean, o, live, next);
    ghost var n;
    error, after, n := PointEach(ex, m, fk, current, Null, o, live, next);
    cleared, pointed := Ids(current[..n]), 0;
    assert current[..|current|] == current && ids[..|ids|] == ids;
    assert forall i | i in current[..n] :: i in current;
    if error.Some? {
      Links.PointedMore(FksOf(fk, after), {}, "", source);
      return;
    }
    ghost var middle := after;
    error, after, pointed := PointEach(ex, m, fk, ids, source, o, middle, next);
    Links.ClearedThenPointed(FksOf(fk, live), source, Ids(ids));
  }
}
