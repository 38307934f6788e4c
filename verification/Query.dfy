/**
 Answering a filter from the index structures alone, collecting expired ids on
 the way when running directly, and the proof that the answer is exactly the
 live rows that satisfy the filter.
 */
module Query {
  import opened Wrappers
  import opened Filters
  import opened Redis
  import opened Overlay
  import opened Executors
  import opened Indexes
  import opened Engine
  import opened Resolution

  // ---- what reading may assume and what it preserves ----

  /** The executor shows a consistent store for `m`; no stored row's membership set was deleted in this transaction. */
  ghost predicate Sound(ex: Executor, m: Model)
    reads ex.Repr()
  {
    && ex.Valid()
    && Shaped(ex.View())
    && Inv(ex.View(), m, ex.Now())
    && (forall i: string {:trigger HasRow(ex.View(), m, i)} :: HasRow(ex.View(), m, i) ==> !ex.Dropped(Member(m.name, i)))
  }

  /** `Sound`, looked at only where `Shown` is mentioned. */
  ghost predicate Poised(ex: Executor, m: Model)
    reads ex.Repr()
  {
    forall n: nat {:trigger Shown(n)} :: Shown(n) ==> Sound(ex, m)
  }

  /** Sound, and collecting what has expired is safe; a transaction never collects. */
  ghost predicate Ready(ex: Executor, m: Model)
    reads ex.Repr()
  {
    Sound(ex, m) && (ex.Direct? ==> GcSafe(ex.View(), m, ex.Now()))
  }

  /** The stores agree outside the model's rows and derived structures. */
  ghost predicate SameElsewhere(a: Db, b: Db, m: Model) {
    && (forall k: Key :: k.model != m.name || k.Seq? ==> CellAt(b, k) == CellAt(a, k))
    && (forall k: Key, j: string :: k.model != m.name || k.Seq? ==> ZScore(b, k, j) == ZScore(a, k, j))
    && (forall k: Key, x: Key :: k.model != m.name || k.Seq? ==> (InSet(b, k, x) <==> InSet(a, k, x)))
  }

  /** Where an operation started: the live rows, the whole view, the base store, the instant, and the sets deleted before. */
  datatype Snapshot = Snapshot(live: map<string, Cell>, origin: Db, base: Db, now: int, dropped: iset<Key>)

  /** The membership sets this transaction has deleted, of any model. */
  ghost function DroppedKeys(ex: Executor): iset<Key>
    reads ex.Repr()
  {
    iset k: Key | k.Member? && ex.Dropped(k)
  }

  ghost function Snap(ex: Executor, m: Model): Snapshot
    reads ex.Repr()
  {
    Snapshot(Live(ex.View(), m, ex.Now()), ex.View(), ex.Store().db, ex.Now(), DroppedKeys(ex))
  }

  /** No membership set has been deleted since the snapshot. */
  ghost predicate NoneDropped(ex: Executor, s: Snapshot)
    reads ex.Repr()
  {
    ex.Buffered? ==> DroppedKeys(ex) <= s.dropped
  }

  /** Every stored row was stored before. */
  ghost predicate RowsWithin(a: Db, b: Db, m: Model) {
    forall i: string {:trigger HasRow(b, m, i)} :: HasRow(b, m, i) ==> HasRow(a, m, i)
  }

  /** Nothing observable changed since the snapshot; a transaction's view did not change at all. */
  ghost predicate Stays(ex: Executor, m: Model, s: Snapshot)
    reads ex.Repr()
  {
    && Ready(ex, m)
    && ex.Now() == s.now
    && Live(ex.View(), m, s.now) == s.live
    && SameElsewhere(s.origin, ex.View(), m)
    && RowsWithin(s.origin, ex.View(), m)
    && (Lively(s.origin, m, s.now) ==> Lively(ex.View(), m, s.now))
    && (ex.Buffered? ==> ex.View() == s.origin && ex.Store().db == s.base)
    && NoneDropped(ex, s)
  }

  /**
   `Stays`, looked at only where `Shown` is mentioned: resolving a filter hands
   it along from lookup to lookup without using what it says.
   */
  ghost predicate Holding(ex: Executor, m: Model, s: Snapshot)
    reads ex.Repr()
  {
    forall n: nat {:trigger Shown(n)} :: Shown(n) ==> Stays(ex, m, s)
  }

  // ---- deleting one row, shared by collection and deletion ----

  method DeleteRow(ex: Executor, m: Model, id: string)
    requires ex.Valid() && Shaped(ex.View())
    requires !ex.Dropped(Member(m.name, id))
    requires forall k: Key | InSet(ex.View(), Member(m.name, id), k) :: k.Index? || k.Unique?
    modifies ex.Repr()
    ensures Steady(ex, old(ex.Store().db), old(ex.Now()))
    ensures Deleted(old(ex.View()), ex.View(), m, id)
    ensures forall j: Key :: j.Member? && j != Member(m.name, id) ==> (ex.Dropped(j) <==> old(ex.Dropped(j)))
  {
    RemoveFromIndexes(ex, m, id);
    ex.Issue(DelObj(Obj(m.name, id)));
  }

  lemma CreatedElsewhere(a: Db, b: Db, m: Model, id: string, row: Row, exp: Score)
    requires Created(a, b, m, id, row, exp)
    ensures SameElsewhere(a, b, m)
  {}

  lemma PatchedElsewhere(a: Db, b: Db, m: Model, id: string, o: Row, n: Row, exp: Score)
    requires Patched(a, b, m, id, o, n, exp)
    ensures SameElsewhere(a, b, m)
  {}

  lemma DeletedElsewhere(a: Db, b: Db, m: Model, now: int, id: string)
    requires Inv(a, m, now) && Deleted(a, b, m, id)
    ensures SameElsewhere(a, b, m)
  {
    assert Shown(0);
    assert forall x: Key :: InSet(a, Member(m.name, id), x) ==> x.model == m.name;
  }

  /** Collect expired ids one at a time; only the direct executor does. */
  method CollectExpired(ex: Executor, m: Model, expired: set<string>, ghost s: Snapshot)
    requires ex.Direct? && Stays(ex, m, s)
    requires forall i | i in expired :: HasRow(ex.View(), m, i) && !LiveRow(ex.View(), m, i, s.now)
    modifies ex.Repr()
    ensures Stays(ex, m, s)
    ensures Collecting(old(ex.View()), ex.View(), m, s.now, expired, {})
  {
    var rest := expired;
    while rest != {}
      invariant Stays(ex, m, s) && rest <= expired
      invariant Collecting(old(ex.View()), ex.View(), m, s.now, expired, rest)
      decreases rest
    {
      var id :| id in rest;
      ghost var before := ex.View();
      CollectOne(ex, m, id, s);
      CollectedOne(old(ex.View()), before, ex.View(), m, s.now, expired, rest, id);
      rest := rest - {id};
    }
  }

  /** Of the expired ids all but `rest` are gone, with the entries of no other id changed. */
  ghost predicate Collecting(a: Db, b: Db, m: Model, now: int, expired: set<string>, rest: set<string>) {
    && (forall i | i in rest :: HasRow(b, m, i) && !LiveRow(b, m, i, now))
    && (forall i | i in expired && i !in rest :: !HasRow(b, m, i))
    && (forall k: Key, i: string | i !in expired :: ZScore(b, k, i) == ZScore(a, k, i))
  }

  lemma CollectedOne(a: Db, b: Db, c: Db, m: Model, now: int, expired: set<string>, rest: set<string>, id: string)
    requires Collecting(a, b, m, now, expired, rest) && id in rest && rest <= expired && !HasRow(c, m, id)
    requires forall i: string | i != id :: (HasRow(c, m, i) <==> HasRow(b, m, i)) && (LiveRow(c, m, i, now) <==> LiveRow(b, m, i, now))
    requires forall k: Key, i: string | i != id :: ZScore(c, k, i) == ZScore(b, k, i)
    ensures Collecting(a, c, m, now, expired, rest - {id})
  {}

  method CollectOne(ex: Executor, m: Model, id: string, ghost s: Snapshot)
    requires ex.Direct? && Stays(ex, m, s) && HasRow(ex.View(), m, id) && !LiveRow(ex.View(), m, id, s.now)
    modifies ex.Repr()
    ensures Stays(ex, m, s) && !HasRow(ex.View(), m, id)
    ensures forall i: string | i != id ::
              (HasRow(ex.View(), m, i) <==> HasRow(old(ex.View()), m, i)) && (LiveRow(ex.View(), m, i, s.now) <==> LiveRow(old(ex.View()), m, i, s.now))
    ensures forall k: Key, i: string | i != id :: ZScore(ex.View(), k, i) == ZScore(old(ex.View()), k, i)
  {
    ghost var before := ex.View();
    MembersAreKeys(before, m, s.now, id);
    DeleteRow(ex, m, id);
    CollectIsInvisible(before, ex.View(), m, s.now, id, s.now);
    DeletedElsewhere(before, ex.View(), m, s.now, id);
    DeleteRows(before, ex.View(), m, id);
  }

  method SplitByScore(members: map<string, Score>, now: int) returns (alive: set<string>, expired: set<string>)
    ensures forall i :: i in alive <==> i in members && Alive(members[i], now)
    ensures forall i :: i in expired <==> i in members && !Alive(members[i], now)
  {
    alive, expired := {}, {};
    var rest := members.Keys;
    while rest != {}
      invariant rest <= members.Keys
      invariant forall i :: i in alive <==> i in members.Keys - rest && Alive(members[i], now)
      invariant forall i :: i in expired <==> i in members.Keys - rest && !Alive(members[i], now)
      decreases rest
    {
      var id :| id in rest;
      if Alive(members[id], now) {
        alive := alive + {id};
      } else {
        expired := expired + {id};
      }
      rest := rest - {id};
    }
  }

  lemma EntriesSplit(db: Db, m: Model, now: int, k: Key, members: map<string, Score>, alive: set<string>, expired: set<string>)
    requires Inv(db, m, now) && (k == Ids(m.name) || (k.Index? && k.model == m.name))
    requires forall i :: ZScore(db, k, i) == if i in members then Some(members[i]) else None
    requires forall i :: i in alive <==> i in members && Alive(members[i], now)
    requires forall i :: i in expired <==> i in members && !Alive(members[i], now)
    ensures forall i :: i in alive <==> i in Live(db, m, now) && (k.Ids? || Wants(m, RowOf(Live(db, m, now)[i]), k))
    ensures forall i | i in expired :: HasRow(db, m, i) && !LiveRow(db, m, i, now)
    ensures forall i :: ZScore(db, k, i).Some? ==> i in alive || i in expired
  {
    LiveLookup(db, m, now);
    forall i ensures i in alive <==> i in Live(db, m, now) && (k.Ids? || Wants(m, RowOf(Live(db, m, now)[i]), k)) {
      EntryMeaning(db, m, now, k, i);
    }
    forall i | i in expired ensures HasRow(db, m, i) && !LiveRow(db, m, i, now) {
      EntryMeaning(db, m, now, k, i);
    }
  }

  /** The ids under a sorted-set key whose score is still in the future. */
  method ActiveMembers(ex: Executor, m: Model, zkey: Key, ghost s: Snapshot) returns (alive: set<string>)
    requires Stays(ex, m, s)
    requires zkey == Ids(m.name) || (zkey.Index? && zkey.model == m.name)
    modifies ex.Repr()
    ensures Stays(ex, m, s)
    ensures forall i :: i in alive <==> i in s.live && (zkey.Ids? || Wants(m, RowOf(s.live[i]), zkey))
    ensures if ex.Direct? then forall i :: ZScore(ex.View(), zkey, i).Some? ==> i in alive else ex.View() == old(ex.View())
  {
    var expired: set<string>;
    alive, expired := SplitMembers(ex, m, zkey, s);
    ghost var before := ex.View();
    if expired != {} && ex.Direct? {
      CollectExpired(ex, m, expired, s);
      NoneLeft(before, ex.View(), m, s.now, zkey, alive, expired);
    }
  }

  /** With the expired ids gone, a key lists the ones alive and no others. */
  lemma NoneLeft(a: Db, b: Db, m: Model, now: int, zkey: Key, alive: set<string>, expired: set<string>)
    requires Inv(b, m, now) && (zkey == Ids(m.name) || (zkey.Index? && zkey.model == m.name))
    requires forall i :: ZScore(a, zkey, i).Some? ==> i in alive || i in expired
    requires Collecting(a, b, m, now, expired, {})
    ensures forall i :: ZScore(b, zkey, i).Some? ==> i in alive
  {
    assert Shown(0);
    assert forall i :: ZScore(b, zkey, i).Some? ==> HasRow(b, m, i);
  }

  method SplitMembers(ex: Executor, m: Model, zkey: Key, ghost s: Snapshot) returns (alive: set<string>, expired: set<string>)
    requires Stays(ex, m, s)
    requires zkey == Ids(m.name) || (zkey.Index? && zkey.model == m.name)
    ensures forall i :: i in alive <==> i in s.live && (zkey.Ids? || Wants(m, RowOf(s.live[i]), zkey))
    ensures forall i | i in expired :: HasRow(ex.View(), m, i) && !LiveRow(ex.View(), m, i, s.now)
    ensures forall i :: ZScore(ex.View(), zkey, i).Some? ==> i in alive || i in expired
  {
    var members := ex.ZMembers(zkey);
    ghost var view := ex.View();
    assert forall i :: ZScore(view, zkey, i) == if i in members then Some(members[i]) else None;
    alive, expired := SplitByScore(members, ex.Store().now);
    EntriesSplit(view, m, s.now, zkey, members, alive, expired);
    assert ex.View() == view && s.now == ex.Now();
  }

  /** The ids that could have `field` equal to `v`. */
  method EqualitySet(ex: Executor, m: Model, field: string, v: Value, ghost s: Snapshot) returns (ids: set<string>)
    requires Holding(ex, m, s) && Searchable(m, field)
    modifies ex.Repr()
    ensures Holding(ex, m, s)
    ensures ids == Lookup(m, s.live, field, v)
  {
    if field == m.pk {
      ids := {m.IdText(v)};
    } else if field in m.uniques {
      assert Stays(ex, m, s) by { assert Shown(0); }
      ids := UniqueHolder(ex, m, field, v, s.now);
    } else {
      ids := IndexedIds(ex, m, field, v, s);
    }
  }

  method IndexedIds(ex: Executor, m: Model, field: string, v: Value, ghost s: Snapshot) returns (ids: set<string>)
    requires Holding(ex, m, s) && field in m.indexes && field != m.pk
    modifies ex.Repr()
    ensures Holding(ex, m, s)
    ensures ids == Lookup(m, s.live, field, v)
  {
    assert Stays(ex, m, s) by { assert Shown(0); }
    ids := ActiveMembers(ex, m, Index(m.name, field, m.Segment(v)), s);
  }

  /** The id a unique key names, if the key is visible. */
  method UniqueHolder(ex: Executor, m: Model, field: string, v: Value, ghost now: int) returns (ids: set<string>)
    requires Sound(ex, m) && field in m.uniques && field != m.pk && now == ex.Now()
    ensures ids == Lookup(m, Live(ex.View(), m, now), field, v)
  {
    LiveLookup(ex.View(), m, now);
    var held := ex.GetStr(Unique(m.name, field, m.Segment(v)));
    ids := if held.Some? && held.value.IdData? && held.value.id != "" then {held.value.id} else {};
    forall i ensures i in ids <==> i in Lookup(m, Live(ex.View(), m, now), field, v) {
      UniqueLookup(ex.View(), m, now, i, field, v);
    }
  }

  /** A unique key is visible exactly while the live row whose value prints so is, and names that row. */
  lemma UniqueLookup(db: Db, m: Model, now: int, i: string, field: string, v: Value)
    requires Inv(db, m, now) && field in m.uniques
    ensures Read(db, Unique(m.name, field, m.Segment(v)), now) == Some(IdData(i)) && i != "" <==>
            LiveRow(db, m, i, now) && Prints(m, RowAt(db, m, i), field, v)
  {
    assert Shown(0);
    var k := Unique(m.name, field, m.Segment(v));
    if LiveRow(db, m, i, now) && Prints(m, RowAt(db, m, i), field, v) {
      assert Holds(db, k, i);
      assert CellAt(db, k).value.exp == ExpAt(db, m, i);
      assert CellAt(db, Obj(m.name, i)).Some?;
    }
    if Read(db, k, now) == Some(IdData(i)) {
      assert CellAt(db, k).Some?;
      assert Wants(m, RowAt(db, m, i), k);
    }
  }

  /** The live rows are listed under their own printed keys. */
  lemma LiveIsKeyed(db: Db, m: Model, now: int)
    requires Inv(db, m, now)
    ensures Keyed(m, Live(db, m, now))
  {
    assert Shown(0);
    LiveLookup(db, m, now);
    forall i: string | i in Live(db, m, now) ensures CellAt(db, Obj(m.name, i)).Some? {}
  }

  // ---- resolving a filter ----

  method Intersect(sets: seq<set<string>>) returns (out: set<string>)
    requires sets != []
    ensures out == Meet(sets)
  {
    out := {};
    var rest := sets[0];
    while rest != {}
      invariant rest <= sets[0]
      invariant forall i :: i in out <==> i in sets[0] - rest && InAll(i, sets)
      decreases rest
    {
      var id :| id in rest;
      if forall x | x in sets :: id in x {
        out := out + {id};
      }
      rest := rest - {id};
    }
  }

  method ResolveWhere(ex: Executor, m: Model, w: Where, ghost s: Snapshot) returns (r: Result<Resolved, QueryError>)
    requires Holding(ex, m, s)
    modifies ex.Repr()
    ensures Holding(ex, m, s) && r == Resolve(m, s.live, w)
    decreases w, 1
  {
    if w.clauses == [] {
      return Success(Resolved(true, {}, []));
    }
    var p := Part([], []);
    for i := 0 to |w.clauses|
      invariant Holding(ex, m, s) && ResolveClauses(m, s.live, w.clauses[..i]) == Success(p)
    {
      var part := ResolveClause(ex, m, w.clauses[i], s);
      assert w.clauses[..i + 1][..i] == w.clauses[..i];
      if part.Failure? {
        ClauseFailureSpreads(m, s.live, w.clauses, i + 1);
        return Failure(part.error);
      }
      ClausesSnoc(m, s.live, w.clauses, i, p, part.value);
      p := Part(p.sets + part.value.sets, p.residual + part.value.residual);
    }
    assert w.clauses[..|w.clauses|] == w.clauses;
    if p.sets == [] {
      return Failure(NoIndexedField);
    }
    var ids := Intersect(p.sets);
    r := Success(Resolved(false, ids, p.residual));
  }

  method ResolveClause(ex: Executor, m: Model, c: Clause, ghost s: Snapshot) returns (r: Result<Part, QueryError>)
    requires Holding(ex, m, s)
    modifies ex.Repr()
    ensures Holding(ex, m, s) && r == ResolveOne(m, s.live, c)
    decreases c, 1
  {
    match c {
      case And(_, subs) =>
        r := ResolveAnd(ex, m, subs, s);
      case Or(_, subs) =>
        r := ResolveOr(ex, m, subs, s);
      case Not(_, _) =>
        r := Success(Part([], [Where([c])]));
      case Field(name, cond) =>
        var part := ResolveField(ex, m, name, cond, s);
        r := Success(part);
    }
  }

  method ResolveAnd(ex: Executor, m: Model, subs: seq<Where>, ghost s: Snapshot) returns (r: Result<Part, QueryError>)
    requires Holding(ex, m, s)
    modifies ex.Repr()
    ensures Holding(ex, m, s) && r == ResolveBranches(m, s.live, subs)
    decreases subs, 0
  {
    var p := Part([], []);
    for i := 0 to |subs|
      invariant Holding(ex, m, s) && ResolveBranches(m, s.live, subs[..i]) == Success(p)
    {
      var sub := ResolveWhere(ex, m, subs[i], s);
      assert subs[..i + 1][..i] == subs[..i];
      if sub.Failure? {
        BranchFailureSpreads(m, s.live, subs, i + 1);
        return Failure(sub.error);
      }
      BranchesSnoc(m, s.live, subs, i, p, sub.value);
      p := Part(if sub.value.all then p.sets else p.sets + [sub.value.ids], p.residual + sub.value.residual);
    }
    assert subs[..|subs|] == subs;
    r := Success(p);
  }

  method ResolveOr(ex: Executor, m: Model, subs: seq<Where>, ghost s: Snapshot) returns (r: Result<Part, QueryError>)
    requires Holding(ex, m, s)
    modifies ex.Repr()
    ensures Holding(ex, m, s)
    ensures r == match ResolveUnion(m, s.live, subs) case Failure(e) => Failure(e) case Success(ids) => Success(Part([ids], []))
    decreases subs, 0
  {
    var union: set<string> := {};
    for i := 0 to |subs|
      invariant Holding(ex, m, s) && ResolveUnion(m, s.live, subs[..i]) == Success(union)
    {
      var sub := ResolveWhere(ex, m, subs[i], s);
      assert subs[..i + 1][..i] == subs[..i];
      if sub.Failure? {
        UnionFailureSpreads(m, s.live, subs, i + 1);
        return Failure(sub.error);
      }
      if sub.value.all || sub.value.residual != [] {
        UnionFailureSpreads(m, s.live, subs, i + 1);
        return Failure(OrNotIndexed);
      }
      UnionSnoc(m, s.live, subs, i, union, sub.value);
      union := union + sub.value.ids;
    }
    assert subs[..|subs|] == subs;
    r := Success(Part([union], []));
  }

  method ResolveField(ex: Executor, m: Model, name: string, cond: Cond, ghost s: Snapshot) returns (p: Part)
    requires Holding(ex, m, s)
    modifies ex.Repr()
    ensures Holding(ex, m, s) && p == ResolveCond(m, s.live, name, cond)
  {
    var self := [Where([Field(name, cond)])];
    var eq := if cond.Scalar? then Some(cond.v) else cond.eq;
    var hasOther := cond.Ops? && cond.others != [];
    if Searchable(m, name) && eq.Some? {
      var ids := EqualitySet(ex, m, name, eq.value, s);
      p := Part([ids], if hasOther then self else []);
    } else if Searchable(m, name) && cond.Ops? && cond.oneOf.Some? {
      var ids: set<string> := {};
      var vs := cond.oneOf.value;
      for n := 0 to |vs|
        invariant Holding(ex, m, s) && ids == LookupAny(m, s.live, name, vs[..n])
      {
        var one := EqualitySet(ex, m, name, vs[n], s);
        assert vs[..n + 1][..n] == vs[..n];
        ids := ids + one;
      }
      assert vs[..|vs|] == vs;
      p := Part([ids], if hasOther then self else []);
    } else {
      p := Part([], self);
    }
  }

  // ---- the query ----

  function IdOf(m: Model, row: Row): string {
    if m.pk in row then m.IdText(row[m.pk]) else ""
  }

  method Listed(ids: set<string>) returns (out: seq<string>)
    ensures forall i :: i in out <==> i in ids
    ensures forall a, b | 0 <= a < b < |out| :: out[a] != out[b]
  {
    out := [];
    var rest := ids;
    while rest != {}
      invariant rest <= ids
      invariant forall i :: i in out <==> i in ids - rest
      invariant forall a, b | 0 <= a < b < |out| :: out[a] != out[b]
      decreases rest
    {
      var id :| id in rest;
      forall a | 0 <= a < |out| ensures out[a] != id {
        assert out[a] in out;
      }
      out := out + [id];
      rest := rest - {id};
    }
  }

  /** Each listed row is the live row of its id, no id twice, and the ids are exactly `ids`. */
  ghost predicate Answers(m: Model, live: map<string, Cell>, ids: set<string>, out: seq<Row>) {
    && (forall a | 0 <= a < |out| :: IdOf(m, out[a]) in ids && IdOf(m, out[a]) in live && out[a] == RowOf(live[IdOf(m, out[a])]))
    && (forall a, b | 0 <= a < b < |out| :: IdOf(m, out[a]) != IdOf(m, out[b]))
    && (forall i | i in ids :: exists a :: 0 <= a < |out| && IdOf(m, out[a]) == i)
  }

  /** The ids to fetch: those resolved, or all live ones. */
  method Candidates(ex: Executor, m: Model, r: Resolved, ghost s: Snapshot) returns (ids: seq<string>)
    requires Stays(ex, m, s)
    modifies ex.Repr()
    ensures Stays(ex, m, s)
    ensures forall i | i in s.live :: i in ids <==> r.all || i in r.ids
    ensures forall a, b | 0 <= a < b < |ids| :: ids[a] != ids[b]
  {
    var candidates := r.ids;
    if r.all {
      candidates := ActiveMembers(ex, m, Ids(m.name), s);
    }
    ids := Listed(candidates);
  }

  /**
   Query exactness: an answered filter returns the live rows resolving it selects,
   each once; where its lookups can be relied on, those are every live row that
   satisfies it and nothing else.
   */
  method ExecuteQuery(ex: Executor, m: Model, w: Where, mean: Meaning)
    returns (r: Result<seq<Row>, QueryError>, ghost hits: set<string>)
    requires Ready(ex, m)
    modifies ex.Repr()
    ensures Stays(ex, m, old(Snap(ex, m)))
    ensures r.Success? <==> Answerable(m, w)
    ensures r.Failure? ==> Resolve(m, old(Snap(ex, m)).live, w) == Failure(r.error)
    ensures hits == Selected(m, mean, old(Snap(ex, m)).live, w)
    ensures r.Success? ==> Answers(m, old(Snap(ex, m)).live, hits, r.value)
    ensures r.Success? && Faithful(m, old(Snap(ex, m)).live, w) ==> hits == Matching(mean, old(Snap(ex, m)).live, w)
  {
    ghost var s := Snap(ex, m);
    WhatIsSelected(ex.View(), m, mean, s.now, w);
    hits := Selected(m, mean, s.live, w);
    var resolved := ResolveWhere(ex, m, w, s);
    assert Stays(ex, m, s) by { assert Shown(0); }
    if resolved.Failure? {
      return Failure(resolved.error), hits;
    }
    var out := FetchSelected(ex, m, w, resolved.value, mean, s);
    r := Success(out);
  }

  /**
   A query for an equality on a key, indexed or unique field beside `ne`, `is` or
   `notIn` on another, by what the rows answered hold.
   */
  method ExecuteBeside(ex: Executor, m: Model, field: string, v: Value, other: string, op: Op, mean: Meaning)
    returns (r: Result<seq<Row>, QueryError>, ghost hits: set<string>)
    requires Ready(ex, m) && (field == m.pk || field in m.indexes || field in m.uniques)
    requires Told(m, Live(ex.View(), m, ex.Now()), field, v) && !op.Relational?
    modifies ex.Repr()
    ensures r.Success? && Answers(m, old(Snap(ex, m)).live, hits, r.value)
    ensures forall i | i in old(Snap(ex, m)).live ::
              var row := RowOf(old(Snap(ex, m)).live[i]);
              i in hits <==>
              Get(row, field) == Some(v) &&
              match op
              case Ne(u) => Get(row, other) != Some(u)
              case Is(u) => Get(row, other) == Some(u)
              case NotIn(us) => forall x | x in us :: Get(row, other) != Some(x)
  {
    ghost var live := Live(ex.View(), m, ex.Now());
    LiveIsKeyed(ex.View(), m, ex.Now());
    BesideSelects(m, mean, live, field, v, other, if op.NotIn? then Null else op.v, if op.NotIn? then op.vs else []);
    ghost var w := Beside(field, v, other, op);
    ghost var chosen := Selected(m, mean, live, w);
    r, hits := ExecuteQuery(ex, m, Beside(field, v, other, op), mean);
    assert hits == chosen;
  }

  /** The rows a resolution leaves. */
  method FetchSelected(ex: Executor, m: Model, w: Where, r: Resolved, mean: Meaning, ghost s: Snapshot) returns (out: seq<Row>)
    requires Stays(ex, m, s) && Resolve(m, s.live, w) == Success(r)
    modifies ex.Repr()
    ensures Stays(ex, m, s)
    ensures Answers(m, s.live, Selected(m, mean, s.live, w), out)
  {
    var ids := Candidates(ex, m, r, s);
    SelectedPasses(m, mean, s.live, w, r, ids);
    out := Fetch(ex, m, ids, r.residual, mean, s);
  }

  lemma SelectedPasses(m: Model, mean: Meaning, live: map<string, Cell>, w: Where, r: Resolved, ids: seq<string>)
    requires Resolve(m, live, w) == Success(r) && forall i | i in live :: i in ids <==> r.all || i in r.ids
    ensures Selected(m, mean, live, w) == Passing(mean, live, ids, r.residual)
  {}

  lemma WhatIsSelected(db: Db, m: Model, mean: Meaning, now: int, w: Where)
    requires Inv(db, m, now)
    ensures Resolve(m, Live(db, m, now), w).Success? <==> Answerable(m, w)
    ensures Answerable(m, w) && Faithful(m, Live(db, m, now), w) ==>
              Selected(m, mean, Live(db, m, now), w) == Matching(mean, Live(db, m, now), w)
  {
    LiveIsKeyed(db, m, now);
    ResolveIsRight(m, mean, Live(db, m, now), w);
    if Answerable(m, w) && Faithful(m, Live(db, m, now), w) {
      SelectedIsMatching(m, mean, Live(db, m, now), w);
    }
  }

  ghost function Passing(mean: Meaning, live: map<string, Cell>, ids: seq<string>, residual: seq<Where>): set<string> {
    set i | i in live && i in ids && Passes(mean, RowOf(live[i]), residual)
  }

  /** Fetch the objects, skip the missing ones, keep those that pass the residual. */
  method Fetch(ex: Executor, m: Model, ids: seq<string>, residual: seq<Where>, mean: Meaning, ghost s: Snapshot)
    returns (out: seq<Row>)
    requires Stays(ex, m, s)
    requires forall a, b | 0 <= a < b < |ids| :: ids[a] != ids[b]
    ensures Answers(m, s.live, Passing(mean, s.live, ids, residual), out)
  {
    var keys := seq(|ids|, n requires 0 <= n < |ids| => Obj(m.name, ids[n]));
    var raw := ex.MGetObj(keys);
    forall n | 0 <= n < |ids|
      ensures if ids[n] in s.live then raw[n] == Some(RowData(RowOf(s.live[ids[n]]))) && IdOf(m, RowOf(s.live[ids[n]])) == ids[n]
              else raw[n].None?
    {
      assert keys[n] == Obj(m.name, ids[n]);
      ReadsLiveRow(ex.View(), m, s.now, ids[n]);
      if ids[n] in s.live {
        LiveMember(ex.View(), m, s.now, ids[n]);
      }
    }
    out := Keep(m, ids, raw, residual, mean, s.live);
  }

  /** The loop over the fetched objects. */
  method Keep(m: Model, ids: seq<string>, raw: seq<Option<Data>>, residual: seq<Where>, mean: Meaning, ghost live: map<string, Cell>)
    returns (out: seq<Row>)
    requires |raw| == |ids|
    requires forall a, b | 0 <= a < b < |ids| :: ids[a] != ids[b]
    requires forall n | 0 <= n < |ids| ::
               if ids[n] in live then raw[n] == Some(RowData(RowOf(live[ids[n]]))) && IdOf(m, RowOf(live[ids[n]])) == ids[n]
               else raw[n].None?
    ensures Answers(m, live, Passing(mean, live, ids, residual), out)
  {
    out := [];
    for n := 0 to |ids|
      invariant Answers(m, live, Passing(mean, live, ids[..n], residual), out)
    {
      ghost var id := ids[n];
      assert ids[..n + 1] == ids[..n] + [id];
      ghost var before := Passing(mean, live, ids[..n], residual);
      assert id !in ids[..n];
      if raw[n].Some? && raw[n].value.RowData? && forall c | c in residual :: MatchWhere(mean, raw[n].value.row, c) {
        assert Passes(mean, RowOf(live[id]), residual);
        assert Passing(mean, live, ids[..n + 1], residual) == before + {id};
        AnswersSnoc(m, live, before, out, raw[n].value.row, id);
        out := out + [raw[n].value.row];
      } else {
        assert Passing(mean, live, ids[..n + 1], residual) == before;
      }
    }
    assert ids[..|ids|] == ids;
  }

  lemma AnswersSnoc(m: Model, live: map<string, Cell>, ids: set<string>, out: seq<Row>, row: Row, id: string)
    requires Answers(m, live, ids, out) && id in live && id !in ids && row == RowOf(live[id]) && IdOf(m, row) == id
    ensures Answers(m, live, ids + {id}, out + [row])
  {
    var longer := out + [row];
    forall i | i in ids + {id} ensures exists a :: 0 <= a < |longer| && IdOf(m, longer[a]) == i {
      if i == id {
        assert IdOf(m, longer[|out|]) == i;
      } else {
        var a :| 0 <= a < |out| && IdOf(m, out[a]) == i;
        assert longer[a] == out[a];
      }
    }
  }
}
