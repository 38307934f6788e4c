/** Clearing every model without a keyspace scan leaves none of its keys. */
module Reset {
  import opened Wrappers
  import opened Redis
  import opened Overlay
  import opened Executors
  import opened Indexes
  import opened Engine
  import opened Query
  import opened Runs

  /** Everything stored for the model can be reached from its id list. */
  ghost predicate Covered(db: Db, m: Model) {
    && Shaped(db)
    && (forall k: Key {:trigger CellAt(db, k)} :: k.model == m.name && k.Unique? && CellAt(db, k).Some? ==>
          CellAt(db, k).value.data.IdData? && InSet(db, Member(m.name, CellAt(db, k).value.data.id), k))
    && (forall k: Key, id: string {:trigger ZScore(db, k, id)} :: k.model == m.name && k.Index? && ZScore(db, k, id).Some? ==>
          InSet(db, Member(m.name, id), k))
    && (forall id: string :: CellAt(db, Obj(m.name, id)).Some? ==> ZScore(db, Ids(m.name), id).Some?)
    && (forall k: Key, x: Key {:trigger InSet(db, k, x)} :: k.model == m.name && k.Member? && InSet(db, k, x) ==>
          ZScore(db, Ids(m.name), k.id).Some? && x.model == m.name && (x.Index? || x.Unique?))
  }

  lemma InvCovers(db: Db, m: Model, now: int)
    requires Inv(db, m, now)
    ensures Covered(db, m)
  {
    assert Shown(0);
  }

  lemma DeleteKeepsCovered(a: Db, b: Db, m: Model, id: string)
    requires Covered(a, m) && Shaped(b) && Deleted(a, b, m, id)
    ensures Covered(b, m)
    ensures forall j: string :: ZScore(b, Ids(m.name), j).Some? <==> j != id && ZScore(a, Ids(m.name), j).Some?
  {
    assert CellAt(b, Obj(m.name, id)).None?;
  }

  /** A model's deletions leave every other model's keys alone. */
  lemma DeleteUntouched(a: Db, b: Db, m: Model, id: string, name: string)
    requires Covered(a, m) && Deleted(a, b, m, id) && name != m.name
    ensures Untouched(a, b, name)
  {}

  lemma UntouchedKeepsCovered(a: Db, b: Db, m: Model)
    requires Covered(a, m) && Shaped(b) && Untouched(a, b, m.name)
    ensures Covered(b, m)
  {
    assert forall i: string :: CellAt(b, Obj(m.name, i)) == CellAt(a, Obj(m.name, i));
  }

  lemma UntouchedTwice(a: Db, b: Db, c: Db, name: string)
    requires Untouched(a, b, name) && Untouched(b, c, name)
    ensures Untouched(a, c, name)
  {}

  /** No lookup under the model finds anything. */
  ghost predicate Gone(db: Db, name: string) {
    && (forall k: Key | k.model == name :: CellAt(db, k).None?)
    && (forall k: Key, id: string | k.model == name :: ZScore(db, k, id).None?)
    && (forall k: Key, x: Key | k.model == name :: !InSet(db, k, x))
  }

  lemma StoredZSetHasMember(db: Db, k: Key) returns (id: string)
    requires Tidy(db) && k in db.zsets
    ensures ZScore(db, k, id).Some?
  {
    assert db.zsets[k].Keys != {};
    id :| id in db.zsets[k].Keys;
  }

  lemma StoredSetHasMember(db: Db, k: Key) returns (x: Key)
    requires Tidy(db) && k in db.sets
    ensures InSet(db, k, x)
  {
    x :| x in db.sets[k];
  }

  /** Then no key of the model is stored at all, since nothing empty is kept. */
  lemma GoneIsAbsent(db: Db, name: string)
    requires Shaped(db) && Gone(db, name)
    ensures forall k: Key | k.model == name :: k !in db.strs && k !in db.zsets && k !in db.sets
  {
    forall k: Key | k.model == name ensures k !in db.strs && k !in db.zsets && k !in db.sets {
      assert CellAt(db, k).None?;
      if k in db.zsets {
        var id := StoredZSetHasMember(db, k);
      }
      if k in db.sets {
        var x := StoredSetHasMember(db, k);
      }
    }
  }

  /** With an empty id list nothing but the counter is left. */
  lemma EmptyListLeavesNothing(db: Db, m: Model)
    requires Covered(db, m) && forall id: string :: ZScore(db, Ids(m.name), id).None?
    ensures forall k: Key | k.model == m.name && k != Seq(m.name) :: CellAt(db, k).None?
    ensures forall k: Key, id: string | k.model == m.name :: ZScore(db, k, id).None?
    ensures forall k: Key, x: Key | k.model == m.name :: !InSet(db, k, x)
  {
    assert forall k: Key, x: Key | k.model == m.name :: !InSet(db, k, x);
    forall k: Key | k.model == m.name && k != Seq(m.name) ensures CellAt(db, k).None? {
      if k.Obj? {
        assert k == Obj(m.name, k.id);
      }
    }
  }

  /** Drop one listed id from everything it belongs to. */
  method ForgetId(d: DirectExecutor, m: Model, id: string)
    requires Covered(d.client.db, m)
    modifies d.client
    ensures Covered(d.client.db, m) && d.client.now == old(d.client.now)
    ensures forall j: string :: ZScore(d.client.db, Ids(m.name), j).Some? <==>
                                j != id && ZScore(old(d.client.db), Ids(m.name), j).Some?
    ensures forall name :: name != m.name ==> Untouched(old(d.client.db), d.client.db, name)
  {
    ghost var before := d.client.db;
    DeleteRow(Direct(d), m, id);
    DeleteKeepsCovered(before, d.client.db, m, id);
    forall name | name != m.name ensures Untouched(before, d.client.db, name) {
      DeleteUntouched(before, d.client.db, m, id, name);
    }
  }

  /** One model: drop everything each listed id refers to, then the list and the counter. */
  method ResetModel(d: DirectExecutor, m: Model)
    requires Covered(d.client.db, m)
    modifies d.client
    ensures Shaped(d.client.db) && Gone(d.client.db, m.name)
    ensures forall name :: name != m.name ==> Untouched(old(d.client.db), d.client.db, name)
  {
    var members := Direct(d).ZMembers(Ids(m.name));
    assert forall i :: i in members <==> ZScore(d.client.db, Ids(m.name), i).Some?;
    var rest := members.Keys;
    while rest != {}
      invariant Covered(d.client.db, m)
      invariant forall i :: i in rest <==> ZScore(d.client.db, Ids(m.name), i).Some?
      invariant forall name :: name != m.name ==> Untouched(old(d.client.db), d.client.db, name)
      decreases rest
    {
      var id :| id in rest;
      ghost var before := d.client.db;
      ForgetId(d, m, id);
      forall name | name != m.name ensures Untouched(old(d.client.db), d.client.db, name) {
        UntouchedTwice(old(d.client.db), before, d.client.db, name);
      }
      rest := rest - {id};
    }
    ghost var before := d.client.db;
    DropListAndCounter(d, m);
    forall name | name != m.name ensures Untouched(old(d.client.db), d.client.db, name) {
      UntouchedTwice(old(d.client.db), before, d.client.db, name);
    }
  }

  lemma DelLookups(db: Db, k: Key)
    ensures forall j :: CellAt(Del(db, k), j) == if j == k then None else CellAt(db, j)
    ensures forall j, id :: ZScore(Del(db, k), j, id) == if j == k then None else ZScore(db, j, id)
    ensures forall j, x :: InSet(Del(db, k), j, x) <==> j != k && InSet(db, j, x)
  {}

  method DropListAndCounter(d: DirectExecutor, m: Model)
    requires Covered(d.client.db, m) && forall id: string :: ZScore(d.client.db, Ids(m.name), id).None?
    modifies d.client
    ensures Shaped(d.client.db) && Gone(d.client.db, m.name)
    ensures forall name :: name != m.name ==> Untouched(old(d.client.db), d.client.db, name)
  {
    EmptyListLeavesNothing(d.client.db, m);
    DelLookups(d.client.db, Ids(m.name));
    d.Issue(DelObj(Ids(m.name)));
    DelLookups(d.client.db, Seq(m.name));
    d.Issue(DelObj(Seq(m.name)));
  }

  ghost predicate AllCovered(db: Db, ms: seq<Model>, from: nat) {
    forall i :: from <= i < |ms| ==> Covered(db, ms[i])
  }

  lemma UntouchedKeepsGone(a: Db, b: Db, name: string)
    requires Gone(a, name) && Untouched(a, b, name)
    ensures Gone(b, name)
  {}

  ghost predicate Named(ms: seq<Model>, name: string) {
    exists i :: 0 <= i < |ms| && ms[i].name == name
  }

  /** The first `n` models are gone, the others as they were, and nothing else is touched. */
  ghost predicate Resetting(start: Db, db: Db, ms: seq<Model>, n: nat) {
    && Shaped(db) && AllCovered(db, ms, n)
    && (forall i | 0 <= i < n && i < |ms| :: Gone(db, ms[i].name))
    && (forall name :: !Named(ms, name) ==> Untouched(start, db, name))
  }

  lemma OneMoreReset(start: Db, before: Db, db: Db, ms: seq<Model>, n: nat)
    requires DistinctNames(ms) && n < |ms| && Resetting(start, before, ms, n)
    requires Shaped(db) && Gone(db, ms[n].name) && forall name | name != ms[n].name :: Untouched(before, db, name)
    ensures Resetting(start, db, ms, n + 1)
  {
    forall i | n < i < |ms| ensures Covered(db, ms[i]) {
      UntouchedKeepsCovered(before, db, ms[i]);
    }
    forall i | 0 <= i < n ensures Gone(db, ms[i].name) {
      UntouchedKeepsGone(before, db, ms[i].name);
    }
    forall name | !Named(ms, name) ensures Untouched(start, db, name) {
      UntouchedTwice(start, before, db, name);
    }
  }

  /** Reset from any state that satisfies every model's invariant leaves none of their keys, and every other key. */
  method ResetAll(d: DirectExecutor, ms: seq<Model>)
    requires DistinctNames(ms) && AllInv(ms, State(d.client.db, d.client.now)) && Shaped(d.client.db)
    modifies d.client
    ensures forall k: Key | Named(ms, k.model) :: k !in d.client.db.strs && k !in d.client.db.zsets && k !in d.client.db.sets
    ensures forall name :: !Named(ms, name) ==> Untouched(old(d.client.db), d.client.db, name)
  {
    forall i | 0 <= i < |ms| ensures Covered(d.client.db, ms[i]) {
      InvCovers(d.client.db, ms[i], d.client.now);
    }
    for n := 0 to |ms|
      invariant Resetting(old(d.client.db), d.client.db, ms, n)
    {
      ghost var before := d.client.db;
      assert Covered(before, ms[n]);
      ResetModel(d, ms[n]);
      OneMoreReset(old(d.client.db), before, d.client.db, ms, n);
    }
    forall k: Key | Named(ms, k.model) ensures k !in d.client.db.strs && k !in d.client.db.zsets && k !in d.client.db.sets {
      GoneIsAbsent(d.client.db, k.model);
    }
  }
}
