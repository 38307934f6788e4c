/** Setting or clearing a row's expiry, cascaded into every derived structure. */
module Expiry {
  import opened Wrappers
  import opened Redis
  import opened Overlay
  import opened Executors
  import opened Indexes
  import opened Engine

  function Timing(k: Key, ttl: Option<int>): Write {
    if ttl.Some? && ttl.value > 0 then PExpire(k, ttl.value) else Persist(k)
  }

  method SetExpiry(ex: Executor, m: Model, id: string, ttl: Option<int>)
    requires ex.Valid() && Shaped(ex.View())
    requires ex.Buffered? ==> ttl.None? || ttl.value <= 0
    requires !ex.Dropped(Member(m.name, id))
    requires forall k: Key | InSet(ex.View(), Member(m.name, id), k) :: k.Index? || k.Unique?
    modifies ex.Repr()
    ensures Steady(ex, old(ex.Store().db), old(ex.Now()))
    ensures Retimed(old(ex.View()), ex.View(), m, id, Deadline(ttl, old(ex.Now())), old(ex.Now()))
  {
    ghost var a, now := ex.View(), ex.Now();
    StampRow(ex, m, id, ttl);
    ghost var b := ex.View();
    var members := ex.SMembers(Member(m.name, id));
    assert forall k :: k in members <==> InSet(b, Member(m.name, id), k);
    RetimeMembers(ex, id, members, ttl);
    RetimedInSteps(a, b, ex.View(), m, id, members, Deadline(ttl, now), now);
  }

  /** The object key and the id list, the two places that are not in the membership set. */
  method StampRow(ex: Executor, m: Model, id: string, ttl: Option<int>)
    requires ex.Valid() && Shaped(ex.View())
    requires ex.Buffered? ==> ttl.None? || ttl.value <= 0
    modifies ex.Repr()
    ensures Steady(ex, old(ex.Store().db), old(ex.Now()))
    ensures forall k: Key :: CellAt(ex.View(), k) ==
              if k == Obj(m.name, id) && Visible(old(ex.View()), k, ex.Now())
              then Some(CellAt(old(ex.View()), k).value.(exp := Deadline(ttl, ex.Now()))) else CellAt(old(ex.View()), k)
    ensures forall k: Key, j: string :: ZScore(ex.View(), k, j) ==
              if j == id && k == Ids(m.name) then Some(Deadline(ttl, ex.Now())) else ZScore(old(ex.View()), k, j)
    ensures forall k, x :: InSet(ex.View(), k, x) <==> InSet(old(ex.View()), k, x)
    ensures forall j :: ex.Dropped(j) <==> old(ex.Dropped(j))
  {
    ex.Issue(Timing(Obj(m.name, id), ttl));
    ex.Issue(ZAddTo(Ids(m.name), Deadline(ttl, ex.Store().now), id));
  }

  /** The memberships `done` of an id carrying the new expiry: unique keys that are visible, and index entries. */
  ghost predicate Stamped(a: Db, b: Db, id: string, done: set<Key>, exp: Score, now: int) {
    && (forall k: Key :: CellAt(b, k) == if k.Unique? && k in done then CellAt(Retime(a, k, exp, now), k) else CellAt(a, k))
    && (forall k: Key, j: string :: ZScore(b, k, j) == if j == id && k.Index? && k in done then Some(exp) else ZScore(a, k, j))
    && (forall k, x :: InSet(b, k, x) <==> InSet(a, k, x))
  }

  function Stamping(k: Key, id: string, ttl: Option<int>, now: int): Write {
    if k.Unique? then Timing(k, ttl) else ZAddTo(k, Deadline(ttl, now), id)
  }

  lemma StampStep(a: Db, b: Db, c: Db, id: string, done: set<Key>, k: Key, ttl: Option<int>, now: int)
    requires Stamped(a, b, id, done, Deadline(ttl, now), now) && (k.Index? || k.Unique?) && k !in done
    requires forall x :: CellAt(c, x) == CellAfter(b, Stamping(k, id, ttl, now), now, x)
    requires forall x, j :: ZScore(c, x, j) == ZScoreAfter(b, Stamping(k, id, ttl, now), x, j)
    requires forall x, y :: InSet(c, x, y) <==> InSetAfter(b, Stamping(k, id, ttl, now), x, y)
    ensures Stamped(a, c, id, done + {k}, Deadline(ttl, now), now)
  {
    if k.Unique? {
      RetimeOnce(a, b, k, Deadline(ttl, now), now);
      assert CellAt(c, k) == CellAt(Retime(a, k, Deadline(ttl, now), now), k);
      assert forall x | x != k :: CellAt(c, x) == CellAt(b, x);
    } else {
      assert forall x :: CellAt(c, x) == CellAt(b, x);
    }
  }

  method RetimeMembers(ex: Executor, id: string, members: set<Key>, ttl: Option<int>)
    requires ex.Valid() && Shaped(ex.View())
    requires ex.Buffered? ==> ttl.None? || ttl.value <= 0
    requires forall k: Key | k in members :: k.Index? || k.Unique?
    modifies ex.Repr()
    ensures Steady(ex, old(ex.Store().db), old(ex.Now()))
    ensures Stamped(old(ex.View()), ex.View(), id, members, Deadline(ttl, ex.Now()), ex.Now())
  {
    var rest := members;
    ghost var done: set<Key> := {};
    while rest != {}
      invariant rest <= members && done == members - rest
      invariant Steady(ex, old(ex.Store().db), old(ex.Now()))
      invariant Stamped(old(ex.View()), ex.View(), id, done, Deadline(ttl, ex.Now()), ex.Now())
      decreases rest
    {
      var k :| k in rest;
      RetimeMember(ex, id, k, ttl, old(ex.View()), done);
      rest := rest - {k};
      done := done + {k};
    }
  }

  method RetimeMember(ex: Executor, id: string, k: Key, ttl: Option<int>, ghost start: Db, ghost done: set<Key>)
    requires ex.Valid() && Shaped(ex.View()) && (k.Index? || k.Unique?) && k !in done
    requires ex.Buffered? ==> ttl.None? || ttl.value <= 0
    requires Stamped(start, ex.View(), id, done, Deadline(ttl, ex.Now()), ex.Now())
    modifies ex.Repr()
    ensures Steady(ex, old(ex.Store().db), old(ex.Now()))
    ensures Stamped(start, ex.View(), id, done + {k}, Deadline(ttl, ex.Now()), ex.Now())
  {
    ghost var before := ex.View();
    if k.Unique? {
      ex.Issue(Timing(k, ttl));
    } else {
      ex.Issue(ZAddTo(k, Deadline(ttl, ex.Store().now), id));
    }
    StampStep(start, before, ex.View(), id, done, k, ttl, ex.Now());
  }

  lemma RetimeOnce(a: Db, b: Db, k: Key, exp: Score, now: int)
    requires CellAt(a, k) == CellAt(b, k)
    ensures CellAt(Retime(a, k, exp, now), k) == CellAt(Retime(b, k, exp, now), k)
  {}

  lemma RetimedInSteps(a: Db, b: Db, c: Db, m: Model, id: string, members: set<Key>, exp: Score, now: int)
    requires forall k: Key :: CellAt(b, k) ==
               if k == Obj(m.name, id) && Visible(a, k, now) then Some(CellAt(a, k).value.(exp := exp)) else CellAt(a, k)
    requires forall k: Key, j: string :: ZScore(b, k, j) == if j == id && k == Ids(m.name) then Some(exp) else ZScore(a, k, j)
    requires forall k, x :: InSet(b, k, x) <==> InSet(a, k, x)
    requires forall k :: k in members <==> InSet(a, Member(m.name, id), k)
    requires forall k: Key | k in members :: k.Index? || k.Unique?
    requires Stamped(b, c, id, members, exp, now)
    ensures Retimed(a, c, m, id, exp, now)
  {
    forall k: Key ensures CellAt(c, k) ==
          if (k == Obj(m.name, id) || (k.Unique? && InSet(a, Member(m.name, id), k))) && Visible(a, k, now)
          then Some(CellAt(a, k).value.(exp := exp)) else CellAt(a, k)
    {
      if k.Unique? {
        assert CellAt(b, k) == CellAt(a, k);
      }
    }
  }
}
