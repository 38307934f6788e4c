/**
 Relationship accessors as operations on a relation, and the accessors that work
 across adapters: join rows for `belongsToMany`, a foreign key on the target for
 `hasMany` and `hasOne`.  They use the adapter that hosts the join model only
 through its find, create, update and delete, which here act on a table of rows
 by identity.  The storage engine's own accessors meet the same specification in
 `EngineLinks`.
 */
module Links {
  import opened Wrappers
  import opened Filters

  // ---- join rows ----

  /** The two foreign keys of a join row. */
  datatype Ends = Ends(near: string, far: string)

  /** A join row: what it holds under its two foreign keys, and everything it holds. */
  datatype Edge = Edge(source: Option<Value>, target: Option<Value>, data: Row)

  function EdgeOf(ends: Ends, row: Row): Edge {
    Edge(Get(row, ends.near), Get(row, ends.far), row)
  }

  ghost function EdgesOf<K>(ends: Ends, rows: map<K, Row>): map<K, Edge> {
    map i | i in rows :: EdgeOf(ends, rows[i])
  }

  lemma EdgesPut<K(!new)>(ends: Ends, rows: map<K, Row>, id: K, row: Row)
    ensures EdgesOf(ends, rows[id := row]) == EdgesOf(ends, rows)[id := EdgeOf(ends, row)]
    ensures ReadOff(ends, EdgesOf(ends, rows))
  {}

  /** Edges are read off their rows. */
  ghost predicate ReadOff<K(!new)>(ends: Ends, edges: map<K, Edge>) {
    forall i | i in edges :: edges[i] == EdgeOf(ends, edges[i].data)
  }

  predicate Pairs(e: Edge, source: Value, target: Value) {
    e.source == Some(source) && e.target == Some(target)
  }

  /** The targets a source is linked to. */
  ghost function Linked<K>(edges: map<K, Edge>, source: Value): set<Value> {
    set i | i in edges && edges[i].source == Some(source) && edges[i].target.Some? :: edges[i].target.value
  }

  /** The join rows of every other source. */
  ghost function Elsewhere<K>(edges: map<K, Edge>, source: Value): map<K, Edge> {
    map i | i in edges && edges[i].source != Some(source) :: edges[i]
  }

  /** No two join rows of the source name one target. */
  ghost predicate Single<K(!new)>(edges: map<K, Edge>, source: Value) {
    forall i, j | i in edges && j in edges && edges[i].source == Some(source) && edges[j].source == Some(source) && edges[i].target == edges[j].target :: i == j
  }

  predicate Holds(e: Edge, data: Row) {
    forall f | f in data :: Get(e.data, f) == Some(data[f])
  }

  /** Some join row of the pair carries these attributes. */
  ghost predicate Carries<K(!new)>(edges: map<K, Edge>, source: Value, target: Value, data: Row) {
    exists i | i in edges :: Pairs(edges[i], source, target) && Holds(edges[i], data)
  }

  function Targets(ts: seq<Value>): set<Value> {
    set t | t in ts
  }

  lemma TargetsSnoc(ts: seq<Value>, n: nat)
    requires n < |ts|
    ensures Targets(ts[..n + 1]) == Targets(ts[..n]) + {ts[n]}
  {
    assert ts[..n + 1] == ts[..n] + [ts[n]];
  }

  // ---- the specification of the accessors ----

  /** `add`: idempotent union; other sources untouched. */
  ghost predicate Adds<K(!new)>(a: map<K, Edge>, b: map<K, Edge>, source: Value, ts: seq<Value>, data: Row) {
    && Linked(b, source) == Linked(a, source) + Targets(ts)
    && Elsewhere(b, source) == Elsewhere(a, source)
    && (Single(a, source) ==> Single(b, source))
    && (data != map[] ==> forall t | t in ts :: Carries(b, source, t, data))
  }

  /** `remove`: difference; other sources untouched. */
  ghost predicate Removes<K(!new)>(a: map<K, Edge>, b: map<K, Edge>, source: Value, ts: seq<Value>) {
    && Linked(b, source) == Linked(a, source) - Targets(ts)
    && Elsewhere(b, source) == Elsewhere(a, source)
    && (Single(a, source) ==> Single(b, source))
  }

  /** `set`: exactly these targets, one join row each with the attributes given; other sources untouched. */
  ghost predicate Replaces<K(!new)>(a: map<K, Edge>, b: map<K, Edge>, source: Value, ts: seq<Value>, data: Row) {
    && Linked(b, source) == Targets(ts)
    && Elsewhere(b, source) == Elsewhere(a, source)
    && Single(b, source)
    && (data != map[] ==> forall t | t in ts :: Carries(b, source, t, data))
  }

  /** Attributes overwrite the keys of a join row; these name no other keys than the pair's. */
  predicate KeysStand(ends: Ends, data: Row, source: Value, target: Value) {
    && (ends.near in data ==> data[ends.near] == source)
    && (ends.far in data ==> data[ends.far] == target)
  }

  predicate AllKeysStand(ends: Ends, data: Row, source: Value, ts: seq<Value>) {
    forall t | t in ts :: KeysStand(ends, data, source, t)
  }

  /** Attributes that name another key are on no join row of the pair. */
  lemma CarriesStands<K(!new)>(ends: Ends, edges: map<K, Edge>, source: Value, target: Value, data: Row)
    requires ReadOff(ends, edges) && Carries(edges, source, target, data)
    ensures KeysStand(ends, data, source, target)
  {}

  // ---- deleting join rows ----

  /** The join rows of the source, all or those of some targets. */
  predicate Named(e: Edge, source: Value, targets: Option<set<Value>>) {
    e.source == Some(source) && (targets.None? || (e.target.Some? && e.target.value in targets.value))
  }

  /** The join rows a delete leaves. */
  function Kept<K>(edges: map<K, Edge>, source: Value, targets: Option<set<Value>>): map<K, Edge> {
    map i | i in edges && !Named(edges[i], source, targets) :: edges[i]
  }

  /** A delete takes exactly the named targets from the source's links. */
  lemma KeptRemoves<K(!new)>(edges: map<K, Edge>, source: Value, targets: Option<set<Value>>)
    ensures Linked(Kept(edges, source, targets), source) == if targets.None? then {} else Linked(edges, source) - targets.value
    ensures Elsewhere(Kept(edges, source, targets), source) == Elsewhere(edges, source)
    ensures Single(edges, source) || targets.None? ==> Single(Kept(edges, source, targets), source)
  {
    var kept := Kept(edges, source, targets);
    forall t | t in Linked(edges, source) && targets.Some? && t !in targets.value ensures t in Linked(kept, source) {
      var i :| i in edges && edges[i].source == Some(source) && edges[i].target == Some(t);
      assert i in kept;
    }
  }

  /** The join rows a delete leaves, as rows. */
  function RowsKept<K>(ends: Ends, rows: map<K, Row>, source: Value, targets: Option<set<Value>>): map<K, Row> {
    map i | i in rows && !Named(EdgeOf(ends, rows[i]), source, targets) :: rows[i]
  }

  lemma EdgesKept<K(!new)>(ends: Ends, rows: map<K, Row>, source: Value, targets: Option<set<Value>>)
    ensures EdgesOf(ends, RowsKept(ends, rows, source, targets)) == Kept(EdgesOf(ends, rows), source, targets)
  {}

  lemma RemovesMore<K(!new)>(a: map<K, Edge>, b: map<K, Edge>, source: Value, ts: seq<Value>, n: nat)
    requires n < |ts| && Removes(a, b, source, ts[..n])
    ensures Removes(a, Kept(b, source, Some({ts[n]})), source, ts[..n + 1])
  {
    TargetsSnoc(ts, n);
    KeptRemoves(b, source, Some({ts[n]}));
  }

  // ---- linking one target ----

  /** One target linked: its pair has a row, carrying the attributes if any were given; rows of other pairs stay. */
  ghost predicate LinksOne<K(!new)>(a: map<K, Edge>, b: map<K, Edge>, source: Value, target: Value, data: Row) {
    && Adds(a, b, source, [target], data)
    && forall t | Carries(a, source, t, data) :: Carries(b, source, t, data)
  }

  /** The row written to link a pair: the attributes, and the pair's keys where they name none. */
  predicate Written(ends: Ends, row: Row, source: Value, target: Value, data: Row) {
    && (forall f | f in data :: Get(row, f) == Some(data[f]))
    && (ends.near !in data ==> Get(row, ends.near) == Some(source))
    && (ends.far !in data ==> Get(row, ends.far) == Some(target))
  }

  /** A join row, new or patched, is one of the pair if and only if the attributes name no other keys. */
  lemma AttributesLinkIff(ends: Ends, source: Value, target: Value, data: Row, row: Row)
    requires ends.near != ends.far
    ensures var made := map[ends.near := source, ends.far := target] + data;
            Written(ends, made, source, target, data) && (Pairs(EdgeOf(ends, made), source, target) <==> KeysStand(ends, data, source, target))
    ensures Pairs(EdgeOf(ends, row), source, target) ==>
              Written(ends, row + data, source, target, data) && (Pairs(EdgeOf(ends, row + data), source, target) <==> KeysStand(ends, data, source, target))
  {}

  /** A new row links the pair, and does it as asked, if and only if the attributes name no other keys. */
  lemma AppendLinkIff<K(!new)>(ends: Ends, edges: map<K, Edge>, id: K, row: Row, source: Value, target: Value, data: Row)
    requires ReadOff(ends, edges) && id !in edges && target !in Linked(edges, source) && Written(ends, row, source, target, data)
    ensures var after := edges[id := EdgeOf(ends, row)];
            && (LinksOne(edges, after, source, target, data) <==> KeysStand(ends, data, source, target))
            && (target in Linked(after, source) <==> KeysStand(ends, data, source, target))
  {
    var after := edges[id := EdgeOf(ends, row)];
    assert id in after && forall i | i in edges :: i in after && after[i] == edges[i];
    if KeysStand(ends, data, source, target) {
      AppendLink(edges, id, EdgeOf(ends, row), source, target, data);
    } else {
      assert !Pairs(after[id], source, target);
    }
  }

  /**
   A row of the pair patched with the attributes leaves the pair linked, if it had
   no other row, if and only if they name no other keys; and only then is it as asked.
   */
  lemma RewriteLinkIff<K(!new)>(ends: Ends, edges: map<K, Edge>, id: K, row: Row, source: Value, target: Value, data: Row)
    requires ReadOff(ends, edges) && id in edges && Pairs(edges[id], source, target) && Written(ends, row, source, target, data)
    requires data == map[] ==> EdgeOf(ends, row) == edges[id]
    ensures var after := edges[id := EdgeOf(ends, row)];
            && (LinksOne(edges, after, source, target, data) <==> KeysStand(ends, data, source, target))
            && (Single(edges, source) ==> (target in Linked(after, source) <==> KeysStand(ends, data, source, target)))
  {
    var after := edges[id := EdgeOf(ends, row)];
    if KeysStand(ends, data, source, target) {
      RewriteLink(edges, id, EdgeOf(ends, row), source, target, data);
      assert target in Linked(after, source) by {
        assert Pairs(after[id], source, target);
      }
    } else {
      assert ReadOff(ends, after);
      if LinksOne(edges, after, source, target, data) {
        assert target in [target];
        CarriesStands(ends, after, source, target, data);
      }
      assert !Pairs(after[id], source, target);
      assert forall i | i in edges && i != id :: after[i] == edges[i];
    }
  }

  lemma AppendLink<K(!new)>(edges: map<K, Edge>, id: K, e: Edge, source: Value, target: Value, data: Row)
    requires id !in edges && Pairs(e, source, target) && target !in Linked(edges, source) && Holds(e, data)
    ensures LinksOne(edges, edges[id := e], source, target, data)
  {
    var more := edges[id := e];
    AppendLinked(edges, id, e, source, target);
    AppendSingle(edges, id, e, source, target);
    assert Targets([target]) == {target};
    assert Carries(more, source, target, data) by { assert id in more && more[id] == e; }
    forall t | Carries(edges, source, t, data) ensures Carries(more, source, t, data) {
      var i :| i in edges && Pairs(edges[i], source, t) && Holds(edges[i], data);
      assert i in more && more[i] == edges[i];
    }
  }

  lemma AppendLinked<K(!new)>(edges: map<K, Edge>, id: K, e: Edge, source: Value, target: Value)
    requires id !in edges && Pairs(e, source, target)
    ensures Linked(edges[id := e], source) == Linked(edges, source) + {target}
    ensures Elsewhere(edges[id := e], source) == Elsewhere(edges, source)
  {
    var more := edges[id := e];
    assert id in more && forall i | i in edges :: i in more && more[i] == edges[i];
    forall t ensures t in Linked(more, source) <==> t in Linked(edges, source) || t == target {
      if t in Linked(edges, source) {
        var i :| i in edges && edges[i].source == Some(source) && edges[i].target == Some(t);
        assert i in more;
      }
    }
  }

  lemma AppendSingle<K(!new)>(edges: map<K, Edge>, id: K, e: Edge, source: Value, target: Value)
    requires id !in edges && Pairs(e, source, target) && target !in Linked(edges, source)
    ensures Single(edges, source) ==> Single(edges[id := e], source)
  {
    forall i | i in edges && edges[i].source == Some(source) ensures edges[i].target != Some(target) {
      assert edges[i].target == Some(target) ==> target in Linked(edges, source);
    }
  }

  lemma RewriteLink<K(!new)>(edges: map<K, Edge>, id: K, e: Edge, source: Value, target: Value, data: Row)
    requires id in edges && Pairs(edges[id], source, target) && Pairs(e, source, target)
    requires Holds(e, data)
    ensures LinksOne(edges, edges[id := e], source, target, data)
  {
    var now := edges[id := e];
    assert now.Keys == edges.Keys;
    assert forall i | i in edges :: now[i].source == edges[i].source && now[i].target == edges[i].target;
    assert Elsewhere(now, source) == Elsewhere(edges, source);
    forall t ensures t in Linked(now, source) <==> t in Linked(edges, source) {
      if t in Linked(edges, source) {
        var i :| i in edges && edges[i].source == Some(source) && edges[i].target == Some(t);
        assert now[i].target == Some(t);
      }
    }
    assert target in Linked(edges, source);
    forall t | Carries(edges, source, t, data) ensures Carries(now, source, t, data) {
      var i :| i in edges && Pairs(edges[i], source, t) && Holds(edges[i], data);
      assert Pairs(now[i], source, t) && Holds(now[i], data);
    }
  }

  /** Every join row of the source carries the attributes. */
  ghost predicate AllCarry<K(!new)>(edges: map<K, Edge>, source: Value, data: Row) {
    forall i | i in edges && edges[i].source == Some(source) :: Holds(edges[i], data)
  }

  lemma AllCarryMore<K(!new)>(ends: Ends, edges: map<K, Edge>, id: K, row: Row, source: Value, data: Row)
    requires AllCarry(edges, source, data) && forall f | f in data :: Get(row, f) == Some(data[f])
    ensures AllCarry(edges[id := EdgeOf(ends, row)], source, data)
  {}

  /** What linking one target leaves, whatever the attributes name. */
  ghost predicate LinkedAs<K(!new)>(ends: Ends, a: map<K, Edge>, b: map<K, Edge>, source: Value, target: Value, data: Row) {
    && (LinksOne(a, b, source, target, data) <==> KeysStand(ends, data, source, target))
    && (Single(a, source) ==> (target in Linked(b, source) <==> KeysStand(ends, data, source, target)))
    && (AllCarry(a, source, data) ==> AllCarry(b, source, data))
  }

  /** A new row links as `LinkedAs` says. */
  lemma AppendLinkedAs<K(!new)>(ends: Ends, edges: map<K, Edge>, id: K, row: Row, source: Value, target: Value, data: Row)
    requires ReadOff(ends, edges) && id !in edges && target !in Linked(edges, source) && Written(ends, row, source, target, data)
    ensures LinkedAs(ends, edges, edges[id := EdgeOf(ends, row)], source, target, data)
  {
    AppendLinkIff(ends, edges, id, row, source, target, data);
    if AllCarry(edges, source, data) {
      AllCarryMore(ends, edges, id, row, source, data);
    }
  }

  /** A patched row links as `LinkedAs` says. */
  lemma RewriteLinkedAs<K(!new)>(ends: Ends, edges: map<K, Edge>, id: K, row: Row, source: Value, target: Value, data: Row)
    requires ReadOff(ends, edges) && id in edges && Pairs(edges[id], source, target) && Written(ends, row, source, target, data)
    requires data == map[] ==> EdgeOf(ends, row) == edges[id]
    ensures LinkedAs(ends, edges, edges[id := EdgeOf(ends, row)], source, target, data)
  {
    RewriteLinkIff(ends, edges, id, row, source, target, data);
    if AllCarry(edges, source, data) {
      AllCarryMore(ends, edges, id, row, source, data);
    }
  }

  /** Linking each target in turn did what was asked if and only if the attributes name no other keys than each pair's. */
  lemma AddsIff<K(!new)>(ends: Ends, a: map<K, Edge>, b: map<K, Edge>, source: Value, ts: seq<Value>, data: Row)
    requires ReadOff(ends, b) && (AllKeysStand(ends, data, source, ts) ==> Adds(a, b, source, ts, data))
    ensures Adds(a, b, source, ts, data) <==> AllKeysStand(ends, data, source, ts)
  {
    if Adds(a, b, source, ts, data) && data != map[] {
      forall t | t in ts ensures KeysStand(ends, data, source, t) {
        CarriesStands(ends, b, source, t, data);
      }
    }
  }

  lemma AddsMore<K(!new)>(a: map<K, Edge>, b: map<K, Edge>, c: map<K, Edge>, source: Value, ts: seq<Value>, n: nat, data: Row)
    requires n < |ts| && Adds(a, b, source, ts[..n], data) && LinksOne(b, c, source, ts[n], data)
    ensures Adds(a, c, source, ts[..n + 1], data)
  {
    TargetsSnoc(ts, n);
    assert Targets([ts[n]]) == {ts[n]};
    assert ts[..n + 1] == ts[..n] + [ts[n]];
    assert ts[n] in [ts[n]];
  }

  lemma AddsNone<K(!new)>(a: map<K, Edge>, source: Value, data: Row)
    ensures Adds(a, a, source, [], data) && Removes(a, a, source, [])
  {}

  /** Clearing the source's rows and then linking is replacing. */
  lemma ClearedThenAdded<K(!new)>(a: map<K, Edge>, b: map<K, Edge>, source: Value, ts: seq<Value>, data: Row)
    requires Adds(Kept(a, source, None), b, source, ts, data)
    ensures Replaces(a, b, source, ts, data)
  {
    KeptRemoves(a, source, None);
  }

  /** Where every row carries attributes that name another key than one of the targets, that target is not linked. */
  lemma AllCarryLinks<K(!new)>(ends: Ends, edges: map<K, Edge>, source: Value, ts: seq<Value>, data: Row)
    requires ReadOff(ends, edges) && AllCarry(edges, source, data) && Targets(ts) <= Linked(edges, source)
    ensures AllKeysStand(ends, data, source, ts)
  {
    forall t | t in ts ensures KeysStand(ends, data, source, t) {
      assert t in Targets(ts);
      var i :| i in edges && edges[i].source == Some(source) && edges[i].target == Some(t);
    }
  }

  /** Targets linked in turn so far: as asked if the attributes agree, and the attributes are on every row if they were. */
  ghost predicate AddsAs<K(!new)>(ends: Ends, a: map<K, Edge>, b: map<K, Edge>, source: Value, ts: seq<Value>, data: Row) {
    && (AllKeysStand(ends, data, source, ts) ==> Adds(a, b, source, ts, data))
    && (AllCarry(a, source, data) ==> AllCarry(b, source, data))
  }

  lemma AddsAsMore<K(!new)>(ends: Ends, a: map<K, Edge>, b: map<K, Edge>, c: map<K, Edge>, source: Value, ts: seq<Value>, n: nat, data: Row)
    requires n < |ts| && AddsAs(ends, a, b, source, ts[..n], data) && LinkedAs(ends, b, c, source, ts[n], data)
    ensures AddsAs(ends, a, c, source, ts[..n + 1], data)
  {
    assert ts[..n + 1] == ts[..n] + [ts[n]];
    if AllKeysStand(ends, data, source, ts[..n + 1]) {
      assert ts[n] in ts[..n + 1];
      AddsMore(a, b, c, source, ts, n, data);
    }
  }

  /** Clearing the source's rows and then linking replaces them, and links what was named, if and only if the attributes agree. */
  lemma ClearedThenAddedIff<K(!new)>(ends: Ends, a: map<K, Edge>, b: map<K, Edge>, source: Value, ts: seq<Value>, data: Row)
    requires ReadOff(ends, b) && AddsAs(ends, Kept(a, source, None), b, source, ts, data)
    ensures Replaces(a, b, source, ts, data) <==> AllKeysStand(ends, data, source, ts)
    ensures Linked(b, source) == Targets(ts) <==> AllKeysStand(ends, data, source, ts)
  {
    if AllKeysStand(ends, data, source, ts) {
      ClearedThenAdded(a, b, source, ts, data);
    } else if Linked(b, source) == Targets(ts) {
      AllCarryLinks(ends, b, source, ts, data);
    }
  }

  // ---- the accessors across adapters ----

  lemma CreatedLink(ends: Ends, rows: map<nat, Row>, id: nat, source: Value, target: Value, data: Row)
    requires ends.near != ends.far && id !in rows && target !in Linked(EdgesOf(ends, rows), source)
    ensures LinkedAs(ends, EdgesOf(ends, rows), EdgesOf(ends, rows[id := map[ends.near := source, ends.far := target] + data]), source, target, data)
  {
    var row := map[ends.near := source, ends.far := target] + data;
    EdgesPut(ends, rows, id, row);
    AttributesLinkIff(ends, source, target, data, row);
    AppendLinkedAs(ends, EdgesOf(ends, rows), id, row, source, target, data);
  }

  lemma PatchedLink(ends: Ends, rows: map<nat, Row>, id: nat, source: Value, target: Value, data: Row)
    requires ends.near != ends.far && id in rows && Pairs(EdgeOf(ends, rows[id]), source, target)
    ensures LinkedAs(ends, EdgesOf(ends, rows), EdgesOf(ends, rows[id := rows[id] + data]), source, target, data)
  {
    var row := rows[id] + data;
    assert data == map[] ==> row == rows[id];
    EdgesPut(ends, rows, id, row);
    AttributesLinkIff(ends, source, target, data, rows[id]);
    RewriteLinkedAs(ends, EdgesOf(ends, rows), id, row, source, target, data);
  }

  class JoinTable {
    const ends: Ends
    var rows: map<nat, Row>
    /** The next row's identity. */
    var next: nat

    ghost predicate Valid()
      reads this
    {
      ends.near != ends.far && forall i | i in rows :: i < next
    }

    ghost function Edges(): map<nat, Edge>
      reads this
    {
      EdgesOf(ends, rows)
    }

    constructor (ends: Ends)
      requires ends.near != ends.far
      ensures Valid() && this.ends == ends && rows == map[]
    {
      this.ends := ends;
      rows, next := map[], 0;
    }

    /** The adapter's find: the rows of a source, in some order, each once. */
    method FindAll(source: Value) returns (ids: seq<nat>)
      ensures forall i :: i in ids <==> i in rows && Get(rows[i], ends.near) == Some(source)
    {
      ids := [];
      var rest := rows.Keys;
      while rest != {}
        invariant rest <= rows.Keys
        invariant forall i :: i in ids <==> i in rows && i !in rest && Get(rows[i], ends.near) == Some(source)
        decreases rest
      {
        var i :| i in rest;
        if Get(rows[i], ends.near) == Some(source) {
          ids := ids + [i];
        }
        rest := rest - {i};
      }
    }

    /** A join row of a pair. */
    method Find(source: Value, target: Value) returns (r: Option<nat>)
      ensures r.None? <==> target !in Linked(Edges(), source)
      ensures r.Some? ==> r.value in rows && Pairs(EdgeOf(ends, rows[r.value]), source, target)
    {
      var ids := FindAll(source);
      for n := 0 to |ids|
        invariant forall k | 0 <= k < n :: Get(rows[ids[k]], ends.far) != Some(target)
      {
        assert ids[n] in rows;
        if Get(rows[ids[n]], ends.far) == Some(target) {
          assert Edges()[ids[n]].target == Some(target);
          return Some(ids[n]);
        }
      }
      r := None;
    }

    /** The adapter's delete by filter: the source's join rows, all or those of some targets. */
    method Delete(source: Value, targets: Option<set<Value>>)
      requires Valid()
      modifies this`rows
      ensures Valid() && Edges() == Kept(old(Edges()), source, targets)
    {
      EdgesKept(ends, rows, source, targets);
      rows := RowsKept(ends, rows, source, targets);
    }

    /**
     Link one target: create the join row, or update the one there.  Attributes are
     spread over the row last, so a key they name replaces the pair's.
     */
    method LinkOne(source: Value, target: Value, data: Row) returns (ghost at: nat)
      requires Valid()
      modifies this
      ensures Valid()
      ensures at in old(rows) <==> target in Linked(old(Edges()), source)
      ensures at in old(rows) ==> Pairs(EdgeOf(ends, old(rows)[at]), source, target)
      ensures rows == old(rows)[at := (if at in old(rows) then old(rows)[at] else map[ends.near := source, ends.far := target]) + data]
      ensures LinkedAs(ends, old(Edges()), Edges(), source, target, data)
    {
      var existing := Find(source, target);
      if existing.None? {
        at := next;
        CreatedLink(ends, rows, next, source, target, data);
        rows := rows[next := map[ends.near := source, ends.far := target] + data];
        next := next + 1;
      } else {
        at := existing.value;
        PatchedLink(ends, rows, at, source, target, data);
        if data != map[] {
          rows := rows[existing.value := rows[existing.value] + data];
        } else {
          assert rows[at] + data == rows[at] && rows[at := rows[at]] == rows;
        }
      }
    }

    /** `link`: each target in turn.  It does what is asked if and only if the attributes name no other keys. */
    method Add(source: Value, ts: seq<Value>, data: Row)
      requires Valid()
      modifies this
      ensures Valid()
      ensures Adds(old(Edges()), Edges(), source, ts, data) <==> AllKeysStand(ends, data, source, ts)
      ensures AddsAs(ends, old(Edges()), Edges(), source, ts, data)
    {
      AddsNone(Edges(), source, data);
      for n := 0 to |ts|
        invariant Valid()
        invariant AddsAs(ends, old(Edges()), Edges(), source, ts[..n], data)
      {
        ghost var was := Edges();
        ghost var at := LinkOne(source, ts[n], data);
        AddsAsMore(ends, old(Edges()), was, Edges(), source, ts, n, data);
      }
      assert ts[..|ts|] == ts;
      AddsIff(ends, old(Edges()), Edges(), source, ts, data);
    }

    /** `unlink`: one delete for all targets, none when there are none. */
    method Unlink(source: Value, ts: seq<Value>)
      requires Valid()
      modifies this
      ensures Valid() && Removes(old(Edges()), Edges(), source, ts)
    {
      if ts == [] {
        return;
      }
      KeptRemoves(Edges(), source, Some(Targets(ts)));
      Delete(source, Some(Targets(ts)));
    }

    /**
     `set`: drop every join row of the source, then link.  The links are the ones
     asked for if and only if the attributes name no other keys.
     */
    method Set(source: Value, ts: seq<Value>, data: Row)
      requires Valid()
      modifies this
      ensures Valid()
      ensures Replaces(old(Edges()), Edges(), source, ts, data) <==> AllKeysStand(ends, data, source, ts)
      ensures Linked(Edges(), source) == Targets(ts) <==> AllKeysStand(ends, data, source, ts)
    {
      Delete(source, None);
      Add(source, ts, data);
      ClearedThenAddedIff(ends, old(Edges()), Edges(), source, ts, data);
    }

    /** The keys a source links to: none for a source without a key, nulls skipped, duplicates collapsed. */
    method BtmKeys(source: Option<Value>) returns (keys: seq<Value>)
      ensures source == None || source == Some(Null) ==> keys == []
      ensures source.Some? && source.value != Null ==> Targets(keys) == Linked(Edges(), source.value) - {Null}
      ensures forall i, j | 0 <= i < j < |keys| :: keys[i] != keys[j]
    {
      keys := [];
      if source == None || source == Some(Null) {
        return;
      }
      var seen: set<Value> := {};
      var ids := FindAll(source.value);
      for n := 0 to |ids|
        invariant seen == Targets(keys)
        invariant forall v :: v in seen <==> v != Null && exists k :: 0 <= k < n && Get(rows[ids[k]], ends.far) == Some(v)
        invariant forall a, b | 0 <= a < b < |keys| :: keys[a] != keys[b]
      {
        assert ids[n] in rows;
        var value := Get(rows[ids[n]], ends.far);
        if value.Some? && value.value != Null && value.value !in seen {
          assert value.value !in keys;
          seen := seen + {value.value};
          keys := keys + [value.value];
        }
      }
      forall v | v != Null && v in Linked(Edges(), source.value) ensures v in Targets(keys) {
        var i :| i in rows && Get(rows[i], ends.near) == source && Get(rows[i], ends.far) == Some(v);
        assert i in ids;
      }
      forall v | v in Targets(keys) ensures v in Linked(Edges(), source.value) {
        var k :| 0 <= k < |ids| && Get(rows[ids[k]], ends.far) == Some(v);
        assert ids[k] in ids && Edges()[ids[k]].target == Some(v);
      }
    }
  }

  // ---- foreign keys on the targets ----

  /** The foreign keys after pointing these targets at one value. */
  function Pointed<K>(fks: map<K, Option<Value>>, ts: set<K>, v: Value): map<K, Option<Value>> {
    map t | t in fks :: if t in ts then Some(v) else fks[t]
  }

  ghost function Children<K>(fks: map<K, Option<Value>>, source: Value): set<K> {
    set t | t in fks && fks[t] == Some(source)
  }

  /** The foreign keys after `set`: named targets point at the source, its other ones at nothing. */
  ghost function Relinked<K>(fks: map<K, Option<Value>>, source: Value, ts: set<K>): map<K, Option<Value>> {
    map t | t in fks :: if t in ts then Some(source) else if fks[t] == Some(source) then Some(Null) else fks[t]
  }

  /** After `set` the source's children are exactly the named ones that exist; no other source gains any. */
  lemma RelinkedChildren<K>(fks: map<K, Option<Value>>, source: Value, ts: set<K>, other: Value)
    requires source != Null && other != Null && other != source
    ensures Children(Relinked(fks, source, ts), source) == ts * fks.Keys
    ensures Children(Relinked(fks, source, ts), other) == Children(fks, other) - ts
  {}

  /** Linking is idempotent union, unlinking difference. */
  lemma PointedChildren<K>(fks: map<K, Option<Value>>, source: Value, ts: set<K>)
    requires source != Null
    ensures Children(Pointed(fks, ts, source), source) == Children(fks, source) + (ts * fks.Keys)
    ensures Pointed(Pointed(fks, ts, source), ts, source) == Pointed(fks, ts, source)
    ensures Children(Pointed(fks, ts, Null), source) == Children(fks, source) - ts
  {}

  lemma PointedMore<K>(fks: map<K, Option<Value>>, ts: set<K>, t: K, v: Value)
    ensures Pointed(Pointed(fks, ts, v), {t}, v) == Pointed(fks, ts + {t}, v)
    ensures Pointed(fks, {}, v) == fks
  {}

  /** Clearing the children, or those no longer named, and then pointing the named ones is relinking. */
  lemma ClearedThenPointed<K>(fks: map<K, Option<Value>>, source: Value, ts: set<K>)
    ensures Pointed(Pointed(fks, Children(fks, source), Null), ts, source) == Relinked(fks, source, ts)
    ensures Pointed(Pointed(fks, Children(fks, source) - ts, Null), ts, source) == Relinked(fks, source, ts)
  {}

  class TargetTable {
    var fks: map<Value, Option<Value>>

    constructor (fks: map<Value, Option<Value>>)
      ensures this.fks == fks
    {
      this.fks := fks;
    }

    /** The adapter's update of one row; a missing row is left missing. */
    method Patch(t: Value, v: Value)
      modifies this
      ensures fks == Pointed(old(fks), {t}, v)
    {
      if t in fks {
        fks := fks[t := Some(v)];
      }
    }

    /** `add` with the source's key, `remove` with null. */
    method PointEach(ts: seq<Value>, v: Value)
      modifies this
      ensures fks == Pointed(old(fks), Targets(ts), v)
    {
      for n := 0 to |ts|
        invariant fks == Pointed(old(fks), Targets(ts[..n]), v)
      {
        TargetsSnoc(ts, n);
        PointedMore(old(fks), Targets(ts[..n]), ts[n], v);
        Patch(ts[n], v);
      }
      assert ts[..|ts|] == ts;
    }

    method Current(source: Value) returns (ts: seq<Value>)
      ensures Targets(ts) == Children(fks, source)
    {
      ts := [];
      var rest := fks.Keys;
      while rest != {}
        invariant rest <= fks.Keys
        invariant forall v :: v in ts <==> v in fks && v !in rest && fks[v] == Some(source)
        decreases rest
      {
        var t :| t in rest;
        if fks[t] == Some(source) {
          ts := ts + [t];
        }
        rest := rest - {t};
      }
    }

    /** `set`: clear only the children no longer named, then link. */
    method SetDifference(source: Value, ts: seq<Value>)
      modifies this
      ensures fks == Relinked(old(fks), source, Targets(ts))
    {
      var current := Current(source);
      ghost var was := fks;
      for n := 0 to |current|
        invariant fks == Pointed(was, Targets(current[..n]) - Targets(ts), Null)
      {
        TargetsSnoc(current, n);
        if current[n] !in ts {
          PointedMore(was, Targets(current[..n]) - Targets(ts), current[n], Null);
          assert Targets(current[..n]) - Targets(ts) + {current[n]} == Targets(current[..n + 1]) - Targets(ts);
          Patch(current[n], Null);
        } else {
          assert Targets(current[..n]) - Targets(ts) == Targets(current[..n + 1]) - Targets(ts);
        }
      }
      assert current[..|current|] == current;
      ClearedThenPointed(was, source, Targets(ts));
      PointEach(ts, source);
    }
  }
}
