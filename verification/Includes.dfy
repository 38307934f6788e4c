/**
 Eager-include plans: what a plan loads, how a request's read scopes are folded
 into one, and the proof that the folded plan shows exactly the visible rows.
 Folding asks for the scope of a relation's target only: a join model whose own
 scope hides join rows is outside the claim, and a lemma shows why.
 */
module Includes {
  import opened Wrappers
  import opened Filters
  import opened Normalise
  import opened Scopes

  // ---- relations, plans, results ----

  /**
   How rows are related: the source names the target's key; the target names the
   source's; or a row of the model `through` names both.
   */
  datatype Link =
    | BelongsTo(fk: string, key: string)
    | HasOne(key: string, fk: string)
    | HasMany(key: string, fk: string)
    | BelongsToMany(through: string, key: string, near: string, far: string, targetKey: string)

  datatype Relation = Relation(name: string, target: string, link: Link)

  datatype Flag = Unset | Off | On

  datatype Include = Include(rel: Relation, where: Option<Where>, required: Flag, sub: seq<Include>)

  /** A loaded row with its non-empty relations, in plan order. */
  datatype Node = Node(row: Row, loaded: seq<Loaded>)

  datatype Loaded = Loaded(rel: string, nodes: seq<Node>)

  type Tables = map<string, seq<Row>>

  /** How an adapter reads a plan: does a filter without a flag make a join required? */
  datatype Reading = Reading(mean: Meaning, infer: bool)

  function Table(db: Tables, model: string): seq<Row> {
    if model in db then db[model] else []
  }

  // ---- evaluating a plan ----

  /** The two fields hold one value, and not null. */
  predicate Meets(a: Row, f: string, b: Row, g: string) {
    Get(a, f).Some? && Get(a, f) != Some(Null) && Get(a, f) == Get(b, g)
  }

  /** The join rows a relation goes through. */
  function Edges(db: Tables, rel: Relation): seq<Row> {
    if rel.link.BelongsToMany? then Table(db, rel.link.through) else []
  }

  predicate Joined(edges: seq<Row>, rel: Relation, source: Row, row: Row) {
    match rel.link
    case BelongsTo(fk, key) => Meets(source, fk, row, key)
    case HasOne(key, fk) => Meets(source, key, row, fk)
    case HasMany(key, fk) => Meets(source, key, row, fk)
    case BelongsToMany(_, key, near, far, targetKey) =>
      exists i | 0 <= i < |edges| :: Meets(source, key, edges[i], near) && Meets(edges[i], far, row, targetKey)
  }

  function JoinedRows(edges: seq<Row>, rel: Relation, source: Row, rows: seq<Row>): seq<Row> {
    if rows == [] then []
    else
      var before, last := JoinedRows(edges, rel, source, rows[..|rows| - 1]), rows[|rows| - 1];
      if Joined(edges, rel, source, last) then before + [last] else before
  }

  /** The related rows; a `belongsTo` finds the first. */
  function RelatedRows(db: Tables, source: Row, rel: Relation): seq<Row> {
    var all := JoinedRows(Edges(db, rel), rel, source, Table(db, rel.target));
    if rel.link.BelongsTo? && all != [] then all[..1] else all
  }

  function ApplyWhere(mean: Meaning, rows: seq<Row>, w: Option<Where>): seq<Row> {
    if rows == [] then []
    else
      var before, last := ApplyWhere(mean, rows[..|rows| - 1], w), rows[|rows| - 1];
      if Admits(mean, last, w) then before + [last] else before
  }

  predicate Singular(rel: Relation) {
    rel.link.BelongsTo? || rel.link.HasOne?
  }

  /** The adapter makes this join required because it is filtered. */
  predicate Infers(how: Reading, inc: Include) {
    how.infer && inc.required.Unset? && inc.where.Some?
  }

  predicate Required(how: Reading, inc: Include) {
    inc.required.On? || Infers(how, inc)
  }

  function BuildRows(how: Reading, db: Tables, plan: seq<Include>, parents: seq<Row>): seq<Node>
    decreases plan, 2, |parents|
  {
    if parents == [] then []
    else
      var before, last := BuildRows(how, db, plan, parents[..|parents| - 1]), BuildPlan(how, db, plan, parents[|parents| - 1]);
      if last.Some? then before + [Node(parents[|parents| - 1], last.value)] else before
  }

  /** One row's relations, or nothing when a required one is empty. */
  function BuildPlan(how: Reading, db: Tables, plan: seq<Include>, parent: Row): Option<seq<Loaded>>
    decreases plan, 1, 0
  {
    if plan == [] then Some([])
    else
      var inc := plan[|plan| - 1];
      With(BuildPlan(how, db, plan[..|plan| - 1], parent), Required(how, inc), inc.rel.name, BuildInclude(how, db, inc, parent))
  }

  /** One more relation: recorded if it has rows, fatal if required and empty. */
  function With(before: Option<seq<Loaded>>, required: bool, name: string, children: seq<Node>): Option<seq<Loaded>> {
    if before.None? || (required && children == []) then None
    else Some(if children == [] then before.value else before.value + [Loaded(name, children)])
  }

  function BuildInclude(how: Reading, db: Tables, inc: Include, parent: Row): seq<Node>
    decreases inc, 1, 0
  {
    var related := ApplyWhere(how.mean, RelatedRows(db, parent, inc.rel), inc.where);
    BuildRows(how, db, inc.sub, if Singular(inc.rel) && related != [] then related[..1] else related)
  }

  /** A whole read: the root rows that match, each with its relations. */
  function Evaluate(how: Reading, db: Tables, model: string, where: Option<Where>, plan: seq<Include>): seq<Node> {
    BuildRows(how, db, plan, ApplyWhere(how.mean, Table(db, model), where))
  }

  // ---- what evaluating shows, in terms of the tables ----

  lemma {:induction false} JoinedExactly(edges: seq<Row>, rel: Relation, source: Row, rows: seq<Row>, row: Row)
    ensures row in JoinedRows(edges, rel, source, rows) <==> row in rows && Joined(edges, rel, source, row)
  {
    if rows != [] {
      JoinedExactly(edges, rel, source, rows[..|rows| - 1], row);
      assert rows == rows[..|rows| - 1] + [rows[|rows| - 1]];
    }
  }

  lemma {:induction false} FilteredExactly(mean: Meaning, rows: seq<Row>, w: Option<Where>, row: Row)
    ensures row in ApplyWhere(mean, rows, w) <==> row in rows && (w.Some? ==> MatchWhere(mean, row, w.value))
  {
    if rows != [] {
      FilteredExactly(mean, rows[..|rows| - 1], w, row);
      assert rows == rows[..|rows| - 1] + [rows[|rows| - 1]];
    }
  }

  /** What is built of some rows: those that keep their required relations, each with its relations, and only once for each time listed. */
  lemma {:induction false} RowsShow(how: Reading, db: Tables, plan: seq<Include>, parents: seq<Row>, node: Node)
    ensures node in BuildRows(how, db, plan, parents) <==> node.row in parents && BuildPlan(how, db, plan, node.row) == Some(node.loaded)
    ensures |BuildRows(how, db, plan, parents)| <= |parents|
  {
    if parents != [] {
      RowsShow(how, db, plan, parents[..|parents| - 1], node);
      assert parents == parents[..|parents| - 1] + [parents[|parents| - 1]];
    }
  }

  /** The two rows hold one value under these names, and not null. */
  lemma MeetsMeans(a: Row, f: string, b: Row, g: string)
    ensures Meets(a, f, b, g) <==> f in a && a[f] != Null && g in b && b[g] == a[f]
  {}

  /** Rows are joined by the key and foreign key of the relation, or by a join row that holds both keys. */
  lemma JoinedMeans(db: Tables, rel: Relation, parent: Row, row: Row)
    ensures rel.link.BelongsTo? ==> (Joined(Edges(db, rel), rel, parent, row) <==> Meets(parent, rel.link.fk, row, rel.link.key))
    ensures rel.link.HasOne? || rel.link.HasMany? ==> (Joined(Edges(db, rel), rel, parent, row) <==> Meets(parent, rel.link.key, row, rel.link.fk))
    ensures rel.link.BelongsToMany? ==>
              (Joined(Edges(db, rel), rel, parent, row) <==>
               rel.link.through in db && exists e :: e in db[rel.link.through] && Meets(parent, rel.link.key, e, rel.link.near) && Meets(e, rel.link.far, row, rel.link.targetKey))
  {
    var edges := Edges(db, rel);
    assert forall i | 0 <= i < |edges| :: edges[i] in edges;
  }

  /** A relation to many rows shows exactly the target's joined rows that match its filter and keep their own required relations. */
  lemma ManyShows(how: Reading, db: Tables, inc: Include, parent: Row, node: Node)
    requires inc.rel.link.HasMany? || inc.rel.link.BelongsToMany?
    ensures node in BuildInclude(how, db, inc, parent) <==>
            && inc.rel.target in db && node.row in db[inc.rel.target]
            && (inc.where.Some? ==> MatchWhere(how.mean, node.row, inc.where.value))
            && Joined(Edges(db, inc.rel), inc.rel, parent, node.row)
            && BuildPlan(how, db, inc.sub, node.row) == Some(node.loaded)
  {
    var related := RelatedRows(db, parent, inc.rel);
    var shown := ApplyWhere(how.mean, related, inc.where);
    JoinedExactly(Edges(db, inc.rel), inc.rel, parent, Table(db, inc.rel.target), node.row);
    FilteredExactly(how.mean, related, inc.where, node.row);
    RowsShow(how, db, inc.sub, shown, node);
  }

  /** A relation to one row shows at most one, a joined one; a `belongsTo` takes the first joined row before filtering. */
  lemma OneShows(how: Reading, db: Tables, inc: Include, parent: Row, node: Node)
    requires inc.rel.link.HasOne? || inc.rel.link.BelongsTo?
    ensures |BuildInclude(how, db, inc, parent)| <= 1
    ensures node in BuildInclude(how, db, inc, parent) ==>
              && node.row in RelatedRows(db, parent, inc.rel) && (inc.where.Some? ==> MatchWhere(how.mean, node.row, inc.where.value))
              && BuildPlan(how, db, inc.sub, node.row) == Some(node.loaded)
    ensures inc.sub == [] ==>
              (BuildInclude(how, db, inc, parent) == [] <==>
               forall row | row in RelatedRows(db, parent, inc.rel) :: inc.where.Some? && !MatchWhere(how.mean, row, inc.where.value))
  {
    var related := RelatedRows(db, parent, inc.rel);
    var shown := ApplyWhere(how.mean, related, inc.where);
    var one := if shown != [] then shown[..1] else shown;
    RowsShow(how, db, inc.sub, one, node);
    forall row ensures row in shown <==> row in related && (inc.where.Some? ==> MatchWhere(how.mean, row, inc.where.value)) {
      FilteredExactly(how.mean, related, inc.where, row);
    }
    if shown != [] {
      assert shown[0] in shown && one == [shown[0]];
      RowsShow(how, db, inc.sub, one, Node(shown[0], []));
      assert one[..0] == [] && BuildPlan(how, db, [], shown[0]) == Some([]);
    }
  }

  /** The rows related to a source: the joined ones, of which a `belongsTo` takes one. */
  lemma RelatedMeans(db: Tables, source: Row, rel: Relation, row: Row)
    ensures !rel.link.BelongsTo? ==>
              (row in RelatedRows(db, source, rel) <==> rel.target in db && row in db[rel.target] && Joined(Edges(db, rel), rel, source, row))
    ensures rel.link.BelongsTo? ==> |RelatedRows(db, source, rel)| <= 1
    ensures row in RelatedRows(db, source, rel) ==> rel.target in db && row in db[rel.target] && Joined(Edges(db, rel), rel, source, row)
    ensures RelatedRows(db, source, rel) == [] && rel.target in db && row in db[rel.target] ==> !Joined(Edges(db, rel), rel, source, row)
  {
    JoinedExactly(Edges(db, rel), rel, source, Table(db, rel.target), row);
  }

  /**
   A parent is lost exactly when an earlier relation loses it, or a join required by
   the caller, or by an adapter that infers it from the filter, shows nothing; one
   more relation is recorded when it shows something.
   */
  lemma ParentKeptIff(how: Reading, db: Tables, plan: seq<Include>, inc: Include, parent: Row)
    ensures BuildPlan(how, db, [], parent) == Some([])
    ensures BuildPlan(how, db, plan + [inc], parent).None? <==>
            || BuildPlan(how, db, plan, parent).None?
            || (BuildInclude(how, db, inc, parent) == [] && (inc.required == On || (how.infer && inc.required == Unset && inc.where.Some?)))
    ensures BuildPlan(how, db, plan + [inc], parent).Some? ==>
              BuildPlan(how, db, plan + [inc], parent).value ==
              BuildPlan(how, db, plan, parent).value +
              if BuildInclude(how, db, inc, parent) == [] then [] else [Loaded(inc.rel.name, BuildInclude(how, db, inc, parent))]
  {
    assert (plan + [inc])[..|plan|] == plan;
  }

  /** A read shows the model's rows that match and keep their required relations, with their relations. */
  lemma ReadShows(how: Reading, db: Tables, model: string, where: Option<Where>, plan: seq<Include>, node: Node)
    ensures node in Evaluate(how, db, model, where, plan) <==>
            && model in db && node.row in db[model] && (where.Some? ==> MatchWhere(how.mean, node.row, where.value))
            && BuildPlan(how, db, plan, node.row) == Some(node.loaded)
  {
    FilteredExactly(how.mean, Table(db, model), where, node.row);
    RowsShow(how, db, plan, ApplyWhere(how.mean, Table(db, model), where), node);
  }

  // ---- folding the scopes in ----

  /** The read scope of each model, and its "match nothing" filter if the adapter can say that. */
  datatype Request = Request(scopeOf: string -> ResolvedScope, nothingOf: string -> Option<Where>)

  function ScopeOf(q: Request, model: string): ResolvedScope {
    q.scopeOf(model)
  }

  function NothingFor(q: Request, model: string): Option<Where> {
    q.nothingOf(model)
  }

  function ApplyScopeWhere(user: Option<Where>, s: ResolvedScope): Option<Where> {
    if s.Scoped? then MergeScopeWhere(user, s.where) else user
  }

  function ScopedPlan(q: Request, plan: seq<Include>): seq<Include>
    decreases plan, 1
  {
    if plan == [] then []
    else ScopedPlan(q, plan[..|plan| - 1]) + ScopedInclude(q, plan[|plan| - 1])
  }

  /** The descriptor with its scope folded in; none when the relation is denied and can simply be dropped. */
  function ScopedInclude(q: Request, inc: Include): seq<Include>
    decreases inc, 1
  {
    match ScopeOf(q, inc.rel.target)
    case Denied =>
      var nothing := if inc.required.On? then NothingFor(q, inc.rel.target) else None;
      if nothing.Some? then [inc.(where := MergeScopeWhere(inc.where, nothing), sub := [])] else []
    case Unscoped => [inc.(sub := ScopedPlan(q, inc.sub))]
    case Scoped(w, _) =>
      if w.None? then [inc.(sub := ScopedPlan(q, inc.sub))]
      else [inc.(where := MergeScopeWhere(inc.where, w), required := if inc.required.On? then On else Off, sub := ScopedPlan(q, inc.sub))]
  }

  method ScopeIncludePlan(q: Request, plan: seq<Include>) returns (out: seq<Include>)
    ensures out == ScopedPlan(q, plan)
    decreases plan, 1
  {
    out := [];
    for i := 0 to |plan|
      invariant out == ScopedPlan(q, plan[..i])
    {
      assert plan[..i + 1][..i] == plan[..i];
      var inc := plan[i];
      var resolved := ScopeOf(q, inc.rel.target);
      if resolved.Denied? {
        var nothing := if inc.required.On? then NothingFor(q, inc.rel.target) else None;
        if nothing.Some? {
          out := out + [inc.(where := MergeScopeWhere(inc.where, nothing), sub := [])];
        }
      } else {
        var sub := ScopeIncludePlan(q, inc.sub);
        var scoped := inc.(sub := sub);
        if resolved.Scoped? && resolved.where.Some? {
          scoped := scoped.(where := MergeScopeWhere(inc.where, resolved.where), required := if inc.required.On? then On else Off);
        }
        out := out + [scoped];
      }
    }
    assert plan[..|plan|] == plan;
  }

  // ---- the visible world ----

  predicate Visible(mean: Meaning, row: Row, s: ResolvedScope) {
    match s
    case Unscoped => true
    case Denied => false
    case Scoped(w, _) => Admits(mean, row, w)
  }

  function VisibleRows(mean: Meaning, rows: seq<Row>, s: ResolvedScope): seq<Row> {
    if rows == [] then []
    else
      var before, last := VisibleRows(mean, rows[..|rows| - 1], s), rows[|rows| - 1];
      if Visible(mean, last, s) then before + [last] else before
  }

  /** The database with every out-of-scope row removed. */
  function VisibleDb(mean: Meaning, db: Tables, q: Request): Tables {
    map model | model in db :: VisibleRows(mean, db[model], ScopeOf(q, model))
  }

  /** A row is in the visible world when it is stored and its model's scope, as asked for, admits it. */
  lemma {:induction false} VisibleExactly(mean: Meaning, rows: seq<Row>, s: ResolvedScope, row: Row)
    ensures row in VisibleRows(mean, rows, s) <==>
            row in rows && !s.Denied? && (s.Scoped? && s.where.Some? ==> MatchWhere(mean, row, s.where.value))
  {
    if rows != [] {
      VisibleExactly(mean, rows[..|rows| - 1], s, row);
      assert rows == rows[..|rows| - 1] + [rows[|rows| - 1]];
    }
  }

  lemma VisibleWorld(mean: Meaning, db: Tables, q: Request, model: string, row: Row)
    ensures model in VisibleDb(mean, db, q) && row in VisibleDb(mean, db, q)[model] <==>
            && model in db && row in db[model] && !q.scopeOf(model).Denied?
            && (q.scopeOf(model).Scoped? && q.scopeOf(model).where.Some? ==> MatchWhere(mean, row, q.scopeOf(model).where.value))
  {
    if model in db {
      VisibleExactly(mean, db[model], q.scopeOf(model), row);
    }
  }

  /** What becomes of one descriptor: denied, with and without a way to say "nothing", scoped by a filter, or left alone. */
  lemma DescriptorFolds(q: Request, inc: Include, w: Where, forced: Row)
    ensures var scope, nothing := q.scopeOf(inc.rel.target), q.nothingOf(inc.rel.target);
            && (scope == Denied ==>
                  ScopedInclude(q, inc) ==
                  if inc.required == On && nothing.Some? then [inc.(where := MergeScopeWhere(inc.where, nothing), sub := [])] else [])
            && (scope == Unscoped || scope == Scoped(None, forced) ==> ScopedInclude(q, inc) == [inc.(sub := ScopedPlan(q, inc.sub))])
            && (scope == Scoped(Some(w), forced) ==>
                  ScopedInclude(q, inc) ==
                  [inc.(where := MergeScopeWhere(inc.where, Some(w)), required := if inc.required == On then On else Off, sub := ScopedPlan(q, inc.sub))])
  {}

  // ---- hypotheses on a request and a plan ----

  /** Scope filters are resolved ones, and a "match nothing" filter matches nothing. */
  ghost predicate Resolved(mean: Meaning, q: Request) {
    && (forall m: string :: ScopeOf(q, m).Scoped? && ScopeOf(q, m).where.Some? ==> ClashFree(ScopeOf(q, m).where.value))
    && (forall m: string :: NothingFor(q, m).Some? ==> MatchesNothing(mean, NothingFor(q, m).value))
  }

  ghost predicate MatchesNothing(mean: Meaning, w: Where) {
    ClashFree(w) && forall row: Row :: !MatchWhere(mean, row, w)
  }

  /**
   What is asked of a descriptor can be said.  A denied relation that is required
   has its "match nothing" filter, and is not required by inference alone; a
   relation with a scope filter is not required by inference.
   */
  predicate Said(how: Reading, q: Request, inc: Include) {
    match ScopeOf(q, inc.rel.target)
    case Denied => !Infers(how, inc) && (inc.required.On? ==> NothingFor(q, inc.rel.target).Some?)
    case Unscoped => true
    case Scoped(w, _) => w.Some? ==> !Infers(how, inc)
  }

  /** No scope filter hides any row of the join model. */
  predicate ThroughOpen(q: Request, rel: Relation) {
    rel.link.BelongsToMany? ==>
      var s := ScopeOf(q, rel.link.through);
      s.Unscoped? || (s.Scoped? && s.where.None?)
  }

  /** The key a `belongsTo` names has each value once. */
  ghost predicate Identifies(rows: seq<Row>, key: string) {
    forall i, j | 0 <= i < j < |rows| :: !Meets(rows[i], key, rows[j], key)
  }

  /** What the theorem asks of one relation. */
  ghost predicate LinkFits(db: Tables, q: Request, rel: Relation) {
    ThroughOpen(q, rel) && (rel.link.BelongsTo? ==> Identifies(Table(db, rel.target), rel.link.key))
  }

  ghost predicate PlanFits(how: Reading, db: Tables, q: Request, plan: seq<Include>) {
    forall i | 0 <= i < |plan| :: IncludeFits(how, db, q, plan[i])
  }

  /** Below a denied relation nothing is asked: nothing is loaded there. */
  ghost predicate IncludeFits(how: Reading, db: Tables, q: Request, inc: Include) {
    && LinkFits(db, q, inc.rel)
    && Said(how, q, inc)
    && (ScopeOf(q, inc.rel.target).Denied? || PlanFits(how, db, q, inc.sub))
  }

  ghost predicate Fitting(how: Reading, db: Tables, q: Request, plan: seq<Include>) {
    Resolved(how.mean, q) && PlanFits(how, db, q, plan)
  }

  // ---- filtering commutes with joining ----

  lemma JoinedSnoc(edges: seq<Row>, rel: Relation, source: Row, rows: seq<Row>, row: Row)
    ensures JoinedRows(edges, rel, source, rows + [row]) ==
            if Joined(edges, rel, source, row) then JoinedRows(edges, rel, source, rows) + [row] else JoinedRows(edges, rel, source, rows)
  {
    assert (rows + [row])[..|rows|] == rows;
  }

  lemma {:induction false} JoinedMember(edges: seq<Row>, rel: Relation, source: Row, rows: seq<Row>)
    requires JoinedRows(edges, rel, source, rows) != []
    ensures exists i | 0 <= i < |rows| :: Joined(edges, rel, source, rows[i])
  {
    var n := |rows| - 1;
    if !Joined(edges, rel, source, rows[n]) {
      JoinedMember(edges, rel, source, rows[..n]);
      var i :| 0 <= i < n && Joined(edges, rel, source, rows[..n][i]);
      assert Joined(edges, rel, source, rows[i]);
    }
  }

  /** A `belongsTo` finds at most one row. */
  lemma {:induction false} AtMostOne(edges: seq<Row>, rel: Relation, source: Row, rows: seq<Row>)
    requires rel.link.BelongsTo? && Identifies(rows, rel.link.key)
    ensures |JoinedRows(edges, rel, source, rows)| <= 1
  {
    if rows != [] {
      var n := |rows| - 1;
      AtMostOne(edges, rel, source, rows[..n]);
      if JoinedRows(edges, rel, source, rows[..n]) != [] {
        JoinedMember(edges, rel, source, rows[..n]);
        var i :| 0 <= i < n && Joined(edges, rel, source, rows[..n][i]);
        assert !Meets(rows[i], rel.link.key, rows[n], rel.link.key);
      }
    }
  }

  lemma VisibleSnoc(mean: Meaning, rows: seq<Row>, row: Row, s: ResolvedScope)
    ensures VisibleRows(mean, rows + [row], s) ==
            if Visible(mean, row, s) then VisibleRows(mean, rows, s) + [row] else VisibleRows(mean, rows, s)
  {
    assert (rows + [row])[..|rows|] == rows;
  }

  lemma WhereSnoc(mean: Meaning, rows: seq<Row>, row: Row, w: Option<Where>)
    ensures ApplyWhere(mean, rows + [row], w) ==
            if Admits(mean, row, w) then ApplyWhere(mean, rows, w) + [row] else ApplyWhere(mean, rows, w)
  {
    assert (rows + [row])[..|rows|] == rows;
  }

  lemma PlanSnoc(how: Reading, db: Tables, plan: seq<Include>, inc: Include, parent: Row)
    ensures BuildPlan(how, db, plan + [inc], parent) ==
            With(BuildPlan(how, db, plan, parent), Required(how, inc), inc.rel.name, BuildInclude(how, db, inc, parent))
  {
    assert (plan + [inc])[..|plan|] == plan;
  }

  lemma {:induction false} VisibleJoins(mean: Meaning, edges: seq<Row>, rel: Relation, source: Row, rows: seq<Row>, s: ResolvedScope)
    ensures JoinedRows(edges, rel, source, VisibleRows(mean, rows, s)) == VisibleRows(mean, JoinedRows(edges, rel, source, rows), s)
    ensures |JoinedRows(edges, rel, source, VisibleRows(mean, rows, s))| <= |JoinedRows(edges, rel, source, rows)|
  {
    if rows != [] {
      var front, last := rows[..|rows| - 1], rows[|rows| - 1];
      VisibleJoins(mean, edges, rel, source, front, s);
      JoinedSnoc(edges, rel, source, VisibleRows(mean, front, s), last);
      VisibleSnoc(mean, JoinedRows(edges, rel, source, front), last, s);
    }
  }

  lemma VisibleTable(mean: Meaning, db: Tables, q: Request, model: string)
    ensures Table(VisibleDb(mean, db, q), model) == VisibleRows(mean, Table(db, model), ScopeOf(q, model))
  {}

  lemma OpenShows(mean: Meaning, row: Row, s: ResolvedScope)
    requires s.Unscoped? || (s.Scoped? && s.where.None?)
    ensures Visible(mean, row, s)
  {}

  lemma {:induction false} OpenShowsAll(mean: Meaning, rows: seq<Row>, s: ResolvedScope)
    requires s.Unscoped? || (s.Scoped? && s.where.None?)
    ensures VisibleRows(mean, rows, s) == rows
  {
    if rows != [] {
      OpenShowsAll(mean, rows[..|rows| - 1], s);
      OpenShows(mean, rows[|rows| - 1], s);
      assert rows == rows[..|rows| - 1] + [rows[|rows| - 1]];
    }
  }

  /** Through an open join model the visible world relates the rows the database does. */
  lemma VisibleRelated(mean: Meaning, db: Tables, q: Request, source: Row, rel: Relation)
    requires LinkFits(db, q, rel)
    ensures RelatedRows(VisibleDb(mean, db, q), source, rel) == VisibleRows(mean, RelatedRows(db, source, rel), ScopeOf(q, rel.target))
  {
    var edges, rows := Edges(db, rel), Table(db, rel.target);
    if rel.link.BelongsToMany? {
      VisibleTable(mean, db, q, rel.link.through);
      OpenShowsAll(mean, edges, ScopeOf(q, rel.link.through));
    }
    VisibleTable(mean, db, q, rel.target);
    VisibleJoins(mean, edges, rel, source, rows, ScopeOf(q, rel.target));
    if rel.link.BelongsTo? {
      AtMostOne(edges, rel, source, rows);
      var all := JoinedRows(edges, rel, source, rows);
      assert all != [] ==> all[..1] == all;
    }
  }

  /** The scope inside the filter keeps the rows the filter keeps of the visible ones. */
  lemma {:induction false} MergedKeepsVisible(mean: Meaning, rows: seq<Row>, w: Option<Where>, s: ResolvedScope)
    requires s.Scoped? && s.where.Some? ==> ClashFree(s.where.value)
    requires !s.Denied?
    ensures ApplyWhere(mean, rows, ApplyScopeWhere(w, s)) == ApplyWhere(mean, VisibleRows(mean, rows, s), w)
  {
    if rows != [] {
      var front, last := rows[..|rows| - 1], rows[|rows| - 1];
      MergedKeepsVisible(mean, front, w, s);
      if s.Scoped? {
        MergeIsConjunction(mean, last, w, s.where);
      }
      WhereSnoc(mean, VisibleRows(mean, front, s), last, w);
    }
  }

  lemma {:induction false} NothingVisible(mean: Meaning, rows: seq<Row>, s: ResolvedScope)
    requires s.Denied?
    ensures VisibleRows(mean, rows, s) == []
  {
    if rows != [] {
      NothingVisible(mean, rows[..|rows| - 1], s);
    }
  }

  lemma {:induction false} NothingKept(mean: Meaning, rows: seq<Row>, w: Option<Where>, nothing: Where)
    requires MatchesNothing(mean, nothing)
    ensures ApplyWhere(mean, rows, MergeScopeWhere(w, Some(nothing))) == []
  {
    if rows != [] {
      NothingKept(mean, rows[..|rows| - 1], w, nothing);
      MergeIsConjunction(mean, rows[|rows| - 1], w, Some(nothing));
    }
  }

  // ---- the theorem ----

  lemma {:induction false} RowsAgree(how: Reading, db: Tables, q: Request, plan: seq<Include>, parents: seq<Row>)
    requires Fitting(how, db, q, plan)
    ensures BuildRows(how, db, ScopedPlan(q, plan), parents) == BuildRows(how, VisibleDb(how.mean, db, q), plan, parents)
    decreases plan, 2, |parents|
  {
    if parents != [] {
      RowsAgree(how, db, q, plan, parents[..|parents| - 1]);
      PlanAgrees(how, db, q, plan, parents[|parents| - 1]);
    }
  }

  lemma ScopedSnoc(q: Request, front: seq<Include>, inc: Include)
    ensures ScopedPlan(q, front + [inc]) ==
            if ScopedInclude(q, inc) == [] then ScopedPlan(q, front) else ScopedPlan(q, front) + ScopedInclude(q, inc)
  {
    assert (front + [inc])[..|front|] == front;
  }

  /** The folded plan and the plan over the visible world give a parent the same relations. */
  ghost predicate PlansAgree(how: Reading, db: Tables, q: Request, plan: seq<Include>, parent: Row) {
    BuildPlan(how, db, ScopedPlan(q, plan), parent) == BuildPlan(how, VisibleDb(how.mean, db, q), plan, parent)
  }

  lemma {:induction false} PlanAgrees(how: Reading, db: Tables, q: Request, plan: seq<Include>, parent: Row)
    requires Fitting(how, db, q, plan)
    ensures BuildPlan(how, db, ScopedPlan(q, plan), parent) == BuildPlan(how, VisibleDb(how.mean, db, q), plan, parent)
    decreases plan, 1, 0
  {
    if plan != [] {
      var front, inc := plan[..|plan| - 1], plan[|plan| - 1];
      FittingParts(how, db, q, plan);
      PlanAgrees(how, db, q, front, parent);
      FittingAgrees(how, db, q, inc, parent);
      WholeAgrees(how, db, q, plan, parent);
    }
  }

  lemma WholeAgrees(how: Reading, db: Tables, q: Request, plan: seq<Include>, parent: Row)
    requires plan != [] && PlansAgree(how, db, q, plan[..|plan| - 1], parent)
    requires SameOutcome(how, db, q, plan[|plan| - 1], parent)
    ensures PlansAgree(how, db, q, plan, parent)
  {
    var front, inc := plan[..|plan| - 1], plan[|plan| - 1];
    assert plan == front + [inc];
    LastAgrees(how, db, q, front, inc, parent);
  }

  lemma FittingParts(how: Reading, db: Tables, q: Request, plan: seq<Include>)
    requires Fitting(how, db, q, plan) && plan != []
    ensures Fitting(how, db, q, plan[..|plan| - 1]) && IncludeFits(how, db, q, plan[|plan| - 1])
  {}

  lemma FittingAgrees(how: Reading, db: Tables, q: Request, inc: Include, parent: Row)
    requires Resolved(how.mean, q) && IncludeFits(how, db, q, inc)
    ensures SameOutcome(how, db, q, inc, parent)
    decreases inc, 1, 2
  {
    IncludeAgreesIff(how, db, q, inc, parent);
  }

  lemma LastAgrees(how: Reading, db: Tables, q: Request, front: seq<Include>, inc: Include, parent: Row)
    requires PlansAgree(how, db, q, front, parent)
    requires SameOutcome(how, db, q, inc, parent)
    ensures PlansAgree(how, db, q, front + [inc], parent)
  {
    ScopedSnoc(q, front, inc);
    var seen, folded, one := VisibleDb(how.mean, db, q), ScopedPlan(q, front), ScopedInclude(q, inc);
    if one == [] {
      assert ScopedPlan(q, front + [inc]) == folded;
      LastDropped(how, db, seen, folded, front, inc, parent);
    } else {
      OneIncluded(q, inc);
      assert ScopedPlan(q, front + [inc]) == folded + [one[0]];
      LastKept(how, db, seen, folded, front, one[0], inc, parent);
    }
  }

  lemma OneIncluded(q: Request, inc: Include)
    requires ScopedInclude(q, inc) != []
    ensures ScopedInclude(q, inc) == [ScopedInclude(q, inc)[0]] && ScopedInclude(q, inc)[0].rel == inc.rel
  {}

  lemma LastDropped(how: Reading, db: Tables, seen: Tables, folded: seq<Include>, front: seq<Include>, inc: Include, parent: Row)
    requires BuildPlan(how, db, folded, parent) == BuildPlan(how, seen, front, parent)
    requires Adds(how, seen, inc, parent) == Some([])
    ensures BuildPlan(how, db, folded, parent) == BuildPlan(how, seen, front + [inc], parent)
  {
    PlanSnoc(how, seen, front, inc, parent);
    WithNothing(BuildPlan(how, seen, front, parent), Required(how, inc), inc.rel.name, BuildInclude(how, seen, inc, parent));
  }

  lemma LastKept(how: Reading, db: Tables, seen: Tables, folded: seq<Include>, front: seq<Include>, one: Include, inc: Include, parent: Row)
    requires BuildPlan(how, db, folded, parent) == BuildPlan(how, seen, front, parent)
    requires Adds(how, seen, inc, parent) == Adds(how, db, one, parent) && one.rel == inc.rel
    ensures BuildPlan(how, db, folded + [one], parent) == BuildPlan(how, seen, front + [inc], parent)
  {
    PlanSnoc(how, seen, front, inc, parent);
    PlanSnoc(how, db, folded, one, parent);
    WithSame(BuildPlan(how, seen, front, parent), Required(how, inc), BuildInclude(how, seen, inc, parent),
             Required(how, one), BuildInclude(how, db, one, parent), inc.rel.name);
  }

  lemma WithNothing(before: Option<seq<Loaded>>, required: bool, name: string, children: seq<Node>)
    requires With(Some([]), required, name, children) == Some([])
    ensures With(before, required, name, children) == before
  {}

  lemma WithSame(before: Option<seq<Loaded>>, r: bool, children: seq<Node>, other: bool, others: seq<Node>, name: string)
    requires With(Some([]), r, name, children) == With(Some([]), other, name, others)
    ensures With(before, r, name, children) == With(before, other, name, others)
  {
    assert [] + [Loaded(name, children)] == [Loaded(name, children)];
    assert [] + [Loaded(name, others)] == [Loaded(name, others)];
  }

  /** What a descriptor adds to a row loaded so far: nothing, its children, or the loss of the row. */
  function Adds(how: Reading, db: Tables, inc: Include, parent: Row): Option<seq<Loaded>> {
    With(Some([]), Required(how, inc), inc.rel.name, BuildInclude(how, db, inc, parent))
  }

  /** The folded descriptor, dropped or not, adds what the original adds in the visible world. */
  ghost predicate SameOutcome(how: Reading, db: Tables, q: Request, inc: Include, parent: Row) {
    var one := ScopedInclude(q, inc);
    Adds(how, VisibleDb(how.mean, db, q), inc, parent) == if one == [] then Some([]) else Adds(how, db, one[0], parent)
  }

  /** The children a folded descriptor loads are the visible ones, whatever was required. */
  lemma {:induction false} ChildrenAgree(how: Reading, db: Tables, q: Request, inc: Include, parent: Row)
    requires Resolved(how.mean, q) && LinkFits(db, q, inc.rel)
    requires ScopeOf(q, inc.rel.target).Denied? || PlanFits(how, db, q, inc.sub)
    ensures var children := BuildInclude(how, VisibleDb(how.mean, db, q), inc, parent);
            && (ScopeOf(q, inc.rel.target).Denied? ==> children == [])
            && (ScopedInclude(q, inc) != [] ==> BuildInclude(how, db, ScopedInclude(q, inc)[0], parent) == children)
    decreases inc, 1, 0
  {
    var s := ScopeOf(q, inc.rel.target);
    var rows := RelatedRows(db, parent, inc.rel);
    VisibleRelated(how.mean, db, q, parent, inc.rel);
    if s.Denied? {
      NothingVisible(how.mean, rows, s);
      if ScopedInclude(q, inc) != [] {
        NothingKept(how.mean, rows, inc.where, NothingFor(q, inc.rel.target).value);
      }
    } else {
      MergedKeepsVisible(how.mean, rows, inc.where, s);
      var related := ApplyWhere(how.mean, VisibleRows(how.mean, rows, s), inc.where);
      RowsAgree(how, db, q, inc.sub, if Singular(inc.rel) && related != [] then related[..1] else related);
    }
  }

  /**
   One descriptor over a plan that fits: folding changes nothing if and only if
   what is asked can be said, or the join the adapter infers has visible children
   here anyway.
   */
  lemma IncludeAgreesIff(how: Reading, db: Tables, q: Request, inc: Include, parent: Row)
    requires Resolved(how.mean, q) && LinkFits(db, q, inc.rel)
    requires ScopeOf(q, inc.rel.target).Denied? || PlanFits(how, db, q, inc.sub)
    ensures SameOutcome(how, db, q, inc, parent) <==>
            Said(how, q, inc) ||
            (ScopeOf(q, inc.rel.target).Scoped? && BuildInclude(how, VisibleDb(how.mean, db, q), inc, parent) != [])
    decreases inc, 1, 1
  {
    ChildrenAgree(how, db, q, inc, parent);
  }

  /** Where nothing is related, a descriptor that cannot be said always goes wrong. */
  lemma UnsaidLosesParents(how: Reading, q: Request, inc: Include, parent: Row)
    requires Resolved(how.mean, q) && !Said(how, q, inc)
    ensures !SameOutcome(how, map[], q, inc, parent)
  {
    assert VisibleDb(how.mean, map[], q) == map[];
    NoneRelated(how, inc, parent);
    if ScopedInclude(q, inc) != [] {
      NoneRelated(how, ScopedInclude(q, inc)[0], parent);
    }
  }

  lemma NoneRelated(how: Reading, inc: Include, parent: Row)
    ensures BuildInclude(how, map[], inc, parent) == []
  {
    assert RelatedRows(map[], parent, inc.rel) == [];
  }

  /**
   A scoped plan shows exactly the visible world: the same parents and children,
   at every depth, as the original plan over the database without the hidden rows.
   */
  lemma ScopedPlanShowsVisible(how: Reading, db: Tables, q: Request, model: string, where: Option<Where>, plan: seq<Include>)
    requires Fitting(how, db, q, plan) && !ScopeOf(q, model).Denied?
    ensures Evaluate(how, db, model, ApplyScopeWhere(where, ScopeOf(q, model)), ScopedPlan(q, plan)) ==
            Evaluate(how, VisibleDb(how.mean, db, q), model, where, plan)
  {
    var s := ScopeOf(q, model);
    VisibleTable(how.mean, db, q, model);
    MergedKeepsVisible(how.mean, Table(db, model), where, s);
    RowsAgree(how, db, q, plan, ApplyWhere(how.mean, VisibleRows(how.mean, Table(db, model), s), where));
  }

  // ---- a join model with a scope of its own ----

  /** Fewer join rows relate the same rows exactly when every related row is still related. */
  lemma {:induction false} FewerEdges(few: seq<Row>, many: seq<Row>, rel: Relation, source: Row, rows: seq<Row>)
    requires forall row {:trigger Joined(few, rel, source, row)} | Joined(few, rel, source, row) :: Joined(many, rel, source, row)
    ensures |JoinedRows(few, rel, source, rows)| <= |JoinedRows(many, rel, source, rows)|
    ensures JoinedRows(few, rel, source, rows) == JoinedRows(many, rel, source, rows) <==>
            forall i | 0 <= i < |rows| :: Joined(many, rel, source, rows[i]) ==> Joined(few, rel, source, rows[i])
  {
    if rows != [] {
      var n := |rows| - 1;
      var front := rows[..n];
      FewerEdges(few, many, rel, source, front);
      var a, b := JoinedRows(few, rel, source, front), JoinedRows(many, rel, source, front);
      assert a + [rows[n]] == b + [rows[n]] ==> a == b by {
        assert (a + [rows[n]])[..|a|] == a && (b + [rows[n]])[..|b|] == b;
      }
      assert (forall i | 0 <= i < n :: Joined(many, rel, source, front[i]) ==> Joined(few, rel, source, front[i])) <==>
             (forall i | 0 <= i < n :: Joined(many, rel, source, rows[i]) ==> Joined(few, rel, source, rows[i])) by {
        assert forall i | 0 <= i < n :: front[i] == rows[i];
      }
    }
  }

  lemma {:induction false} VisibleMember(mean: Meaning, rows: seq<Row>, s: ResolvedScope, row: Row)
    requires row in VisibleRows(mean, rows, s)
    ensures row in rows
  {
    var n := |rows| - 1;
    if row in VisibleRows(mean, rows[..n], s) {
      VisibleMember(mean, rows[..n], s, row);
    }
  }

  /**
   Through any join model, the visible world relates the visible rows the database
   relates if and only if each of them that a join row links is linked by a
   visible join row.
   */
  lemma VisibleRelatedIff(mean: Meaning, db: Tables, q: Request, source: Row, rel: Relation)
    requires rel.link.BelongsToMany?
    ensures var visible := VisibleRows(mean, Table(db, rel.target), ScopeOf(q, rel.target));
            var seen := VisibleRows(mean, Edges(db, rel), ScopeOf(q, rel.link.through));
            RelatedRows(VisibleDb(mean, db, q), source, rel) == VisibleRows(mean, RelatedRows(db, source, rel), ScopeOf(q, rel.target)) <==>
            forall i | 0 <= i < |visible| :: Joined(Edges(db, rel), rel, source, visible[i]) ==> Joined(seen, rel, source, visible[i])
  {
    var edges, rows := Edges(db, rel), Table(db, rel.target);
    var seen := VisibleRows(mean, edges, ScopeOf(q, rel.link.through));
    VisibleTable(mean, db, q, rel.link.through);
    VisibleTable(mean, db, q, rel.target);
    VisibleJoins(mean, edges, rel, source, rows, ScopeOf(q, rel.target));
    forall row | Joined(seen, rel, source, row) ensures Joined(edges, rel, source, row) {
      var i :| 0 <= i < |seen| && Meets(source, rel.link.key, seen[i], rel.link.near) && Meets(seen[i], rel.link.far, row, rel.link.targetKey);
      VisibleMember(mean, edges, ScopeOf(q, rel.link.through), seen[i]);
    }
    FewerEdges(seen, edges, rel, source, VisibleRows(mean, rows, ScopeOf(q, rel.target)));
  }

  /**
   A hidden join row: the folded plan shows the child it links, the visible world
   does not.
   */
  lemma HiddenEdgeShows(how: Reading, q: Request, source: string, through: string, target: string, key: Value)
    requires key != Null && source != through && through != target && source != target
    requires ScopeOf(q, source).Unscoped? && ScopeOf(q, target).Unscoped? && ScopeOf(q, through).Denied?
    ensures var row, edge := map["id" := key], map["a" := key, "b" := key];
            var db := map[source := [row], through := [edge], target := [row]];
            var inc := Include(Relation("rel", target, BelongsToMany(through, "id", "a", "b", "id")), None, Unset, []);
            && Evaluate(how, db, source, None, ScopedPlan(q, [inc])) == [Node(row, [Loaded("rel", [Node(row, [])])])]
            && Evaluate(how, VisibleDb(how.mean, db, q), source, None, [inc]) == [Node(row, [])]
  {
    var row, edge := map["id" := key], map["a" := key, "b" := key];
    var db := map[source := [row], through := [edge], target := [row]];
    var rel := Relation("rel", target, BelongsToMany(through, "id", "a", "b", "id"));
    var inc := Include(rel, None, Unset, []);
    var seen := VisibleDb(how.mean, db, q);
    VisibleTable(how.mean, db, q, through);
    NothingVisible(how.mean, [edge], ScopeOf(q, through));
    VisibleTable(how.mean, db, q, source);
    VisibleTable(how.mean, db, q, target);
    OpenShowsAll(how.mean, [row], Unscoped);
    EdgeRelates(db, rel, row, edge);
    NoEdgeRelates(seen, rel, row);
    ScopedSnoc(q, [], inc);
    assert [] + [inc] == [inc];
    OneRead(how, db, source, row, inc);
    OneRead(how, seen, source, row, inc);
  }

  lemma EdgeRelates(db: Tables, rel: Relation, row: Row, edge: Row)
    requires rel.link.BelongsToMany? && Table(db, rel.target) == [row] && Edges(db, rel) == [edge]
    requires Meets(row, rel.link.key, edge, rel.link.near) && Meets(edge, rel.link.far, row, rel.link.targetKey)
    ensures RelatedRows(db, row, rel) == [row]
  {
    assert [edge][0] == edge;
    OneJoined([edge], rel, row, row);
  }

  lemma NoEdgeRelates(db: Tables, rel: Relation, row: Row)
    requires rel.link.BelongsToMany? && Table(db, rel.target) == [row] && Edges(db, rel) == []
    ensures RelatedRows(db, row, rel) == []
  {
    OneJoined([], rel, row, row);
  }

  /** A read of one row with one plain relation that relates that row, or none. */
  lemma OneRead(how: Reading, db: Tables, model: string, row: Row, inc: Include)
    requires Table(db, model) == [row] && inc.where.None? && inc.required.Unset? && inc.sub == []
    requires RelatedRows(db, row, inc.rel) == [row] || RelatedRows(db, row, inc.rel) == []
    ensures Evaluate(how, db, model, None, [inc]) ==
            [Node(row, if RelatedRows(db, row, inc.rel) == [] then [] else [Loaded(inc.rel.name, [Node(row, [])])])]
  {
    OneMatched(how.mean, row);
    OneParent(how, db, [inc], row);
    OneParent(how, db, [], row);
    assert BuildInclude(how, db, inc, row) == if RelatedRows(db, row, inc.rel) == [] then [] else [Node(row, [])];
    PlanSnoc(how, db, [], inc, row);
    assert [] + [inc] == [inc];
    var one := Loaded(inc.rel.name, [Node(row, [])]);
    assert [] + [one] == [one];
    assert BuildPlan(how, db, [inc], row) == Some(if RelatedRows(db, row, inc.rel) == [] then [] else [one]);
  }

  lemma OneJoined(edges: seq<Row>, rel: Relation, source: Row, row: Row)
    ensures JoinedRows(edges, rel, source, [row]) == if Joined(edges, rel, source, row) then [row] else []
  {
    JoinedSnoc(edges, rel, source, [], row);
    assert [] + [row] == [row];
  }

  lemma OneParent(how: Reading, db: Tables, plan: seq<Include>, row: Row)
    ensures BuildRows(how, db, plan, [row]) == var loaded := BuildPlan(how, db, plan, row); if loaded.Some? then [Node(row, loaded.value)] else []
  {
    assert [row][..0] == [];
  }

  lemma OneMatched(mean: Meaning, row: Row)
    ensures ApplyWhere(mean, [row], None) == [row]
  {
    assert [row][..0] == [];
  }
}
