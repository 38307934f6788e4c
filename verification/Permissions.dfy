/** Compiling a role's scope rules for a principal into a filter, a deny, or no opinion. */
module Permissions {
  import opened Wrappers
  import opened Filters

  /** A field of the row, and the key of the principal it is compared with. */
  datatype Ref = Ref(field: string, from: string)

  /** One scope rule.  `Open` is written `none` or `allow`; `Other` is anything unrecognised. */
  datatype Leaf =
    | DenyAll
    | Open
    | Own(ref: Ref)
    | Tenant(ref: Ref)
    | Group(ref: Ref)
    | Any(entries: seq<Leaf>)
    | All(entries: seq<Leaf>)
    | Other

  /** What the principal carries under a key: a scalar, or a list such as its groups. */
  datatype Attribute = One(v: Value) | Many(vs: seq<Value>)

  type Principal = map<string, Attribute>

  datatype Operation = Read | Create | Update | Delete

  /** What a rule contributes: a deny, nothing, or a filter and forced values. */
  datatype LeafResult = Deny | Nothing | Narrow(where: Option<Where>, set_: Row)

  // ---- what a rule says ----

  /** The principal's scalar under `key`, if it has a usable one. */
  function ScalarOf(who: Principal, key: string): Option<Value> {
    if key in who && who[key].One? && who[key].v != Null then Some(who[key].v) else None
  }

  /** Does the rule let this principal at this row? */
  predicate Permits(who: Principal, leaf: Leaf, row: Row) {
    match leaf
    case DenyAll => false
    case Open => true
    case Own(ref) => ScalarOf(who, ref.from).Some? && Get(row, ref.field) == ScalarOf(who, ref.from)
    case Tenant(ref) => ScalarOf(who, ref.from).Some? && Get(row, ref.field) == ScalarOf(who, ref.from)
    case Group(ref) =>
      && ref.from in who && who[ref.from].Many?
      && Get(row, ref.field).Some? && Get(row, ref.field).value in who[ref.from].vs
    case Any(entries) => exists i | 0 <= i < |entries| :: Permits(who, entries[i], row)
    case All(entries) => forall i | 0 <= i < |entries| :: Permits(who, entries[i], row)
    case Other => true
  }

  /** What each rule says, in terms of what the principal carries and the row holds; a null, a list or nothing is no scalar. */
  lemma RuleMeans(who: Principal, row: Row, ref: Ref, entries: seq<Leaf>)
    ensures Permits(who, Own(ref), row) <==>
            exists v :: v != Null && ref.from in who && who[ref.from] == One(v) && ref.field in row && row[ref.field] == v
    ensures Permits(who, Tenant(ref), row) <==> Permits(who, Own(ref), row)
    ensures Permits(who, Group(ref), row) <==>
            exists vs :: ref.from in who && who[ref.from] == Many(vs) && ref.field in row && row[ref.field] in vs
    ensures Permits(who, Any(entries), row) <==> exists e :: e in entries && Permits(who, e, row)
    ensures Permits(who, All(entries), row) <==> forall e | e in entries :: Permits(who, e, row)
    ensures Permits(who, Open, row) && Permits(who, Other, row) && !Permits(who, DenyAll, row)
  {
    assert forall i | 0 <= i < |entries| :: entries[i] in entries;
  }

  // ---- compiling it ----

  function CompareLeaf(ref: Ref, who: Principal, op: Operation): LeafResult {
    var value := ScalarOf(who, ref.from);
    if value.None? then Deny
    else if op.Create? then Narrow(None, map[ref.field := value.value])
    else Narrow(Some(Where([Field(ref.field, Ops(value, None, []))])), map[])
  }

  function CompileLeaf(leaf: Leaf, who: Principal, op: Operation): LeafResult
    decreases leaf, 1
  {
    match leaf
    case DenyAll => Deny
    case Open => Nothing
    case Own(ref) => CompareLeaf(ref, who, op)
    case Tenant(ref) => CompareLeaf(ref, who, op)
    case Group(ref) =>
      if ref.from !in who || !who[ref.from].Many? || who[ref.from].vs == [] then Deny
      else Narrow(Some(Where([Field(ref.field, Ops(None, Some(who[ref.from].vs), []))])), map[])
    case Any(entries) => Alternation(CompileEach(entries, who, op))
    case All(entries) => Conjunction(CompileEach(entries, who, op))
    case Other => Nothing
  }

  /** What the simple rules compile to: the principal's value as an equality, or forced on a create; a deny without one. */
  lemma RuleCompiles(who: Principal, ref: Ref, op: Operation, v: Value, vs: seq<Value>)
    ensures v != Null && ref.from in who && who[ref.from] == One(v) ==>
              CompileLeaf(Own(ref), who, op) ==
              (if op == Create then Narrow(None, map[ref.field := v])
               else Narrow(Some(Where([Field(ref.field, Ops(Some(v), None, []))])), map[]))
    ensures ref.from !in who || who[ref.from] == One(Null) || who[ref.from].Many? ==> CompileLeaf(Own(ref), who, op) == Deny
    ensures CompileLeaf(Tenant(ref), who, op) == CompileLeaf(Own(ref), who, op)
    ensures ref.from in who && who[ref.from] == Many(vs) && vs != [] ==>
              CompileLeaf(Group(ref), who, op) == Narrow(Some(Where([Field(ref.field, Ops(None, Some(vs), []))])), map[])
    ensures ref.from !in who || who[ref.from].One? || who[ref.from] == Many([]) ==> CompileLeaf(Group(ref), who, op) == Deny
    ensures CompileLeaf(DenyAll, who, op) == Deny && CompileLeaf(Open, who, op) == Nothing && CompileLeaf(Other, who, op) == Nothing
  {}

  function CompileEach(entries: seq<Leaf>, who: Principal, op: Operation): seq<LeafResult>
    decreases entries, 0
  {
    if entries == [] then []
    else CompileEach(entries[..|entries| - 1], who, op) + [CompileLeaf(entries[|entries| - 1], who, op)]
  }

  /** The filters the branches carry, in order. */
  function Wheres(branches: seq<LeafResult>): seq<Where> {
    if branches == [] then []
    else
      var last := branches[|branches| - 1];
      Wheres(branches[..|branches| - 1]) + if last.Narrow? && last.where.Some? then [last.where.value] else []
  }

  /** The forced values, a later branch overwriting an earlier one. */
  function Forced(branches: seq<LeafResult>): Row {
    if branches == [] then map[]
    else
      var last := branches[|branches| - 1];
      Forced(branches[..|branches| - 1]) + if last.Narrow? then last.set_ else map[]
  }

  /** `any`: denied branches drop out, an open one opens all, forced values are dropped. */
  function Alternation(branches: seq<LeafResult>): LeafResult {
    if forall b | b in branches :: b == Deny then Deny
    else if Nothing in branches then Nothing
    else
      var wheres := Wheres(branches);
      if wheres == [] then Nothing
      else Narrow(Some(if |wheres| == 1 then wheres[0] else Where([Or(Lower, wheres)])), map[])
  }

  /** `all`: one deny denies, open branches drop out. */
  function Conjunction(branches: seq<LeafResult>): LeafResult {
    if Deny in branches then Deny
    else
      var wheres, forced := Wheres(branches), Forced(branches);
      if wheres == [] && forced == map[] then Nothing
      else Narrow(if wheres == [] then None
                  else if |wheres| == 1 then Some(wheres[0])
                  else Some(Where([And(Lower, wheres)])), forced)
  }

  // ---- compiling is a homomorphism ----

  /** The rows a compiled rule leaves in reach. */
  predicate Reaches(mean: Meaning, row: Row, r: LeafResult) {
    match r
    case Deny => false
    case Nothing => true
    case Narrow(w, _) => w.Some? ==> MatchWhere(mean, row, w.value)
  }

  predicate HasWhere(r: LeafResult) {
    r.Narrow? && r.where.Some?
  }

  /** The filters gathered are those of the branches that carry one. */
  lemma {:induction false} WheresMembers(branches: seq<LeafResult>)
    ensures forall b | b in branches && HasWhere(b) :: b.where.value in Wheres(branches)
    ensures forall w | w in Wheres(branches) :: exists b :: b in branches && HasWhere(b) && b.where.value == w
  {
    if branches != [] {
      var front, last := branches[..|branches| - 1], branches[|branches| - 1];
      assert forall b :: b in branches <==> b in front || b == last;
      WheresMembers(front);
      forall w | w in Wheres(branches) ensures exists b :: b in branches && HasWhere(b) && b.where.value == w {
        if w !in Wheres(front) {
          assert last in branches && HasWhere(last) && last.where.value == w;
        }
      }
    }
  }

  lemma WheresHold(mean: Meaning, row: Row, branches: seq<LeafResult>)
    ensures (forall w | w in Wheres(branches) :: MatchWhere(mean, row, w)) <==>
            (forall b | b in branches && HasWhere(b) :: Reaches(mean, row, b))
    ensures (exists w :: w in Wheres(branches) && MatchWhere(mean, row, w)) <==>
            (exists b :: b in branches && HasWhere(b) && Reaches(mean, row, b))
    ensures Wheres(branches) == [] <==> forall b | b in branches :: !HasWhere(b)
  {
    WheresMembers(branches);
    var ws := Wheres(branches);
    forall w | w in ws ensures exists b :: b in branches && HasWhere(b) && b.where.value == w {}
    if w :| w in ws && MatchWhere(mean, row, w) {
      var b :| b in branches && HasWhere(b) && b.where.value == w;
      assert Reaches(mean, row, b);
    }
    if b :| b in branches && HasWhere(b) && Reaches(mean, row, b) {
      assert b.where.value in ws && MatchWhere(mean, row, b.where.value);
    }
    if w :| w in ws && !MatchWhere(mean, row, w) {
      var b :| b in branches && HasWhere(b) && b.where.value == w;
      assert !Reaches(mean, row, b);
    }
    if b :| b in branches && HasWhere(b) && !Reaches(mean, row, b) {
      assert b.where.value in ws && !MatchWhere(mean, row, b.where.value);
    }
    if ws != [] {
      assert ws[0] in ws;
    }
  }

  lemma ListHolds(mean: Meaning, row: Row, ws: seq<Where>)
    ensures MatchWhere(mean, row, Where([And(Lower, ws)])) <==> forall w | w in ws :: MatchWhere(mean, row, w)
    ensures MatchWhere(mean, row, Where([Or(Lower, ws)])) <==> exists w :: w in ws && MatchWhere(mean, row, w)
  {
    assert Where([And(Lower, ws)]).clauses[0] == And(Lower, ws);
    assert Where([Or(Lower, ws)]).clauses[0] == Or(Lower, ws);
    assert MatchWhere(mean, row, Where([And(Lower, ws)])) <==> MatchClause(mean, row, And(Lower, ws));
    assert MatchWhere(mean, row, Where([Or(Lower, ws)])) <==> MatchClause(mean, row, Or(Lower, ws));
    assert forall i | 0 <= i < |ws| :: ws[i] in ws;
  }

  lemma OneHolds(mean: Meaning, row: Row, ws: seq<Where>)
    ensures |ws| == 1 ==> (MatchWhere(mean, row, ws[0]) <==> forall w | w in ws :: MatchWhere(mean, row, w))
    ensures |ws| == 1 ==> (MatchWhere(mean, row, ws[0]) <==> exists w :: w in ws && MatchWhere(mean, row, w))
  {
    if |ws| == 1 {
      assert forall w :: w in ws <==> w == ws[0];
    }
  }

  /** Every branch that is not a deny imposes nothing a filter could say. */
  predicate Unfiltered(branches: seq<LeafResult>) {
    && (exists b :: b in branches && b != Deny)
    && (Nothing in branches || forall b | b in branches :: !HasWhere(b))
  }

  /**
   `any` compiles to the union of the filters of its branches, or to nothing once
   a branch that is not denied imposes nothing or none carries a filter; `all`
   compiles to the intersection.
   */
  lemma CombineMeaning(mean: Meaning, row: Row, branches: seq<LeafResult>)
    ensures Reaches(mean, row, Alternation(branches)) <==>
            Unfiltered(branches) || exists b :: b in branches && HasWhere(b) && Reaches(mean, row, b)
    ensures Reaches(mean, row, Conjunction(branches)) <==> forall b | b in branches :: Reaches(mean, row, b)
  {
    var ws := Wheres(branches);
    WheresHold(mean, row, branches);
    ListHolds(mean, row, ws);
    OneHolds(mean, row, ws);
    assert (forall b | b in branches :: Reaches(mean, row, b)) <==>
           Deny !in branches && forall b | b in branches && HasWhere(b) :: Reaches(mean, row, b);
  }

  /** Off creates, a branch that narrows does so by a filter alone. */
  predicate FilterOnly(r: LeafResult) {
    r.Narrow? ==> r.where.Some? && r.set_ == map[]
  }

  lemma {:induction false} NothingForced(branches: seq<LeafResult>)
    requires forall b | b in branches :: FilterOnly(b)
    ensures Forced(branches) == map[]
  {
    if branches != [] {
      assert branches[|branches| - 1] in branches;
      NothingForced(branches[..|branches| - 1]);
    }
  }

  /** Off creates, `any` compiles to the union of its branches. */
  lemma FiltersUnite(mean: Meaning, row: Row, branches: seq<LeafResult>)
    requires forall b | b in branches :: FilterOnly(b)
    ensures Reaches(mean, row, Alternation(branches)) <==> exists b :: b in branches && Reaches(mean, row, b)
    ensures FilterOnly(Alternation(branches)) && FilterOnly(Conjunction(branches))
  {
    CombineMeaning(mean, row, branches);
    NothingForced(branches);
    WheresHold(mean, row, branches);
    assert Nothing in branches ==> Reaches(mean, row, Nothing);
  }

  lemma {:induction false} CompileEachAt(entries: seq<Leaf>, who: Principal, op: Operation)
    ensures |CompileEach(entries, who, op)| == |entries|
    ensures forall i | 0 <= i < |entries| :: CompileEach(entries, who, op)[i] == CompileLeaf(entries[i], who, op)
  {
    if entries != [] {
      CompileEachAt(entries[..|entries| - 1], who, op);
    }
  }

  /**
   Off creates, the compiled rule leaves in reach exactly the rows the rule
   permits, at every nesting depth.
   */
  lemma {:induction false} LeafDenotes(mean: Meaning, row: Row, leaf: Leaf, who: Principal, op: Operation)
    requires !op.Create?
    ensures Reaches(mean, row, CompileLeaf(leaf, who, op)) <==> Permits(who, leaf, row)
    ensures FilterOnly(CompileLeaf(leaf, who, op))
  {
    match leaf
    case DenyAll =>
    case Open =>
    case Other =>
    case Own(ref) => CompareDenotes(mean, row, ref, who, op);
    case Tenant(ref) => CompareDenotes(mean, row, ref, who, op);
    case Group(ref) =>
      if ref.from in who && who[ref.from].Many? && who[ref.from].vs != [] {
        OneField(mean, row, ref.field, Ops(None, Some(who[ref.from].vs), []));
      }
    case Any(entries) => EntriesDenote(mean, row, entries, who, op);
    case All(entries) => EntriesDenote(mean, row, entries, who, op);
  }

  lemma {:induction false} EntriesDenote(mean: Meaning, row: Row, entries: seq<Leaf>, who: Principal, op: Operation)
    requires !op.Create?
    ensures Reaches(mean, row, Alternation(CompileEach(entries, who, op))) <==> exists i | 0 <= i < |entries| :: Permits(who, entries[i], row)
    ensures Reaches(mean, row, Conjunction(CompileEach(entries, who, op))) <==> forall i | 0 <= i < |entries| :: Permits(who, entries[i], row)
    ensures FilterOnly(Alternation(CompileEach(entries, who, op))) && FilterOnly(Conjunction(CompileEach(entries, who, op)))
  {
    var branches := CompileEach(entries, who, op);
    CompileEachAt(entries, who, op);
    forall i | 0 <= i < |entries|
      ensures Reaches(mean, row, branches[i]) <==> Permits(who, entries[i], row)
      ensures FilterOnly(branches[i])
    {
      LeafDenotes(mean, row, entries[i], who, op);
    }
    FiltersUnite(mean, row, branches);
    CombineMeaning(mean, row, branches);
    if forall b | b in branches :: Reaches(mean, row, b) {
      assert forall i | 0 <= i < |entries| :: branches[i] in branches;
    }
    if i :| 0 <= i < |entries| && Permits(who, entries[i], row) {
      assert branches[i] in branches && Reaches(mean, row, branches[i]);
    }
  }

  lemma OneField(mean: Meaning, row: Row, field: string, cond: Cond)
    ensures MatchWhere(mean, row, Where([Field(field, cond)])) <==> MatchCond(mean, Get(row, field), cond)
  {
    assert Where([Field(field, cond)]).clauses[0] == Field(field, cond);
  }

  lemma CompareDenotes(mean: Meaning, row: Row, ref: Ref, who: Principal, op: Operation)
    requires !op.Create?
    ensures Reaches(mean, row, CompareLeaf(ref, who, op)) <==>
            ScalarOf(who, ref.from).Some? && Get(row, ref.field) == ScalarOf(who, ref.from)
    ensures FilterOnly(CompareLeaf(ref, who, op))
  {
    OneField(mean, row, ref.field, Ops(ScalarOf(who, ref.from), None, []));
  }

  // ---- a model's rules ----

  /** One rule for every operation, or a rule per operation with `write` behind the last three. */
  datatype Node =
    | ForAll(leaf: Leaf)
    | PerOperation(read: Option<Leaf>, write: Option<Leaf>, create: Option<Leaf>, update: Option<Leaf>, delete: Option<Leaf>)

  datatype Rules = Absent | Blanket(open: bool) | ByModel(nodes: map<string, Node>)

  function Specific(node: Node, op: Operation): Option<Leaf>
    requires node.PerOperation?
  {
    match op
    case Read => node.read
    case Create => node.create
    case Update => node.update
    case Delete => node.delete
  }

  function LeafForOperation(node: Node, op: Operation): Option<Leaf> {
    match node
    case ForAll(leaf) => Some(leaf)
    case PerOperation(_, write, _, _, _) =>
      if Specific(node, op).Some? then Specific(node, op)
      else if !op.Read? then write
      else None
  }

  /** The scope predicate of a rules tree. */
  function ScopeGate(rules: Rules, model: string, op: Operation, who: Option<Principal>): LeafResult {
    match rules
    case Absent => Nothing
    case Blanket(open) => if open then Nothing else Deny
    case ByModel(nodes) =>
      if model !in nodes then Nothing
      else
        match LeafForOperation(nodes[model], op)
        case None => Nothing
        case Some(leaf) =>
          if who.None? then (if leaf.Open? then Nothing else Deny)
          else CompileLeaf(leaf, who.value, op)
  }

  /** The rows a rules tree lets a request reach, read off the rules themselves. */
  ghost predicate MayReach(rules: Rules, model: string, op: Operation, who: Option<Principal>, row: Row) {
    && (rules.Blanket? ==> rules.open)
    && (rules.ByModel? && model in rules.nodes ==>
          forall leaf | Governs(rules.nodes[model], op, leaf) ::
            leaf.Open? || (who.Some? && Permits(who.value, leaf, row)))
  }

  /** `leaf` is the most specific rule the node has for the operation. */
  ghost predicate Governs(node: Node, op: Operation, leaf: Leaf) {
    match node
    case ForAll(l) => l == leaf
    case PerOperation(read, write, create, update, delete) =>
      || (op.Read? && read == Some(leaf))
      || (op.Create? && (create == Some(leaf) || (create.None? && write == Some(leaf))))
      || (op.Update? && (update == Some(leaf) || (update.None? && write == Some(leaf))))
      || (op.Delete? && (delete == Some(leaf) || (delete.None? && write == Some(leaf))))
  }

  /** Where no rule speaks nothing is imposed; `write` stands behind every operation but reads; without a principal only an open rule passes. */
  lemma GateShows(rules: map<string, Node>, model: string, op: Operation, who: Option<Principal>, leaf: Leaf)
    ensures ScopeGate(Absent, model, op, who) == Nothing && ScopeGate(Blanket(true), model, op, who) == Nothing
    ensures ScopeGate(Blanket(false), model, op, who) == Deny
    ensures model !in rules ==> ScopeGate(ByModel(rules), model, op, who) == Nothing
    ensures model in rules && rules[model] == PerOperation(None, Some(leaf), None, None, None) ==>
              ScopeGate(ByModel(rules), model, op, who) ==
              if op == Read then Nothing
              else if who.Some? then CompileLeaf(leaf, who.value, op)
              else if leaf == Open then Nothing else Deny
    ensures model in rules && rules[model] == ForAll(leaf) && who.Some? ==>
              ScopeGate(ByModel(rules), model, op, who) == CompileLeaf(leaf, who.value, op)
  {}

  lemma GateDenotes(mean: Meaning, row: Row, rules: Rules, model: string, op: Operation, who: Option<Principal>)
    requires !op.Create?
    ensures Reaches(mean, row, ScopeGate(rules, model, op, who)) <==> MayReach(rules, model, op, who, row)
  {
    if rules.ByModel? && model in rules.nodes {
      var node := rules.nodes[model];
      assert forall leaf :: Governs(node, op, leaf) <==> LeafForOperation(node, op) == Some(leaf);
      if LeafForOperation(node, op).Some? && who.Some? {
        LeafDenotes(mean, row, LeafForOperation(node, op).value, who.value, op);
      }
    }
  }
}
