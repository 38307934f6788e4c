/**
 Scope rules on a create.  A created row must meet the compiled filter and
 carries the forced values; this is compared with the rows the rule permits.
 The two differ where an `any` keeps a branch that forces a value, since that
 value is dropped, and where an `all` forces one field to two values, since the
 last one silently wins.
 */
module Creates {
  import opened Wrappers
  import opened Filters
  import opened Permissions
  import Scopes

  function Created(leaf: Leaf, who: Principal): LeafResult {
    CompileLeaf(leaf, who, Create)
  }

  function SetOf(r: LeafResult): Row {
    if r.Narrow? then r.set_ else map[]
  }

  /** A compiled rule as the answer of a scope predicate. */
  function AsSource(r: LeafResult): Scopes.ScopeResult {
    match r
    case Deny => Scopes.Refuse
    case Nothing => Scopes.NoOpinion
    case Narrow(w, forced) => Scopes.Envelope(w, forced)
  }

  /** The rows a create can leave behind under a compiled rule. */
  predicate Accepts(mean: Meaning, row: Row, r: LeafResult) {
    Scopes.Within(mean, row, AsSource(r))
  }

  lemma AcceptsMeans(mean: Meaning, row: Row, r: LeafResult)
    ensures Accepts(mean, row, r) <==> Reaches(mean, row, r) && Scopes.Agrees(row, SetOf(r))
  {}

  /** The compiled rule lets a create leave behind exactly the rows the rule permits. */
  ghost predicate Precise(mean: Meaning, leaf: Leaf, who: Principal) {
    forall row {:trigger Permits(who, leaf, row)} :: Accepts(mean, row, Created(leaf, who)) <==> Permits(who, leaf, row)
  }

  // ---- the condition, read off the rule and the principal ----

  /** The rule permits every row, whoever asks. */
  predicate Opens(leaf: Leaf) {
    match leaf
    case Any(entries) => exists i | 0 <= i < |entries| :: Opens(entries[i])
    case All(entries) => forall i | 0 <= i < |entries| :: Opens(entries[i])
    case _ => leaf.Open? || leaf.Other?
  }

  /** No two branches force one field to different values. */
  predicate SetsAgree(entries: seq<Leaf>, who: Principal) {
    forall i, j, f | 0 <= i < |entries| && 0 <= j < |entries| && f in SetOf(Created(entries[i], who)) && f in SetOf(Created(entries[j], who)) ::
      SetOf(Created(entries[i], who))[f] == SetOf(Created(entries[j], who))[f]
  }

  /** The rule can permit some row to this principal. */
  predicate Possible(leaf: Leaf, who: Principal) {
    match leaf
    case DenyAll => false
    case Open => true
    case Other => true
    case Own(ref) => ScalarOf(who, ref.from).Some?
    case Tenant(ref) => ScalarOf(who, ref.from).Some?
    case Group(ref) => ref.from in who && who[ref.from].Many? && who[ref.from].vs != []
    case Any(entries) => exists i | 0 <= i < |entries| :: Possible(entries[i], who)
    case All(entries) => (forall i | 0 <= i < |entries| :: Possible(entries[i], who)) && SetsAgree(entries, who)
  }

  /** An `any` imposes nothing: some branch is kept, and one of them is open or none carries a filter. */
  predicate Loose(entries: seq<Leaf>, who: Principal) {
    && (exists i | 0 <= i < |entries| :: Created(entries[i], who) != Deny)
    && ((exists i | 0 <= i < |entries| :: Created(entries[i], who) == Nothing) || forall i | 0 <= i < |entries| :: !HasWhere(Created(entries[i], who)))
  }

  /**
   No `any` keeps a branch that forces a value, unless the branch can permit
   nothing and says nothing; an `any` that imposes nothing is open by rule; and
   no `all` forces one field to two values.
   */
  predicate CreateExact(leaf: Leaf, who: Principal)
    decreases leaf, 0
  {
    match leaf
    case Any(entries) =>
      if Loose(entries, who) then Opens(leaf)
      else forall i | 0 <= i < |entries| :: Created(entries[i], who) == Deny || EntryExact(entries[i], who)
    case All(entries) =>
      || (exists i | 0 <= i < |entries| :: Created(entries[i], who) == Deny)
      || (Possible(leaf, who) && forall i | 0 <= i < |entries| :: CreateExact(entries[i], who))
    case _ => true
  }

  predicate EntryExact(entry: Leaf, who: Principal)
    decreases entry, 1
  {
    if Possible(entry, who) then SetOf(Created(entry, who)) == map[] && CreateExact(entry, who)
    else !HasWhere(Created(entry, who))
  }

  // ---- compiled lists, by index ----

  lemma {:induction false} ForcedAt(branches: seq<LeafResult>)
    ensures forall i, f | 0 <= i < |branches| && f in SetOf(branches[i]) :: f in Forced(branches)
    ensures forall f | f in Forced(branches) :: exists i :: 0 <= i < |branches| && f in SetOf(branches[i]) && SetOf(branches[i])[f] == Forced(branches)[f]
  {
    if branches != [] {
      var n := |branches| - 1;
      var front := branches[..n];
      ForcedAt(front);
      assert Forced(branches) == Forced(front) + SetOf(branches[n]);
      forall i, f | 0 <= i < |branches| && f in SetOf(branches[i]) ensures f in Forced(branches) {
        if i < n {
          assert branches[i] == front[i];
        }
      }
      forall f | f in Forced(branches)
        ensures exists i :: 0 <= i < |branches| && f in SetOf(branches[i]) && SetOf(branches[i])[f] == Forced(branches)[f]
      {
        if f in SetOf(branches[n]) {
          assert SetOf(branches[n])[f] == Forced(branches)[f];
        } else {
          var i :| 0 <= i < n && f in SetOf(front[i]) && SetOf(front[i])[f] == Forced(front)[f];
          assert branches[i] == front[i];
        }
      }
    }
  }

  /** The compiled branches, by index and as members. */
  lemma DenyByIndex(entries: seq<Leaf>, who: Principal)
    ensures Deny in CompileEach(entries, who, Create) <==> exists i | 0 <= i < |entries| :: Created(entries[i], who) == Deny
  {
    CompileEachAt(entries, who, Create);
  }

  lemma NothingByIndex(entries: seq<Leaf>, who: Principal)
    ensures Nothing in CompileEach(entries, who, Create) <==> exists i | 0 <= i < |entries| :: Created(entries[i], who) == Nothing
  {
    CompileEachAt(entries, who, Create);
  }

  lemma FiltersByIndex(entries: seq<Leaf>, who: Principal)
    ensures (exists b :: b in CompileEach(entries, who, Create) && HasWhere(b)) <==>
            exists i | 0 <= i < |entries| :: HasWhere(Created(entries[i], who))
  {
    var branches := CompileEach(entries, who, Create);
    CompileEachAt(entries, who, Create);
    if i :| 0 <= i < |entries| && HasWhere(Created(entries[i], who)) {
      assert branches[i] in branches;
    }
  }

  lemma KeptByIndex(entries: seq<Leaf>, who: Principal)
    ensures (exists b :: b in CompileEach(entries, who, Create) && b != Deny) <==>
            exists i | 0 <= i < |entries| :: Created(entries[i], who) != Deny
  {
    var branches := CompileEach(entries, who, Create);
    CompileEachAt(entries, who, Create);
    if i :| 0 <= i < |entries| && Created(entries[i], who) != Deny {
      assert branches[i] in branches;
    }
  }

  lemma LooseIsUnfiltered(entries: seq<Leaf>, who: Principal)
    ensures Loose(entries, who) <==> Unfiltered(CompileEach(entries, who, Create))
  {
    NothingByIndex(entries, who);
    FiltersByIndex(entries, who);
    KeptByIndex(entries, who);
  }

  lemma AlternationShape(branches: seq<LeafResult>)
    ensures SetOf(Alternation(branches)) == map[]
    ensures Alternation(branches) == Nothing <==> Unfiltered(branches)
    ensures Alternation(branches) == Deny <==> !exists b :: b in branches && b != Deny
    ensures HasWhere(Alternation(branches)) ==> exists b :: b in branches && HasWhere(b)
  {
    WheresHold((_, _, _) => true, map[], branches);
  }

  lemma ConjunctionShape(branches: seq<LeafResult>)
    ensures Conjunction(branches) == Deny <==> Deny in branches
    ensures HasWhere(Conjunction(branches)) ==> exists b :: b in branches && HasWhere(b)
  {
    WheresHold((_, _, _) => true, map[], branches);
  }

  lemma ReachedByIndex(mean: Meaning, row: Row, entries: seq<Leaf>, who: Principal)
    ensures (exists b :: b in CompileEach(entries, who, Create) && HasWhere(b) && Reaches(mean, row, b)) <==>
            exists i :: 0 <= i < |entries| && HasWhere(Created(entries[i], who)) && Reaches(mean, row, Created(entries[i], who))
  {
    var branches := CompileEach(entries, who, Create);
    CompileEachAt(entries, who, Create);
    if i :| 0 <= i < |entries| && HasWhere(Created(entries[i], who)) && Reaches(mean, row, Created(entries[i], who)) {
      assert branches[i] in branches;
    }
  }

  lemma AllReachedByIndex(mean: Meaning, row: Row, entries: seq<Leaf>, who: Principal)
    ensures (forall b | b in CompileEach(entries, who, Create) :: Reaches(mean, row, b)) <==>
            forall i | 0 <= i < |entries| :: Reaches(mean, row, Created(entries[i], who))
  {
    var branches := CompileEach(entries, who, Create);
    CompileEachAt(entries, who, Create);
    forall i | 0 <= i < |entries| ensures Created(entries[i], who) == branches[i] && branches[i] in branches {}
  }

  /** What an `any` compiles to. */
  lemma AnyCreated(entries: seq<Leaf>, who: Principal)
    ensures var r := Created(Any(entries), who);
            && SetOf(r) == map[]
            && (r == Nothing <==> Loose(entries, who))
            && (r == Deny <==> forall i | 0 <= i < |entries| :: Created(entries[i], who) == Deny)
            && (HasWhere(r) ==> !Loose(entries, who) && exists i :: 0 <= i < |entries| && HasWhere(Created(entries[i], who)))
  {
    AlternationShape(CompileEach(entries, who, Create));
    LooseIsUnfiltered(entries, who);
    KeptByIndex(entries, who);
    FiltersByIndex(entries, who);
  }

  lemma AnyReaches(mean: Meaning, row: Row, entries: seq<Leaf>, who: Principal)
    ensures Reaches(mean, row, Created(Any(entries), who)) <==>
            Loose(entries, who) || exists i :: 0 <= i < |entries| && HasWhere(Created(entries[i], who)) && Reaches(mean, row, Created(entries[i], who))
  {
    LooseIsUnfiltered(entries, who);
    ReachedByIndex(mean, row, entries, who);
    CombineMeaning(mean, row, CompileEach(entries, who, Create));
  }

  /** What an `all` forces: what its branches force, each value from one of them. */
  lemma AllForced(entries: seq<Leaf>, who: Principal)
    ensures var r := Created(All(entries), who);
            && (forall f | f in SetOf(r) :: exists i :: 0 <= i < |entries| && f in SetOf(Created(entries[i], who)) && SetOf(Created(entries[i], who))[f] == SetOf(r)[f])
            && (r != Deny ==> forall i, f | 0 <= i < |entries| && f in SetOf(Created(entries[i], who)) :: f in SetOf(r))
  {
    CompileEachAt(entries, who, Create);
    ForcedAt(CompileEach(entries, who, Create));
  }

  /** What an `all` compiles to. */
  lemma AllCreated(entries: seq<Leaf>, who: Principal)
    ensures Created(All(entries), who) == Deny <==> exists i | 0 <= i < |entries| :: Created(entries[i], who) == Deny
    ensures HasWhere(Created(All(entries), who)) ==> exists i | 0 <= i < |entries| :: HasWhere(Created(entries[i], who))
  {
    ConjunctionShape(CompileEach(entries, who, Create));
    DenyByIndex(entries, who);
    FiltersByIndex(entries, who);
  }

  lemma AllReaches(mean: Meaning, row: Row, entries: seq<Leaf>, who: Principal)
    ensures Reaches(mean, row, Created(All(entries), who)) <==> forall i | 0 <= i < |entries| :: Reaches(mean, row, Created(entries[i], who))
  {
    AllReachedByIndex(mean, row, entries, who);
    CombineMeaning(mean, row, CompileEach(entries, who, Create));
  }

  // ---- what permission needs ----

  /** A permitted row means the rule is possible, is not compiled to a deny, and the row carries the forced values. */
  lemma {:induction false} PermitsNeeds(leaf: Leaf, who: Principal, row: Row)
    requires Permits(who, leaf, row)
    ensures Possible(leaf, who) && Created(leaf, who) != Deny && Scopes.Agrees(row, SetOf(Created(leaf, who)))
  {
    match leaf
    case Any(entries) =>
      var i :| 0 <= i < |entries| && Permits(who, entries[i], row);
      PermitsNeeds(entries[i], who, row);
      AnyCreated(entries, who);
    case All(entries) =>
      forall i | 0 <= i < |entries|
        ensures Possible(entries[i], who) && Created(entries[i], who) != Deny && Scopes.Agrees(row, SetOf(Created(entries[i], who)))
      {
        PermitsNeeds(entries[i], who, row);
      }
      AllCreated(entries, who);
      AllForced(entries, who);
    case _ =>
  }

  /** An open rule compiles to nothing and permits every row. */
  lemma {:induction false} OpensPermits(leaf: Leaf, who: Principal, row: Row)
    requires Opens(leaf)
    ensures Permits(who, leaf, row) && Created(leaf, who) == Nothing
  {
    match leaf
    case Any(entries) =>
      var i :| 0 <= i < |entries| && Opens(entries[i]);
      OpensPermits(entries[i], who, row);
      AnyCreated(entries, who);
    case All(entries) =>
      forall i | 0 <= i < |entries| ensures Permits(who, entries[i], row) && Created(entries[i], who) == Nothing {
        OpensPermits(entries[i], who, row);
      }
      AllCreated(entries, who);
      AllForced(entries, who);
      assert SetOf(Created(leaf, who)) == map[];
      NarrowsBySomething(leaf, who);
    case _ =>
  }

  /** No other rule permits the empty row, and no filter accepts it. */
  lemma {:induction false} EmptyRow(mean: Meaning, leaf: Leaf, who: Principal)
    ensures Permits(who, leaf, map[]) ==> Opens(leaf)
    ensures HasWhere(Created(leaf, who)) ==> !Reaches(mean, map[], Created(leaf, who))
  {
    match leaf
    case Group(ref) =>
      if HasWhere(Created(leaf, who)) {
        OneField(mean, map[], ref.field, Ops(None, Some(who[ref.from].vs), []));
      }
    case Any(entries) =>
      forall i | 0 <= i < |entries|
        ensures Permits(who, entries[i], map[]) ==> Opens(entries[i])
        ensures HasWhere(Created(entries[i], who)) ==> !Reaches(mean, map[], Created(entries[i], who))
      {
        EmptyRow(mean, entries[i], who);
      }
      AnyCreated(entries, who);
      AnyReaches(mean, map[], entries, who);
    case All(entries) =>
      forall i | 0 <= i < |entries|
        ensures Permits(who, entries[i], map[]) ==> Opens(entries[i])
        ensures HasWhere(Created(entries[i], who)) ==> !Reaches(mean, map[], Created(entries[i], who))
      {
        EmptyRow(mean, entries[i], who);
      }
      AllCreated(entries, who);
      AllForced(entries, who);
      AllReaches(mean, map[], entries, who);
    case _ =>
  }

  /** A narrowing rule has a filter or forces something. */
  lemma NarrowsBySomething(leaf: Leaf, who: Principal)
    ensures Created(leaf, who).Narrow? ==> HasWhere(Created(leaf, who)) || SetOf(Created(leaf, who)) != map[]
  {
    match leaf
    case Own(ref) => assert ScalarOf(who, ref.from).Some? ==> ref.field in SetOf(Created(leaf, who));
    case Tenant(ref) => assert ScalarOf(who, ref.from).Some? ==> ref.field in SetOf(Created(leaf, who));
    case _ =>
  }

  // ---- the condition suffices ----

  /** Under the condition a create is held to exactly the rows the rule permits. */
  lemma {:induction false} CreateDenotes(mean: Meaning, row: Row, leaf: Leaf, who: Principal)
    requires CreateExact(leaf, who)
    ensures Accepts(mean, row, Created(leaf, who)) <==> Permits(who, leaf, row)
    decreases leaf
  {
    AcceptsMeans(mean, row, Created(leaf, who));
    match leaf
    case Group(ref) =>
      if HasWhere(Created(leaf, who)) {
        OneField(mean, row, ref.field, Ops(None, Some(who[ref.from].vs), []));
      }
    case Any(entries) =>
      AnyCreated(entries, who);
      AnyReaches(mean, row, entries, who);
      if Loose(entries, who) {
        OpensPermits(leaf, who, row);
      } else {
        forall i | 0 <= i < |entries|
          ensures Permits(who, entries[i], row) <==> HasWhere(Created(entries[i], who)) && Reaches(mean, row, Created(entries[i], who))
        {
          AnyEntryDenotes(mean, row, entries, who, i);
        }
      }
    case All(entries) =>
      AllCreated(entries, who);
      AllForced(entries, who);
      if Created(leaf, who) == Deny {
        if Permits(who, leaf, row) {
          PermitsNeeds(leaf, who, row);
        }
      } else {
        forall i | 0 <= i < |entries| ensures Accepts(mean, row, Created(entries[i], who)) <==> Permits(who, entries[i], row) {
          CreateDenotes(mean, row, entries[i], who);
        }
        AllAccepts(mean, row, entries, who);
      }
    case _ =>
  }

  lemma AnyEntryDenotes(mean: Meaning, row: Row, entries: seq<Leaf>, who: Principal, i: nat)
    requires !Loose(entries, who) && i < |entries| && (Created(entries[i], who) == Deny || EntryExact(entries[i], who))
    ensures Permits(who, entries[i], row) <==> HasWhere(Created(entries[i], who)) && Reaches(mean, row, Created(entries[i], who))
    decreases entries, 0
  {
    if Permits(who, entries[i], row) {
      PermitsNeeds(entries[i], who, row);
    }
    if Created(entries[i], who) != Deny && Possible(entries[i], who) {
      CreateDenotes(mean, row, entries[i], who);
      NarrowsBySomething(entries[i], who);
    }
  }

  /** Where no two branches force a field differently, an `all` accepts what every branch accepts. */
  lemma AllAccepts(mean: Meaning, row: Row, entries: seq<Leaf>, who: Principal)
    requires SetsAgree(entries, who) && Created(All(entries), who) != Deny
    ensures Accepts(mean, row, Created(All(entries), who)) <==> forall i | 0 <= i < |entries| :: Accepts(mean, row, Created(entries[i], who))
  {
    AllCreated(entries, who);
    AllForced(entries, who);
    AllReaches(mean, row, entries, who);
    var forced := SetOf(Created(All(entries), who));
    forall i, f | 0 <= i < |entries| && f in SetOf(Created(entries[i], who)) ensures f in forced && forced[f] == SetOf(Created(entries[i], who))[f] {
      var k :| 0 <= k < |entries| && f in SetOf(Created(entries[k], who)) && SetOf(Created(entries[k], who))[f] == forced[f];
    }
    AcceptsMeans(mean, row, Created(All(entries), who));
    forall i | 0 <= i < |entries|
      ensures Accepts(mean, row, Created(entries[i], who)) <==> Reaches(mean, row, Created(entries[i], who)) && Scopes.Agrees(row, SetOf(Created(entries[i], who)))
    {
      AcceptsMeans(mean, row, Created(entries[i], who));
    }
  }

  // ---- the condition is needed ----

  predicate Names(leaf: Leaf, field: string) {
    match leaf
    case Own(ref) => ref.field == field
    case Tenant(ref) => ref.field == field
    case Group(ref) => ref.field == field
    case Any(entries) => exists i | 0 <= i < |entries| :: Names(entries[i], field)
    case All(entries) => exists i | 0 <= i < |entries| :: Names(entries[i], field)
    case _ => false
  }

  ghost predicate Disjoint(a: Leaf, b: Leaf) {
    forall f {:trigger Names(a, f)} {:trigger Names(b, f)} | Names(a, f) :: !Names(b, f)
  }

  predicate Forces(leaf: Leaf) {
    leaf.Own? || leaf.Tenant?
  }

  /** No field is named by two branches, except by `own` and `tenant` branches of one `all`. */
  ghost predicate Apart(leaf: Leaf) {
    match leaf
    case Any(entries) =>
      && (forall i | 0 <= i < |entries| :: Apart(entries[i]))
      && forall i, j | 0 <= i < |entries| && 0 <= j < |entries| && i != j :: Disjoint(entries[i], entries[j])
    case All(entries) =>
      && (forall i | 0 <= i < |entries| :: Apart(entries[i]))
      && forall i, j | 0 <= i < |entries| && 0 <= j < |entries| && i != j ::
           (Forces(entries[i]) && Forces(entries[j])) || Disjoint(entries[i], entries[j])
    case _ => true
  }

  ghost predicate Inside(row: Row, leaf: Leaf) {
    forall f | f in row :: Names(leaf, f)
  }

  predicate Extends(a: Row, b: Row) {
    forall f | f in a :: f in b && b[f] == a[f]
  }

  /** The rows agree on the fields the rule names. */
  ghost predicate Same(leaf: Leaf, a: Row, b: Row) {
    forall f {:trigger Names(leaf, f)} | Names(leaf, f) :: Get(a, f) == Get(b, f)
  }

  /** `b` carries what `a` does, at least where the rule looks. */
  ghost predicate Covers(leaf: Leaf, a: Row, b: Row) {
    Same(leaf, a, b) || Extends(a, b)
  }

  lemma CoversEach(leaf: Leaf, entries: seq<Leaf>, a: Row, b: Row)
    requires Covers(leaf, a, b) && (leaf == Any(entries) || leaf == All(entries))
    ensures forall i | 0 <= i < |entries| :: Covers(entries[i], a, b)
  {
    forall i | 0 <= i < |entries| ensures Covers(entries[i], a, b) {
      assert forall f {:trigger Names(entries[i], f)} | Names(entries[i], f) :: Names(leaf, f);
    }
  }

  /** A rule and its compiled filter look at the fields the rule names, and want values there, never their absence. */
  lemma {:induction false} Local(mean: Meaning, leaf: Leaf, who: Principal, a: Row, b: Row)
    requires Covers(leaf, a, b)
    ensures Permits(who, leaf, a) ==> Permits(who, leaf, b)
    ensures Reaches(mean, a, Created(leaf, who)) ==> Reaches(mean, b, Created(leaf, who))
    decreases leaf, 1
  {
    match leaf
    case Own(ref) => assert Names(leaf, ref.field);
    case Tenant(ref) => assert Names(leaf, ref.field);
    case Group(ref) =>
      assert Names(leaf, ref.field);
      if HasWhere(Created(leaf, who)) {
        OneField(mean, a, ref.field, Ops(None, Some(who[ref.from].vs), []));
        OneField(mean, b, ref.field, Ops(None, Some(who[ref.from].vs), []));
      }
    case Any(entries) =>
      CoversEach(leaf, entries, a, b);
      EachLocal(mean, entries, who, a, b);
      AnyReaches(mean, a, entries, who);
      AnyReaches(mean, b, entries, who);
    case All(entries) =>
      CoversEach(leaf, entries, a, b);
      EachLocal(mean, entries, who, a, b);
      AllReaches(mean, a, entries, who);
      AllReaches(mean, b, entries, who);
    case _ =>
  }

  lemma {:induction false} EachLocal(mean: Meaning, entries: seq<Leaf>, who: Principal, a: Row, b: Row)
    requires forall i | 0 <= i < |entries| :: Covers(entries[i], a, b)
    ensures forall i | 0 <= i < |entries| :: Permits(who, entries[i], a) ==> Permits(who, entries[i], b)
    ensures forall i | 0 <= i < |entries| ::
      Reaches(mean, a, Created(entries[i], who)) ==> Reaches(mean, b, Created(entries[i], who))
    decreases entries, 0
  {
    forall i | 0 <= i < |entries|
      ensures Permits(who, entries[i], a) ==> Permits(who, entries[i], b)
      ensures Reaches(mean, a, Created(entries[i], who)) ==> Reaches(mean, b, Created(entries[i], who))
    {
      Local(mean, entries[i], who, a, b);
    }
  }

  lemma {:induction false} SetNamed(leaf: Leaf, who: Principal)
    ensures Inside(SetOf(Created(leaf, who)), leaf)
  {
    match leaf
    case Any(entries) => AnyCreated(entries, who);
    case All(entries) =>
      forall i | 0 <= i < |entries| ensures Inside(SetOf(Created(entries[i], who)), entries[i]) {
        SetNamed(entries[i], who);
      }
      AllCreated(entries, who);
      AllForced(entries, who);
    case _ =>
  }

  // ---- rows put together from rows for the branches ----

  ghost function Gather(rows: seq<Row>): Row {
    if rows == [] then map[] else Gather(rows[..|rows| - 1]) + rows[|rows| - 1]
  }

  ghost predicate Compatible(rows: seq<Row>) {
    forall i, j, f | 0 <= i < |rows| && 0 <= j < |rows| && f in rows[i] && f in rows[j] :: rows[i][f] == rows[j][f]
  }

  lemma {:induction false} GatherAt(rows: seq<Row>)
    requires Compatible(rows)
    ensures forall i | 0 <= i < |rows| :: Extends(rows[i], Gather(rows))
    ensures forall f | f in Gather(rows) :: exists i :: 0 <= i < |rows| && f in rows[i]
  {
    if rows != [] {
      var n := |rows| - 1;
      var front := rows[..n];
      GatherAt(front);
      assert forall i | 0 <= i < n :: front[i] == rows[i];
      forall f | f in Gather(rows) ensures exists i :: 0 <= i < |rows| && f in rows[i] {
        if f !in rows[n] {
          var i :| 0 <= i < n && f in front[i];
          assert f in rows[i];
        }
      }
    }
  }

  // ---- rows that show what a rule is compiled to ----

  /** A row the compiled filter accepts that carries none of the forced values. */
  lemma {:induction false} FilterRow(mean: Meaning, leaf: Leaf, who: Principal) returns (row: Row)
    requires Apart(leaf) && HasWhere(Created(leaf, who))
    ensures Inside(row, leaf) && row.Keys !! SetOf(Created(leaf, who)).Keys
    ensures Reaches(mean, row, Created(leaf, who))
    decreases leaf, 1
  {
    match leaf
    case Group(ref) =>
      row := map[ref.field := who[ref.from].vs[0]];
      OneField(mean, row, ref.field, Ops(None, Some(who[ref.from].vs), []));
    case Any(entries) =>
      AnyCreated(entries, who);
      var i :| 0 <= i < |entries| && HasWhere(Created(entries[i], who));
      row := FilterRow(mean, entries[i], who);
      AnyReaches(mean, row, entries, who);
    case All(entries) =>
      var rows := FilterRows(mean, entries, who);
      row := Gather(rows);
      AllFilterRow(mean, entries, who, rows);
  }

  lemma {:induction false} FilterRows(mean: Meaning, entries: seq<Leaf>, who: Principal) returns (rows: seq<Row>)
    requires forall i | 0 <= i < |entries| :: Apart(entries[i])
    ensures |rows| == |entries| && forall i | 0 <= i < |rows| :: FiltersRow(mean, entries[i], who, rows[i])
    decreases entries, 0
  {
    rows := [];
    for n := 0 to |entries|
      invariant |rows| == n && forall i | 0 <= i < n :: FiltersRow(mean, entries[i], who, rows[i])
    {
      var row: Row := map[];
      if HasWhere(Created(entries[n], who)) {
        row := FilterRow(mean, entries[n], who);
      }
      rows := rows + [row];
    }
  }

  ghost predicate FiltersRow(mean: Meaning, leaf: Leaf, who: Principal, row: Row) {
    if HasWhere(Created(leaf, who))
    then Inside(row, leaf) && row.Keys !! SetOf(Created(leaf, who)).Keys && Reaches(mean, row, Created(leaf, who))
    else row == map[]
  }

  /** Filter rows share no field with each other, nor with any forced value. */
  lemma FilterRowsApart(mean: Meaning, entries: seq<Leaf>, who: Principal, rows: seq<Row>)
    requires Apart(All(entries))
    requires |rows| == |entries| && forall i | 0 <= i < |rows| :: FiltersRow(mean, entries[i], who, rows[i])
    ensures Compatible(rows)
    ensures forall i, f | 0 <= i < |rows| && f in rows[i] :: Names(entries[i], f)
    ensures forall i, j, f | 0 <= i < |rows| && 0 <= j < |rows| && f in rows[i] :: f !in SetOf(Created(entries[j], who))
  {
    forall i, j, f | 0 <= i < |rows| && 0 <= j < |rows| && i != j && f in rows[i] ensures Names(entries[i], f) && !Names(entries[j], f) {
      assert !Forces(entries[i]);
      assert Disjoint(entries[i], entries[j]);
    }
    forall i, j, f | 0 <= i < |rows| && 0 <= j < |rows| && f in rows[i] ensures f !in SetOf(Created(entries[j], who)) {
      SetNamed(entries[j], who);
    }
  }

  lemma AllFilterRow(mean: Meaning, entries: seq<Leaf>, who: Principal, rows: seq<Row>)
    requires Apart(All(entries)) && Created(All(entries), who) != Deny
    requires |rows| == |entries| && forall i | 0 <= i < |rows| :: FiltersRow(mean, entries[i], who, rows[i])
    ensures Inside(Gather(rows), All(entries)) && Gather(rows).Keys !! SetOf(Created(All(entries), who)).Keys
    ensures Reaches(mean, Gather(rows), Created(All(entries), who))
  {
    FilterRowsApart(mean, entries, who, rows);
    GatherAt(rows);
    AllCreated(entries, who);
    AllForced(entries, who);
    AllReaches(mean, Gather(rows), entries, who);
    forall i | 0 <= i < |entries| ensures Reaches(mean, Gather(rows), Created(entries[i], who)) {
      if HasWhere(Created(entries[i], who)) {
        Local(mean, entries[i], who, rows[i], Gather(rows));
      }
    }
  }

  /** A row both permitted and accepted, on the fields the rule names. */
  ghost predicate Shows(mean: Meaning, leaf: Leaf, who: Principal, row: Row) {
    && Inside(row, leaf)
    && Permits(who, leaf, row)
    && Reaches(mean, row, Created(leaf, who))
  }

  /** A rule that can permit something permits a row its compiled form accepts. */
  lemma {:induction false} SharedRow(mean: Meaning, leaf: Leaf, who: Principal) returns (row: Row)
    requires Apart(leaf) && Possible(leaf, who)
    ensures Shows(mean, leaf, who, row) && Accepts(mean, row, Created(leaf, who))
    decreases leaf, 1
  {
    match leaf
    case Open => row := map[];
    case Other => row := map[];
    case Own(ref) => row := map[ref.field := ScalarOf(who, ref.from).value];
    case Tenant(ref) => row := map[ref.field := ScalarOf(who, ref.from).value];
    case Group(ref) =>
      row := map[ref.field := who[ref.from].vs[0]];
      OneField(mean, row, ref.field, Ops(None, Some(who[ref.from].vs), []));
    case Any(entries) => row := AnySharedRow(mean, entries, who);
    case All(entries) =>
      var rows := SharedRows(mean, entries, who);
      AllSharedRow(mean, entries, who, rows);
      row := Gather(rows);
    PermitsNeeds(leaf, who, row);
    AcceptsMeans(mean, row, Created(leaf, who));
  }

  /** Rows on different fields, put together. */
  lemma JoinRows(mean: Meaning, a: Leaf, b: Leaf, who: Principal, row: Row, more: Row)
    requires Inside(row, a) && Inside(more, b) && Disjoint(b, a)
    requires Permits(who, a, row) && Reaches(mean, more, Created(b, who))
    ensures Permits(who, a, row + more) && Reaches(mean, row + more, Created(b, who))
  {
    assert Extends(row, row + more) && Extends(more, row + more);
    Local(mean, a, who, row, row + more);
    Local(mean, b, who, more, row + more);
  }

  lemma {:induction false} AnySharedRow(mean: Meaning, entries: seq<Leaf>, who: Principal) returns (row: Row)
    requires Apart(Any(entries)) && exists i | 0 <= i < |entries| :: Possible(entries[i], who)
    ensures Shows(mean, Any(entries), who, row)
    decreases entries, 0
  {
    AnyCreated(entries, who);
    var k :| 0 <= k < |entries| && Possible(entries[k], who);
    row := SharedRow(mean, entries[k], who);
    PermitsNeeds(entries[k], who, row);
    if !Loose(entries, who) && !HasWhere(Created(entries[k], who)) {
      var i :| 0 <= i < |entries| && HasWhere(Created(entries[i], who));
      var more := FilterRow(mean, entries[i], who);
      assert Disjoint(entries[i], entries[k]);
      JoinRows(mean, entries[k], entries[i], who, row, more);
      row := row + more;
    }
    AnyReaches(mean, row, entries, who);
  }

  lemma {:induction false} SharedRows(mean: Meaning, entries: seq<Leaf>, who: Principal) returns (rows: seq<Row>)
    requires forall i | 0 <= i < |entries| :: Apart(entries[i]) && Possible(entries[i], who)
    ensures |rows| == |entries| && forall i | 0 <= i < |rows| :: Shows(mean, entries[i], who, rows[i])
    decreases entries, 0
  {
    rows := [];
    for n := 0 to |entries|
      invariant |rows| == n && forall i | 0 <= i < n :: Shows(mean, entries[i], who, rows[i])
    {
      var row := SharedRow(mean, entries[n], who);
      rows := rows + [row];
    }
  }

  /** Permitted rows for the branches of an `all` that forces no field twice fit together. */
  lemma SharedCompatible(mean: Meaning, entries: seq<Leaf>, who: Principal, rows: seq<Row>)
    requires Apart(All(entries)) && SetsAgree(entries, who)
    requires |rows| == |entries| && forall i | 0 <= i < |rows| :: Shows(mean, entries[i], who, rows[i])
    ensures Compatible(rows)
  {
    forall i, j, f | 0 <= i < |rows| && 0 <= j < |rows| && f in rows[i] && f in rows[j] ensures rows[i][f] == rows[j][f] {
      assert Names(entries[i], f) && Names(entries[j], f);
      if i != j {
        assert !Disjoint(entries[i], entries[j]);
        PermitsNeeds(entries[i], who, rows[i]);
        PermitsNeeds(entries[j], who, rows[j]);
        assert f in SetOf(Created(entries[i], who)) && f in SetOf(Created(entries[j], who));
      }
    }
  }

  lemma AllSharedRow(mean: Meaning, entries: seq<Leaf>, who: Principal, rows: seq<Row>)
    requires Apart(All(entries)) && SetsAgree(entries, who)
    requires |rows| == |entries| && forall i | 0 <= i < |rows| :: Shows(mean, entries[i], who, rows[i])
    ensures Shows(mean, All(entries), who, Gather(rows))
  {
    SharedCompatible(mean, entries, who, rows);
    GatherAt(rows);
    AllReaches(mean, Gather(rows), entries, who);
    forall i | 0 <= i < |entries|
      ensures Permits(who, entries[i], Gather(rows)) && Reaches(mean, Gather(rows), Created(entries[i], who))
    {
      Local(mean, entries[i], who, rows[i], Gather(rows));
    }
  }

  /** Any rule not compiled to a deny accepts some row. */
  lemma AcceptedRow(mean: Meaning, leaf: Leaf, who: Principal) returns (row: Row)
    requires Apart(leaf) && Created(leaf, who) != Deny
    ensures Accepts(mean, row, Created(leaf, who))
  {
    row := SetOf(Created(leaf, who));
    if HasWhere(Created(leaf, who)) {
      var filtered := FilterRow(mean, leaf, who);
      row := filtered + row;
      assert Extends(filtered, row);
      Local(mean, leaf, who, filtered, row);
    }
    AcceptsMeans(mean, row, Created(leaf, who));
  }

  // ---- one branch looked at on its own ----

  /** The part of a row a rule looks at. */
  ghost function Only(row: Row, leaf: Leaf): (r: Row)
    ensures Inside(r, leaf) && Same(leaf, r, row) && Same(leaf, row, r)
  {
    map f | f in row && Names(leaf, f) :: row[f]
  }

  /** On a row about one branch, an `any` says what that branch says. */
  lemma AloneInAny(mean: Meaning, entries: seq<Leaf>, who: Principal, i: nat, row: Row)
    requires Apart(Any(entries)) && !Loose(entries, who) && i < |entries| && Inside(row, entries[i])
    requires Created(Any(entries), who) != Deny
    ensures Accepts(mean, row, Created(Any(entries), who)) <==>
            HasWhere(Created(entries[i], who)) && Reaches(mean, row, Created(entries[i], who))
    ensures Permits(who, Any(entries), row) <==> Permits(who, entries[i], row)
  {
    AnyCreated(entries, who);
    AnyReaches(mean, row, entries, who);
    AcceptsMeans(mean, row, Created(Any(entries), who));
    forall j | 0 <= j < |entries| && j != i
      ensures !Permits(who, entries[j], row)
      ensures HasWhere(Created(entries[j], who)) ==> !Reaches(mean, row, Created(entries[j], who))
    {
      assert Disjoint(entries[i], entries[j]);
      assert Same(entries[j], row, map[]);
      Local(mean, entries[j], who, row, map[]);
      EmptyRow(mean, entries[j], who);
      if Opens(entries[j]) {
        OpensPermits(entries[j], who, row);
      }
    }
  }

  lemma AnyEntryExact(mean: Meaning, entries: seq<Leaf>, who: Principal, i: nat)
    requires Apart(Any(entries)) && !Loose(entries, who) && i < |entries| && Created(entries[i], who) != Deny
    requires Precise(mean, Any(entries), who)
    ensures EntryExact(entries[i], who)
    decreases entries, 0
  {
    var leaf := entries[i];
    AnyCreated(entries, who);
    if HasWhere(Created(leaf, who)) {
      var filtered := FilterRow(mean, leaf, who);
      AloneInAny(mean, entries, who, i, filtered);
      assert Permits(who, Any(entries), filtered);
      PermitsNeeds(leaf, who, filtered);
      forall f ensures f !in SetOf(Created(leaf, who)) {
        assert f in SetOf(Created(leaf, who)) ==> Get(filtered, f).Some?;
      }
      assert SetOf(Created(leaf, who)) == map[];
      AnyEntryPrecise(mean, entries, who, i);
      CreateNeedsExact(mean, leaf, who);
    } else if Possible(leaf, who) {
      var shared := SharedRow(mean, leaf, who);
      AloneInAny(mean, entries, who, i, shared);
      assert false;
    }
  }

  lemma AnyEntryPrecise(mean: Meaning, entries: seq<Leaf>, who: Principal, i: nat)
    requires Apart(Any(entries)) && !Loose(entries, who) && i < |entries|
    requires HasWhere(Created(entries[i], who)) && SetOf(Created(entries[i], who)) == map[]
    requires Precise(mean, Any(entries), who)
    ensures Precise(mean, entries[i], who)
  {
    var leaf := entries[i];
    AnyCreated(entries, who);
    forall row ensures Accepts(mean, row, Created(leaf, who)) <==> Permits(who, leaf, row) {
      var part := Only(row, leaf);
      AloneInAny(mean, entries, who, i, part);
      assert Accepts(mean, part, Created(Any(entries), who)) <==> Permits(who, Any(entries), part);
      AcceptsMeans(mean, row, Created(leaf, who));
      Local(mean, leaf, who, part, row);
      Local(mean, leaf, who, row, part);
    }
  }

  /** Any row's part for one branch, with rows the other branches permit, decides that branch in an `all`. */
  lemma AllEntryPrecise(mean: Meaning, entries: seq<Leaf>, who: Principal, i: nat, rows: seq<Row>)
    requires Apart(All(entries)) && SetsAgree(entries, who) && i < |entries| && !Forces(entries[i])
    requires Created(All(entries), who) != Deny && Precise(mean, All(entries), who)
    requires |rows| == |entries| && forall j | 0 <= j < |rows| :: Shows(mean, entries[j], who, rows[j])
    ensures Precise(mean, entries[i], who)
  {
    forall row ensures Accepts(mean, row, Created(entries[i], who)) <==> Permits(who, entries[i], row) {
      var whole := Placed(mean, entries, who, i, rows, row);
      AllAccepts(mean, whole, entries, who);
      assert Accepts(mean, whole, Created(All(entries), who)) <==> Permits(who, All(entries), whole);
      SameAccepts(mean, entries[i], who, row, whole);
    }
  }

  /** Rows that agree where the rule looks are treated alike. */
  lemma SameAccepts(mean: Meaning, leaf: Leaf, who: Principal, a: Row, b: Row)
    requires Same(leaf, a, b)
    ensures Permits(who, leaf, a) <==> Permits(who, leaf, b)
    ensures Accepts(mean, a, Created(leaf, who)) <==> Accepts(mean, b, Created(leaf, who))
  {
    assert Same(leaf, b, a);
    Local(mean, leaf, who, a, b);
    Local(mean, leaf, who, b, a);
    AcceptsMeans(mean, a, Created(leaf, who));
    AcceptsMeans(mean, b, Created(leaf, who));
    SetNamed(leaf, who);
    assert forall f | f in SetOf(Created(leaf, who)) :: Names(leaf, f);
  }

  lemma Placed(mean: Meaning, entries: seq<Leaf>, who: Principal, i: nat, rows: seq<Row>, row: Row) returns (whole: Row)
    requires Apart(All(entries)) && SetsAgree(entries, who) && i < |entries| && !Forces(entries[i])
    requires |rows| == |entries| && forall j | 0 <= j < |rows| :: Shows(mean, entries[j], who, rows[j])
    ensures Same(entries[i], row, whole)
    ensures forall j | 0 <= j < |entries| && j != i :: Permits(who, entries[j], whole) && Accepts(mean, whole, Created(entries[j], who))
  {
    var part := Only(row, entries[i]);
    var placed := rows[i := part];
    SharedCompatible(mean, entries, who, rows);
    forall j, f | 0 <= j < |rows| && j != i && f in rows[j] ensures !Names(entries[i], f) {
      assert Disjoint(entries[i], entries[j]);
    }
    assert Compatible(placed);
    GatherAt(placed);
    whole := Gather(placed);
    forall f | Names(entries[i], f) ensures Get(row, f) == Get(whole, f) {
      assert Get(part, f) == Get(row, f);
      if f in part {
        assert Extends(placed[i], whole);
      }
    }
    forall j | 0 <= j < |entries| && j != i ensures Permits(who, entries[j], whole) && Accepts(mean, whole, Created(entries[j], who)) {
      assert Extends(placed[j], whole);
      Local(mean, entries[j], who, rows[j], whole);
      PermitsNeeds(entries[j], who, whole);
      AcceptsMeans(mean, whole, Created(entries[j], who));
    }
  }

  /** Where the compiled rule accepts exactly what the rule permits, the condition holds. */
  lemma {:induction false} CreateNeedsExact(mean: Meaning, leaf: Leaf, who: Principal)
    requires Apart(leaf) && Precise(mean, leaf, who)
    ensures CreateExact(leaf, who)
    decreases leaf, 1
  {
    match leaf
    case Any(entries) =>
      if Loose(entries, who) {
        AnyCreated(entries, who);
        assert Permits(who, leaf, map[]);
        EmptyRow(mean, leaf, who);
      } else {
        forall i | 0 <= i < |entries| && Created(entries[i], who) != Deny ensures EntryExact(entries[i], who) {
          AnyEntryExact(mean, entries, who, i);
        }
      }
    case All(entries) =>
      AllCreated(entries, who);
      AllForced(entries, who);
      if Created(leaf, who) != Deny {
        AllEntriesExact(mean, entries, who);
      }
    case _ =>
  }

  lemma AllEntriesExact(mean: Meaning, entries: seq<Leaf>, who: Principal)
    requires Apart(All(entries)) && Precise(mean, All(entries), who) && Created(All(entries), who) != Deny
    ensures Possible(All(entries), who) && forall i | 0 <= i < |entries| :: CreateExact(entries[i], who)
    decreases entries, 0
  {
    var row := AcceptedRow(mean, All(entries), who);
    assert Permits(who, All(entries), row);
    PermitsNeeds(All(entries), who, row);
    var rows := SharedRows(mean, entries, who);
    forall i | 0 <= i < |entries| ensures CreateExact(entries[i], who) {
      if !Forces(entries[i]) {
        AllEntryPrecise(mean, entries, who, i, rows);
        CreateNeedsExact(mean, entries[i], who);
      }
    }
  }

  /** A create is held to exactly the rows the rule permits if and only if the condition holds. */
  lemma CreateExactIff(mean: Meaning, leaf: Leaf, who: Principal)
    requires Apart(leaf)
    ensures Precise(mean, leaf, who) <==> CreateExact(leaf, who)
  {
    if CreateExact(leaf, who) {
      forall row ensures Accepts(mean, row, Created(leaf, who)) <==> Permits(who, leaf, row) {
        CreateDenotes(mean, row, leaf, who);
      }
    } else if Precise(mean, leaf, who) {
      CreateNeedsExact(mean, leaf, who);
    }
  }

  /** A rules tree on a create, where the condition holds of the rule it answers with. */
  lemma GateCreates(mean: Meaning, row: Row, rules: Rules, model: string, who: Option<Principal>)
    requires rules.ByModel? && model in rules.nodes && who.Some? ==>
      forall leaf | Governs(rules.nodes[model], Create, leaf) :: CreateExact(leaf, who.value)
    ensures Accepts(mean, row, ScopeGate(rules, model, Create, who)) <==> MayReach(rules, model, Create, who, row)
  {
    if rules.ByModel? && model in rules.nodes {
      var node := rules.nodes[model];
      assert forall leaf :: Governs(node, Create, leaf) <==> LeafForOperation(node, Create) == Some(leaf);
      if LeafForOperation(node, Create).Some? && who.Some? {
        CreateDenotes(mean, row, LeafForOperation(node, Create).value, who.value);
      }
    }
  }

  // ---- the two inputs ----

  /** `any` drops the value its branch would force: the rule imposes nothing, and other rows get through. */
  lemma CreateAnyDropsForced(mean: Meaning, ref: Ref, who: Principal, row: Row)
    requires ScalarOf(who, ref.from).Some? && Get(row, ref.field) != ScalarOf(who, ref.from)
    ensures Created(Any([Own(ref)]), who) == Nothing
    ensures Accepts(mean, row, Created(Any([Own(ref)]), who)) && !Permits(who, Any([Own(ref)]), row)
  {
    var entries := [Own(ref)];
    AnyCreated(entries, who);
    assert Created(entries[0], who) != Deny && !HasWhere(Created(entries[0], who));
  }

  /** `all` forces the last of two values on one field, and no row is permitted. */
  lemma CreateAllKeepsLast(mean: Meaning, field: string, x: string, y: string, who: Principal, row: Row)
    requires ScalarOf(who, x).Some? && ScalarOf(who, y).Some? && ScalarOf(who, x) != ScalarOf(who, y)
    ensures var leaf := All([Own(Ref(field, x)), Own(Ref(field, y))]);
            && Created(leaf, who) == Narrow(None, map[field := ScalarOf(who, y).value])
            && !Permits(who, leaf, row)
            && (Get(row, field) == ScalarOf(who, y) ==> Accepts(mean, row, Created(leaf, who)))
  {
    var entries := [Own(Ref(field, x)), Own(Ref(field, y))];
    var a, b := map[field := ScalarOf(who, x).value], map[field := ScalarOf(who, y).value];
    assert Created(entries[0], who) == Narrow(None, a) && Created(entries[1], who) == Narrow(None, b);
    CompileEachAt(entries, who, Create);
    assert CompileEach(entries, who, Create) == [Narrow(None, a), Narrow(None, b)];
    assert field in b;
    LastWins(a, b);
  }

  lemma LastWins(a: Row, b: Row)
    requires a.Keys == b.Keys && b != map[]
    ensures Conjunction([Narrow(None, a), Narrow(None, b)]) == Narrow(None, b)
  {
    var branches := [Narrow(None, a), Narrow(None, b)];
    var first := branches[..1];
    assert first == [branches[0]] && first[..0] == [];
    assert Forced(first) == a;
    assert Forced(branches) == a + b == b;
    WheresHold((_, _, _) => true, map[], branches);
  }
}
