/**
 Row-level scopes: what a predicate may answer, conjoining several sources, and
 lowering a scope to the named parameters of a raw query.
 */
module Scopes {
  import opened Wrappers
  import opened Filters
  import opened Normalise

  /** What a scope predicate may return. */
  datatype ScopeResult = NoOpinion | Refuse | Filter(w: Where) | Envelope(where: Option<Where>, set_: Row) | Malformed

  datatype ResolvedScope = Unscoped | Denied | Scoped(where: Option<Where>, set_: Row)

  datatype ScopeError = ScopeConfigurationError

  function AsResolvedScope(r: ScopeResult): Result<ResolvedScope, ScopeError> {
    match r
    case NoOpinion => Success(Unscoped)
    case Refuse => Success(Denied)
    case Malformed => Failure(ScopeConfigurationError)
    case Filter(w) => Success(Scoped(Some(Normalised(w)), map[]))
    case Envelope(w, forced) => Success(Scoped(if IsEmpty(w) then None else Some(Normalised(w.value)), forced))
  }

  /** A malformed answer fails, and nothing else does; no answer, a refusal and a filter stay what they are. */
  lemma ResolvesTo(r: ScopeResult)
    ensures AsResolvedScope(r).Failure? <==> r.Malformed?
    ensures AsResolvedScope(r) == Success(Unscoped) <==> r.NoOpinion?
    ensures AsResolvedScope(r) == Success(Denied) <==> r.Refuse?
    ensures r.Envelope? ==> AsResolvedScope(r).value.Scoped? && AsResolvedScope(r).value.set_ == r.set_
    ensures r.Filter? ==> AsResolvedScope(r).value.Scoped? && AsResolvedScope(r).value.set_ == map[]
  {}

  // ---- what a scope admits ----

  /** The row carries every forced value. */
  predicate Agrees(row: Row, forced: Row) {
    forall f | f in forced :: Get(row, f) == Some(forced[f])
  }

  predicate InScope(mean: Meaning, row: Row, s: ResolvedScope) {
    match s
    case Unscoped => true
    case Denied => false
    case Scoped(w, forced) => Admits(mean, row, w) && Agrees(row, forced)
  }

  /** The rows a source admits, taken as written; a malformed source is an error, not a restriction. */
  predicate Within(mean: Meaning, row: Row, r: ScopeResult) {
    match r
    case NoOpinion => true
    case Refuse => false
    case Malformed => true
    case Filter(w) => MatchWhere(mean, row, w)
    case Envelope(w, forced) => Admits(mean, row, w) && Agrees(row, forced)
  }

  ghost predicate SourceClashFree(r: ScopeResult) {
    match r
    case Filter(w) => ClashFree(w)
    case Envelope(w, _) => w.Some? ==> ClashFree(w.value)
    case _ => true
  }

  /** Resolving keeps what a clash-free source admits. */
  lemma ResolvePreserves(mean: Meaning, row: Row, r: ScopeResult)
    requires SourceClashFree(r) && AsResolvedScope(r).Success?
    ensures InScope(mean, row, AsResolvedScope(r).value) <==> Within(mean, row, r)
  {
    match r
    case Filter(w) => NormalisePreserves(mean, row, w);
    case Envelope(w, _) =>
      if w.Some? {
        NormalisePreserves(mean, row, w.value);
      }
    case _ =>
  }

  // ---- conjoining sources ----

  /** Every filter holds. */
  ghost predicate MatchEach(mean: Meaning, row: Row, ws: seq<Where>) {
    forall i | 0 <= i < |ws| :: MatchWhere(mean, row, ws[i])
  }

  /** Sources taken so far, as one conjunction. */
  ghost predicate WithinAll(mean: Meaning, row: Row, sources: seq<ScopeResult>) {
    forall i | 0 <= i < |sources| :: Within(mean, row, sources[i])
  }

  ghost predicate Gathered(wheres: seq<Where>, forced: Row, sources: seq<ScopeResult>) {
    forall mean: Meaning, row: Row {:trigger WithinAll(mean, row, sources)} ::
      MatchEach(mean, row, wheres) && Agrees(row, forced) <==> WithinAll(mean, row, sources)
  }

  /** `r` admits exactly the rows every source admits. */
  ghost predicate Conjoins(r: ScopeResult, sources: seq<ScopeResult>) {
    forall mean: Meaning, row: Row {:trigger WithinAll(mean, row, sources)} ::
      Within(mean, row, r) <==> WithinAll(mean, row, sources)
  }

  lemma WithinAllSnoc(mean: Meaning, row: Row, sources: seq<ScopeResult>, s: ScopeResult)
    ensures WithinAll(mean, row, sources + [s]) <==> WithinAll(mean, row, sources) && Within(mean, row, s)
  {
    var more := sources + [s];
    if WithinAll(mean, row, more) {
      assert forall i | 0 <= i < |sources| :: more[i] == sources[i];
      assert more[|sources|] == s;
    }
  }

  lemma MatchEachSnoc(mean: Meaning, row: Row, ws: seq<Where>, w: Where)
    ensures MatchEach(mean, row, ws + [w]) <==> MatchEach(mean, row, ws) && MatchWhere(mean, row, w)
  {
    var more := ws + [w];
    if MatchEach(mean, row, more) {
      assert forall i | 0 <= i < |ws| :: more[i] == ws[i];
      assert more[|ws|] == w;
    }
  }

  lemma AgreesUnion(row: Row, a: Row, b: Row)
    requires forall f | f in a && f in b :: a[f] == b[f]
    ensures Agrees(row, a + b) <==> Agrees(row, a) && Agrees(row, b)
  {
    if Agrees(row, a + b) {
      assert forall f | f in a :: f in a + b && (a + b)[f] == a[f];
      assert forall f | f in b :: f in a + b;
    }
  }

  /** One more source: its filter and forced values join those gathered. */
  lemma GatherStep(wheres: seq<Where>, forced: Row, sources: seq<ScopeResult>, s: ScopeResult, more: seq<Where>, both: Row)
    requires Gathered(wheres, forced, sources) && SourceClashFree(s)
    requires AsResolvedScope(s).Success? && AsResolvedScope(s).value.Scoped?
    requires var r := AsResolvedScope(s).value;
             && more == (if r.where.Some? then wheres + [r.where.value] else wheres)
             && both == forced + r.set_
             && forall f | f in forced && f in r.set_ :: forced[f] == r.set_[f]
    ensures Gathered(more, both, sources + [s])
  {
    var r := AsResolvedScope(s).value;
    forall mean: Meaning, row: Row
      ensures MatchEach(mean, row, more) && Agrees(row, both) <==> WithinAll(mean, row, sources + [s])
    {
      WithinAllSnoc(mean, row, sources, s);
      ResolvePreserves(mean, row, s);
      AgreesUnion(row, forced, r.set_);
      if r.where.Some? {
        MatchEachSnoc(mean, row, wheres, r.where.value);
      }
    }
  }

  lemma DenyStep(sources: seq<ScopeResult>, s: ScopeResult)
    requires s.Refuse?
    ensures Conjoins(Refuse, sources + [s])
  {
    forall mean: Meaning, row: Row ensures !WithinAll(mean, row, sources + [s]) {
      WithinAllSnoc(mean, row, sources, s);
    }
  }

  lemma SilentStep(wheres: seq<Where>, forced: Row, sources: seq<ScopeResult>, s: ScopeResult)
    requires Gathered(wheres, forced, sources) && s.NoOpinion?
    ensures Gathered(wheres, forced, sources + [s])
  {
    forall mean: Meaning, row: Row
      ensures MatchEach(mean, row, wheres) && Agrees(row, forced) <==> WithinAll(mean, row, sources + [s])
    {
      WithinAllSnoc(mean, row, sources, s);
    }
  }

  /** Two sources forcing different values admit no row together. */
  lemma ConflictAdmitsNothing(wheres: seq<Where>, forced: Row, sources: seq<ScopeResult>, s: ScopeResult, field: string)
    requires Gathered(wheres, forced, sources) && SourceClashFree(s)
    requires AsResolvedScope(s).Success? && AsResolvedScope(s).value.Scoped?
    requires field in forced && field in AsResolvedScope(s).value.set_ && forced[field] != AsResolvedScope(s).value.set_[field]
    ensures Conjoins(Refuse, sources + [s])
  {
    forall mean: Meaning, row: Row ensures !WithinAll(mean, row, sources + [s]) {
      WithinAllSnoc(mean, row, sources, s);
      ResolvePreserves(mean, row, s);
    }
  }

  lemma PrefixDenies(sources: seq<ScopeResult>, n: nat)
    requires n <= |sources| && Conjoins(Refuse, sources[..n])
    ensures Conjoins(Refuse, sources)
  {
    forall mean: Meaning, row: Row ensures !WithinAll(mean, row, sources) {
      assert !WithinAll(mean, row, sources[..n]);
      var i :| 0 <= i < n && !Within(mean, row, sources[..n][i]);
      assert !Within(mean, row, sources[i]);
    }
  }

  function Combined(wheres: seq<Where>, forced: Row): ScopeResult {
    Envelope(if wheres == [] then None
             else if |wheres| == 1 then Some(wheres[0])
             else Some(Where([And(Lower, wheres)])), forced)
  }

  lemma CombinedConjoins(wheres: seq<Where>, forced: Row, sources: seq<ScopeResult>)
    requires Gathered(wheres, forced, sources)
    ensures Conjoins(Combined(wheres, forced), sources)
  {
    forall mean: Meaning, row: Row
      ensures Within(mean, row, Combined(wheres, forced)) <==> WithinAll(mean, row, sources)
    {
      assert WithinAll(mean, row, sources) <==> MatchEach(mean, row, wheres) && Agrees(row, forced);
      var c := And(Lower, wheres);
      assert MatchWhere(mean, row, Where([c])) <==> MatchClause(mean, row, c) by {
        assert Where([c]).clauses[0] == c;
      }
    }
  }

  /** Merge one source's forced values in, or find the field it contradicts. */
  method MergeForced(into: Row, from: Row) returns (out: Row, conflict: Option<string>)
    ensures conflict.None? ==> out == into + from && forall f | f in into && f in from :: into[f] == from[f]
    ensures conflict.Some? ==> conflict.value in into && conflict.value in from && into[conflict.value] != from[conflict.value]
  {
    out := into;
    var rest := from.Keys;
    while rest != {}
      invariant rest <= from.Keys
      invariant forall f | f in from.Keys - rest && f in into :: into[f] == from[f]
      invariant out == into + (map f | f in from && f !in rest :: from[f])
      decreases rest
    {
      var field :| field in rest;
      if field in out && out[field] != from[field] {
        return out, Some(field);
      }
      out := out[field := from[field]];
      rest := rest - {field};
    }
    assert (map f | f in from && f !in rest :: from[f]) == from;
    conflict := None;
  }

  function ForcedOf(r: ScopeResult): Row {
    if r.Envelope? then r.set_ else map[]
  }

  /** They force one field to different values. */
  predicate Disagree(s: ScopeResult, t: ScopeResult) {
    exists f | f in ForcedOf(s) && f in ForcedOf(t) :: ForcedOf(s)[f] != ForcedOf(t)[f]
  }

  /** Some source refuses, or two disagree. */
  ghost predicate Denies(sources: seq<ScopeResult>) {
    (exists s | s in sources :: s.Refuse?) || (exists s, t | s in sources && t in sources :: Disagree(s, t))
  }

  predicate Faulty(sources: seq<ScopeResult>) {
    exists s | s in sources :: s.Malformed?
  }

  /** Nothing decided yet: no refusal or fault, and these are the values the sources force, in agreement. */
  ghost predicate Undecided(sources: seq<ScopeResult>, forced: Row) {
    && !Faulty(sources)
    && (forall s | s in sources :: !s.Refuse?)
    && (forall s, f | s in sources && f in ForcedOf(s) :: f in forced && forced[f] == ForcedOf(s)[f])
    && (forall f | f in forced :: exists s :: s in sources && f in ForcedOf(s) && ForcedOf(s)[f] == forced[f])
  }

  lemma UndecidedMeans(sources: seq<ScopeResult>, forced: Row)
    requires Undecided(sources, forced)
    ensures !Denies(sources)
  {
    forall s, t | s in sources && t in sources ensures !Disagree(s, t) {
      forall f | f in ForcedOf(s) && f in ForcedOf(t) ensures ForcedOf(s)[f] == ForcedOf(t)[f] {
        assert forced[f] == ForcedOf(s)[f] == ForcedOf(t)[f];
      }
    }
  }

  lemma OneMoreSource(sources: seq<ScopeResult>, s: ScopeResult)
    ensures Faulty(sources + [s]) <==> Faulty(sources) || s.Malformed?
    ensures s.Refuse? ==> Denies(sources + [s])
    ensures (exists t :: t in sources && Disagree(t, s)) ==> Denies(sources + [s])
  {
    assert forall t :: t in sources + [s] <==> t in sources || t == s;
  }

  lemma ConflictDenies(sources: seq<ScopeResult>, s: ScopeResult, forced: Row, field: string)
    requires Undecided(sources, forced) && field in forced && field in ForcedOf(s) && forced[field] != ForcedOf(s)[field]
    ensures Denies(sources + [s])
  {
    var t :| t in sources && field in ForcedOf(t) && ForcedOf(t)[field] == forced[field];
    assert Disagree(t, s);
    OneMoreSource(sources, s);
  }

  lemma StillUndecided(sources: seq<ScopeResult>, s: ScopeResult, forced: Row)
    requires Undecided(sources, forced) && !s.Malformed? && !s.Refuse?
    requires forall f | f in forced && f in ForcedOf(s) :: forced[f] == ForcedOf(s)[f]
    ensures Undecided(sources + [s], forced + ForcedOf(s))
  {
    assert forall t :: t in sources + [s] <==> t in sources || t == s;
    var more := forced + ForcedOf(s);
    forall f | f in more ensures exists t :: t in sources + [s] && f in ForcedOf(t) && ForcedOf(t)[f] == more[f] {
      if f in ForcedOf(s) {
        assert s in sources + [s];
      } else {
        var t :| t in sources && f in ForcedOf(t) && ForcedOf(t)[f] == forced[f];
        assert t in sources + [s];
      }
    }
  }

  lemma DeniesOn(sources: seq<ScopeResult>, n: nat, k: nat)
    requires n <= k <= |sources| && Denies(sources[..n])
    ensures Denies(sources[..k])
  {
    assert sources[..k][..n] == sources[..n];
    assert forall s | s in sources[..n] :: s in sources[..k];
  }

  /** Once the first `n` sources, none of them malformed, deny, a later malformed one is never asked. */
  lemma DeniedFirst(sources: seq<ScopeResult>, n: nat)
    requires n <= |sources| && Denies(sources[..n]) && !Faulty(sources[..n])
    ensures forall i | 0 <= i < |sources| && sources[i].Malformed? :: Denies(sources[..i])
  {
    forall i | 0 <= i < |sources| && sources[i].Malformed? ensures Denies(sources[..i]) {
      NotAmong(sources, n, i);
      DeniesOn(sources, n, i);
    }
  }

  lemma DenyAnswers(sources: seq<ScopeResult>, i: nat)
    requires i < |sources| && Conjoins(Refuse, sources[..i + 1]) && Denies(sources[..i + 1]) && !Faulty(sources[..i + 1])
    ensures Conjoins(Refuse, sources) && forall j | 0 <= j < |sources| && sources[j].Malformed? :: Denies(sources[..j])
  {
    PrefixDenies(sources, i + 1);
    DeniedFirst(sources, i + 1);
  }

  lemma NotAmong(sources: seq<ScopeResult>, n: nat, i: nat)
    requires i < |sources| && n <= |sources| && sources[i].Malformed? && !Faulty(sources[..n])
    ensures n <= i
  {
    assert forall j | 0 <= j < n :: sources[j] in sources[..n];
  }

  /**
   Conjoin the answers of several sources, in order.  What comes back admits
   exactly the rows that every source admits.  It fails if and only if a malformed
   source comes before the sources deny, that is, before one refuses or two force a
   field to different values; and it is silent if and only if they all are.
   */
  method AndScopes(sources: seq<ScopeResult>) returns (r: Result<ScopeResult, ScopeError>)
    requires forall i | 0 <= i < |sources| :: SourceClashFree(sources[i])
    ensures r.Success? ==> Conjoins(r.value, sources)
    ensures r.Failure? <==> exists i :: 0 <= i < |sources| && sources[i].Malformed? && !Denies(sources[..i])
    ensures r == Success(NoOpinion) <==> forall s | s in sources :: s.NoOpinion?
  {
    var wheres: seq<Where> := [];
    var forced: Row := map[];
    var opinionated := false;
    for i := 0 to |sources|
      invariant SoFar(sources[..i], wheres, forced, opinionated)
    {
      var answer;
      answer, wheres, forced, opinionated := TakeSource(sources, i, wheres, forced, opinionated);
      if answer.Some? {
        return answer.value;
      }
    }
    assert sources[..|sources|] == sources;
    CombinedConjoins(wheres, forced, sources);
    r := Success(if opinionated then Combined(wheres, forced) else NoOpinion);
  }

  /** What the loop holds after these sources. */
  ghost predicate SoFar(sources: seq<ScopeResult>, wheres: seq<Where>, forced: Row, opinionated: bool) {
    && Gathered(wheres, forced, sources)
    && Undecided(sources, forced)
    && (!opinionated ==> wheres == [] && forced == map[])
    && (opinionated <==> exists s :: s in sources && !s.NoOpinion?)
  }

  /** One turn of the loop: a final answer, or one more source taken. */
  method TakeSource(sources: seq<ScopeResult>, i: nat, wheres: seq<Where>, forced: Row, opinionated: bool)
    returns (answer: Option<Result<ScopeResult, ScopeError>>, more: seq<Where>, values: Row, spoken: bool)
    requires i < |sources| && SourceClashFree(sources[i]) && SoFar(sources[..i], wheres, forced, opinionated)
    ensures answer.None? ==> SoFar(sources[..i + 1], more, values, spoken)
    ensures answer.Some? && answer.value.Failure? ==> sources[i].Malformed? && !Denies(sources[..i])
    ensures answer.Some? && answer.value.Success? ==>
              && answer.value.value == Refuse && Conjoins(Refuse, sources) && !sources[i].NoOpinion?
              && forall j | 0 <= j < |sources| && sources[j].Malformed? :: Denies(sources[..j])
  {
    answer, more, values, spoken := None, wheres, forced, opinionated;
    assert sources[..i + 1] == sources[..i] + [sources[i]];
    var resolved := AsResolvedScope(sources[i]);
    if resolved.Failure? {
      UndecidedMeans(sources[..i], forced);
      answer := Some(Failure(resolved.error));
      return;
    }
    match resolved.value {
      case Denied =>
        DenyStep(sources[..i], sources[i]);
        OneMoreSource(sources[..i], sources[i]);
        DenyAnswers(sources, i);
        answer := Some(Success(Refuse));
      case Unscoped =>
        SilentStep(wheres, forced, sources[..i], sources[i]);
        StillUndecided(sources[..i], sources[i], forced);
        assert forced + ForcedOf(sources[i]) == forced;
      case Scoped(w, from) =>
        spoken := true;
        var out, conflict := MergeForced(forced, from);
        if conflict.Some? {
          ConflictAdmitsNothing(wheres, forced, sources[..i], sources[i], conflict.value);
          ConflictDenies(sources[..i], sources[i], forced, conflict.value);
          OneMoreSource(sources[..i], sources[i]);
          DenyAnswers(sources, i);
          answer := Some(Success(Refuse));
          return;
        }
        more := if w.Some? then wheres + [w.value] else wheres;
        GatherStep(wheres, forced, sources[..i], sources[i], more, out);
        StillUndecided(sources[..i], sources[i], forced);
        values := out;
    }
  }

  /** Adding sources only narrows, and neither their order nor repeats matter. */
  lemma ConjunctionNarrows(mean: Meaning, row: Row, a: ScopeResult, fewer: seq<ScopeResult>, b: ScopeResult, more: seq<ScopeResult>)
    requires Conjoins(a, fewer) && Conjoins(b, more)
    requires forall s | s in fewer :: s in more
    ensures Within(mean, row, b) ==> Within(mean, row, a)
    ensures (forall s | s in more :: s in fewer) ==> (Within(mean, row, b) <==> Within(mean, row, a))
  {
    EachWithin(mean, row, fewer);
    EachWithin(mean, row, more);
  }

  lemma EachWithin(mean: Meaning, row: Row, sources: seq<ScopeResult>)
    ensures WithinAll(mean, row, sources) <==> forall s | s in sources :: Within(mean, row, s)
  {
    if forall s | s in sources :: Within(mean, row, s) {
      assert forall i | 0 <= i < |sources| :: sources[i] in sources;
    }
  }

  // ---- the equalities a parameter can carry ----

  datatype Pin = Pin(field: string, v: Value)

  /** Only `and`-nested plain equalities: all a parameter can express. */
  predicate Bindable(w: Where) {
    forall i | 0 <= i < |w.clauses| :: ClauseBindable(w.clauses[i])
  }

  predicate EachBindable(subs: seq<Where>) {
    forall i | 0 <= i < |subs| :: Bindable(subs[i])
  }

  predicate ClauseBindable(c: Clause) {
    match c
    case And(_, subs) => EachBindable(subs)
    case Or(_, _) => false
    case Not(_, _) => false
    case Field(_, cond) => Equality(cond).Some?
  }

  /** The value of a bare equality or of an operator bag that is just `eq`. */
  function Equality(cond: Cond): Option<Value> {
    match cond
    case Scalar(v) => Some(v)
    case Ops(eq, oneOf, others) => if oneOf.None? && others == [] then eq else None
  }

  function Pins(w: Where): seq<Pin>
    decreases w, 1
  {
    PinsOf(w.clauses)
  }

  function PinsOf(cs: seq<Clause>): seq<Pin>
    decreases cs, 0
  {
    if cs == [] then [] else PinsOf(cs[..|cs| - 1]) + ClausePins(cs[|cs| - 1])
  }

  function ClausePins(c: Clause): seq<Pin>
    decreases c, 1
  {
    match c
    case And(_, subs) => BranchPins(subs)
    case Or(_, _) => []
    case Not(_, _) => []
    case Field(name, cond) => if Equality(cond).Some? then [Pin(name, Equality(cond).value)] else []
  }

  function BranchPins(subs: seq<Where>): seq<Pin>
    decreases subs, 0
  {
    if subs == [] then [] else BranchPins(subs[..|subs| - 1]) + Pins(subs[|subs| - 1])
  }

  /** The row meets every equality. */
  predicate Pinned(row: Row, pins: seq<Pin>) {
    forall p | p in pins :: Get(row, p.field) == Some(p.v)
  }

  lemma PinnedAppend(row: Row, a: seq<Pin>, b: seq<Pin>)
    ensures Pinned(row, a + b) <==> Pinned(row, a) && Pinned(row, b)
  {
    assert forall p :: p in a + b <==> p in a || p in b;
  }

  /** A matching row meets every collected equality; a bindable filter asks for nothing more. */
  lemma {:induction false} PinsMeaning(mean: Meaning, row: Row, w: Where)
    ensures MatchWhere(mean, row, w) ==> Pinned(row, Pins(w))
    ensures Bindable(w) ==> (MatchWhere(mean, row, w) <==> Pinned(row, Pins(w)))
    decreases w, 1
  {
    PinsOfMeaning(mean, row, w.clauses);
    assert (forall i | 0 <= i < |w.clauses| :: MatchClause(mean, row, w.clauses[i])) <==> forall c | c in w.clauses :: MatchClause(mean, row, c);
    assert (forall i | 0 <= i < |w.clauses| :: ClauseBindable(w.clauses[i])) <==> forall c | c in w.clauses :: ClauseBindable(c);
  }

  lemma {:induction false} PinsOfMeaning(mean: Meaning, row: Row, cs: seq<Clause>)
    ensures (forall c | c in cs :: MatchClause(mean, row, c)) ==> Pinned(row, PinsOf(cs))
    ensures (forall c | c in cs :: ClauseBindable(c)) ==>
              ((forall c | c in cs :: MatchClause(mean, row, c)) <==> Pinned(row, PinsOf(cs)))
    decreases cs, 0
  {
    if cs != [] {
      var front, last := cs[..|cs| - 1], cs[|cs| - 1];
      assert forall c :: c in cs <==> c in front || c == last;
      PinsOfMeaning(mean, row, front);
      ClausePinsMeaning(mean, row, last);
      PinnedAppend(row, PinsOf(front), ClausePins(last));
    }
  }

  lemma EachBindableMembers(subs: seq<Where>)
    ensures EachBindable(subs) <==> forall s | s in subs :: Bindable(s)
  {
    if forall s | s in subs :: Bindable(s) {
      assert forall i | 0 <= i < |subs| :: subs[i] in subs && Bindable(subs[i]);
    }
  }

  lemma {:induction false} ClausePinsMeaning(mean: Meaning, row: Row, c: Clause)
    ensures MatchClause(mean, row, c) ==> Pinned(row, ClausePins(c))
    ensures ClauseBindable(c) ==> (MatchClause(mean, row, c) <==> Pinned(row, ClausePins(c)))
    decreases c, 1
  {
    match c
    case And(_, subs) =>
      BranchPinsMeaning(mean, row, subs);
      assert (forall i | 0 <= i < |subs| :: MatchWhere(mean, row, subs[i])) <==> forall s | s in subs :: MatchWhere(mean, row, s);
      EachBindableMembers(subs);
    case Or(_, _) =>
    case Not(_, _) =>
    case Field(name, cond) =>
      if Equality(cond).Some? {
        assert ClausePins(c)[0] == Pin(name, Equality(cond).value);
      }
  }

  lemma {:induction false} BranchPinsMeaning(mean: Meaning, row: Row, subs: seq<Where>)
    ensures (forall s | s in subs :: MatchWhere(mean, row, s)) ==> Pinned(row, BranchPins(subs))
    ensures (forall s | s in subs :: Bindable(s)) ==>
              ((forall s | s in subs :: MatchWhere(mean, row, s)) <==> Pinned(row, BranchPins(subs)))
    decreases subs, 0
  {
    if subs != [] {
      var front, last := subs[..|subs| - 1], subs[|subs| - 1];
      assert forall s :: s in subs <==> s in front || s == last;
      BranchPinsMeaning(mean, row, front);
      PinsMeaning(mean, row, last);
      PinnedAppend(row, BranchPins(front), Pins(last));
    }
  }

  // ---- collecting them ----

  function Values(into: map<string, seq<Value>>, field: string): seq<Value> {
    if field in into then into[field] else []
  }

  /** The pins pushed onto the values of their fields, in order. */
  function Grouped(into: map<string, seq<Value>>, pins: seq<Pin>): map<string, seq<Value>> {
    if pins == [] then into
    else
      var m, p := Grouped(into, pins[..|pins| - 1]), pins[|pins| - 1];
      m[p.field := Values(m, p.field) + [p.v]]
  }

  lemma {:induction false} GroupedAppend(into: map<string, seq<Value>>, a: seq<Pin>, b: seq<Pin>)
    ensures Grouped(into, a + b) == Grouped(Grouped(into, a), b)
  {
    if b == [] {
      assert a + b == a;
    } else {
      GroupedAppend(into, a, b[..|b| - 1]);
      assert (a + b)[..|a + b| - 1] == a + b[..|b| - 1];
    }
  }

  lemma {:induction false} GroupedHolds(pins: seq<Pin>, field: string, v: Value)
    ensures v in Values(Grouped(map[], pins), field) <==> Pin(field, v) in pins
    ensures field in Grouped(map[], pins) <==> Values(Grouped(map[], pins), field) != []
  {
    if pins != [] {
      GroupedHolds(pins[..|pins| - 1], field, v);
      assert pins == pins[..|pins| - 1] + [pins[|pins| - 1]];
    }
  }

  lemma ClausesSoFar(cs: seq<Clause>, i: nat)
    requires i < |cs|
    ensures PinsOf(cs[..i + 1]) == PinsOf(cs[..i]) + ClausePins(cs[i])
    ensures Bindable(Where(cs[..i + 1])) <==> Bindable(Where(cs[..i])) && ClauseBindable(cs[i])
  {
    var shorter, longer := cs[..i], cs[..i + 1];
    assert longer[..i] == shorter && longer[i] == cs[i];
    assert forall j | 0 <= j < i :: longer[j] == shorter[j];
  }

  method CollectScopeEqualities(w: Where, into: map<string, seq<Value>>, unbindable: nat)
    returns (out: map<string, seq<Value>>, left: nat)
    ensures out == Grouped(into, Pins(w))
    ensures left >= unbindable && (left == unbindable <==> Bindable(w))
    decreases w, 1
  {
    out, left := into, unbindable;
    for i := 0 to |w.clauses|
      invariant out == Grouped(into, PinsOf(w.clauses[..i]))
      invariant left >= unbindable
      invariant left == unbindable <==> Bindable(Where(w.clauses[..i]))
    {
      ClausesSoFar(w.clauses, i);
      GroupedAppend(into, PinsOf(w.clauses[..i]), ClausePins(w.clauses[i]));
      out, left := CollectClause(w.clauses[i], out, left);
    }
    assert w.clauses[..|w.clauses|] == w.clauses;
  }

  method CollectClause(c: Clause, into: map<string, seq<Value>>, unbindable: nat)
    returns (out: map<string, seq<Value>>, left: nat)
    ensures out == Grouped(into, ClausePins(c))
    ensures left >= unbindable && (left == unbindable <==> ClauseBindable(c))
    decreases c, 1
  {
    out, left := into, unbindable;
    match c {
      case And(_, subs) =>
        out, left := CollectBranches(subs, into, unbindable);
      case Or(_, _) =>
        left := left + 1;
      case Not(_, _) =>
        left := left + 1;
      case Field(name, cond) =>
        if Equality(cond).None? {
          left := left + 1;
        } else {
          assert ClausePins(c)[..0] == [];
          out := out[name := Values(out, name) + [Equality(cond).value]];
        }
    }
  }

  lemma BranchesSoFar(subs: seq<Where>, i: nat)
    requires i < |subs|
    ensures BranchPins(subs[..i + 1]) == BranchPins(subs[..i]) + Pins(subs[i])
    ensures EachBindable(subs[..i + 1]) <==> EachBindable(subs[..i]) && Bindable(subs[i])
  {
    var shorter, longer := subs[..i], subs[..i + 1];
    assert longer[..i] == shorter && longer[i] == subs[i];
    assert forall j | 0 <= j < i :: longer[j] == shorter[j];
  }

  method CollectBranches(subs: seq<Where>, into: map<string, seq<Value>>, unbindable: nat)
    returns (out: map<string, seq<Value>>, left: nat)
    ensures out == Grouped(into, BranchPins(subs))
    ensures left >= unbindable && (left == unbindable <==> EachBindable(subs))
    decreases subs, 0
  {
    out, left := into, unbindable;
    for i := 0 to |subs|
      invariant out == Grouped(into, BranchPins(subs[..i]))
      invariant left >= unbindable
      invariant left == unbindable <==> EachBindable(subs[..i])
    {
      BranchesSoFar(subs, i);
      GroupedAppend(into, BranchPins(subs[..i]), Pins(subs[i]));
      out, left := CollectScopeEqualities(subs[i], out, left);
    }
    assert subs[..|subs|] == subs;
  }

  // ---- binding a query's parameters ----

  /** `scopeOwnerId` names the field `ownerId`. */
  function FieldOf(parameter: string): string {
    var rest := if |parameter| < 5 then "" else parameter[5..];
    if rest == "" then "" else [LowerChar(rest[0])] + rest[1..]
  }

  function LowerChar(c: char): char {
    if 'A' <= c <= 'Z' then (c as int + 32) as char else c
  }

  const CAPITALS: string := "ABCDEFGHIJKLMNOPQRSTUVWXYZ"
  const SMALLS: string := "abcdefghijklmnopqrstuvwxyz"

  /** `scope`, a capital letter and a rest name the field of the small letter and the rest. */
  lemma CapitalNames(i: nat, rest: string, field: string)
    requires i < 26
    ensures Names(["scope" + [CAPITALS[i]] + rest], field) <==> field == [SMALLS[i]] + rest
  {
    Letters(i);
    FirstLowered(CAPITALS[i], rest);
    NamesOne("scope" + [CAPITALS[i]] + rest, field);
  }

  /** Any other first character stays, and `scope` alone names the empty field. */
  lemma OtherNames(c: char, rest: string, field: string)
    requires c !in CAPITALS
    ensures Names(["scope" + [c] + rest], field) <==> field == [c] + rest
    ensures Names(["scope"], field) <==> field == ""
  {
    LetterOrStays(c);
    FirstLowered(c, rest);
    NamesOne("scope" + [c] + rest, field);
    NamesOne("scope", field);
  }

  lemma NamesOne(p: string, field: string)
    ensures Names([p], field) <==> FieldOf(p) == field
  {
    assert p in [p];
  }

  lemma FirstLowered(c: char, rest: string)
    ensures FieldOf("scope" + [c] + rest) == [LowerChar(c)] + rest
  {
    var p := "scope" + [c] + rest;
    assert p[5..] == [c] + rest;
    assert ([c] + rest)[1..] == rest;
  }

  lemma Letters(i: nat)
    requires i < 26
    ensures LowerChar(CAPITALS[i]) == SMALLS[i]
  {
    assert CAPITALS[i] as int == 65 + i && SMALLS[i] as int == 97 + i;
  }

  lemma LetterOrStays(c: char)
    ensures c in CAPITALS || LowerChar(c) == c
  {
    if 'A' <= c <= 'Z' {
      assert CAPITALS[c as int - 65] == c;
    }
  }

  datatype Binding = Bound(values: map<string, Value>) | Deny | Misconfigured

  /** The filter a resolved scope imposes. */
  function WhereOf(s: ResolvedScope): Where {
    if s.Scoped? && s.where.Some? then s.where.value else Where([])
  }

  predicate Names(params: seq<string>, field: string) {
    exists p | p in params :: FieldOf(p) == field
  }

  /** Two branches pin one field that a parameter names to two values. */
  ghost predicate Conflicted(pins: seq<Pin>, params: seq<string>) {
    exists p, q :: p in pins && q in pins && p.field == q.field && p.v != q.v && Names(params, p.field)
  }

  /** What one parameter is bound to: its field's first value, unless an earlier parameter took it. */
  function BoundTo(pins: seq<Pin>, params: seq<string>, i: nat): Value
    requires i < |params|
  {
    var vs := Values(Grouped(map[], pins), FieldOf(params[i]));
    if vs == [] || Names(params[..i], FieldOf(params[i])) then Null else vs[0]
  }

  lemma NamesSnoc(params: seq<string>, p: string, field: string)
    ensures Names(params + [p], field) <==> Names(params, field) || FieldOf(p) == field
  {
    assert forall q :: q in params + [p] <==> q in params || q == p;
  }

  predicate AllSame(vs: seq<Value>) {
    forall k | 0 <= k < |vs| :: vs[k] == vs[0]
  }

  lemma SameMeansNoConflict(pins: seq<Pin>, params: seq<string>)
    ensures Conflicted(pins, params) <==> exists p | p in params :: !AllSame(Values(Grouped(map[], pins), FieldOf(p)))
  {
    if Conflicted(pins, params) {
      var p, q :| p in pins && q in pins && p.field == q.field && p.v != q.v && Names(params, p.field);
      var n :| n in params && FieldOf(n) == p.field;
      GroupedHolds(pins, p.field, p.v);
      GroupedHolds(pins, q.field, q.v);
      assert !AllSame(Values(Grouped(map[], pins), FieldOf(n)));
    }
    if n :| n in params && !AllSame(Values(Grouped(map[], pins), FieldOf(n))) {
      var f := FieldOf(n);
      var vs := Values(Grouped(map[], pins), f);
      var k :| 0 <= k < |vs| && vs[k] != vs[0];
      GroupedHolds(pins, f, vs[k]);
      GroupedHolds(pins, f, vs[0]);
      assert Pin(f, vs[k]) in pins && Pin(f, vs[0]) in pins;
    }
  }

  /** Bind a resolved scope into the parameters a raw query reserved for it. */
  method BindScopeParameters(params: seq<string>, s: ResolvedScope) returns (r: Binding)
    requires forall i, j | 0 <= i < j < |params| :: params[i] != params[j]
    ensures r.Deny? <==> s.Denied? || Conflicted(Pins(WhereOf(s)), params)
    ensures r.Misconfigured? ==> !Bindable(WhereOf(s)) || exists p :: p in Pins(WhereOf(s)) && !Names(params, p.field)
    ensures r.Bound? ==>
              && Bindable(WhereOf(s))
              && (forall p | p in Pins(WhereOf(s)) :: Names(params, p.field))
              && r.values.Keys == (set i | 0 <= i < |params| :: params[i])
              && (forall i | 0 <= i < |params| :: r.values[params[i]] == BoundTo(Pins(WhereOf(s)), params, i))
  {
    if s.Denied? {
      return Deny;
    }
    ghost var pins := Pins(WhereOf(s));
    var equalities, unbindable := CollectScopeEqualities(WhereOf(s), map[], 0);
    SameMeansNoConflict(pins, params);
    var bound, left := BindEach(params, equalities, pins);
    if bound.None? {
      return Deny;
    }
    if left != map[] || unbindable != 0 {
      if left != map[] {
        var f :| f in left;
        GroupedHolds(pins, f, Null);
        GroupedHolds(pins, f, equalities[f][0]);
        assert Pin(f, equalities[f][0]) in pins;
      }
      return Misconfigured;
    }
    forall p | p in pins ensures Names(params, p.field) {
      GroupedHolds(pins, p.field, p.v);
    }
    r := Bound(bound.value);
  }

  /** A scope of one equality, bound into the parameter that names its field: the parameter carries exactly its value. */
  method BindOne(letter: nat, rest: string, v: Value, forced: Row) returns (r: Binding)
    requires letter < 26
    ensures r == Bound(map["scope" + [CAPITALS[letter]] + rest := v])
  {
    var field, p := [SMALLS[letter]] + rest, "scope" + [CAPITALS[letter]] + rest;
    CapitalNames(letter, rest, field);
    r := BindSingle(p, field, v, forced);
  }

  method BindSingle(p: string, field: string, v: Value, forced: Row) returns (r: Binding)
    requires Names([p], field)
    ensures r == Bound(map[p := v])
  {
    OnlyPin(field, v);
    BoundOnly(p, field, v);
    r := BindScopeParameters([p], Scoped(Some(Equals(field, v)), forced));
    assert [p][0] == p;
  }

  lemma OnlyPin(field: string, v: Value)
    ensures Pins(Equals(field, v)) == [Pin(field, v)] && Bindable(Equals(field, v))
  {
    var cs := Equals(field, v).clauses;
    assert cs[..|cs| - 1] == [] && cs[|cs| - 1] == Field(field, Scalar(v));
    assert Equality(Scalar(v)) == Some(v);
    assert ClausePins(cs[|cs| - 1]) == [Pin(field, v)];
    assert PinsOf([]) == [];
  }

  lemma BoundOnly(p: string, field: string, v: Value)
    requires Names([p], field)
    ensures BoundTo([Pin(field, v)], [p], 0) == v && !Conflicted([Pin(field, v)], [p])
  {
    var pins := [Pin(field, v)];
    assert pins[..0] == [] && [p][..0] == [];
    assert Grouped(map[], pins)[field] == [v];
  }

  /** The loop over the parameters: bind each, and strike its field off. */
  method BindEach(params: seq<string>, equalities: map<string, seq<Value>>, ghost pins: seq<Pin>)
    returns (r: Option<map<string, Value>>, left: map<string, seq<Value>>)
    requires equalities == Grouped(map[], pins)
    requires forall i, j | 0 <= i < j < |params| :: params[i] != params[j]
    ensures r.None? <==> exists p | p in params :: !AllSame(Values(equalities, FieldOf(p)))
    ensures r.Some? ==>
              && r.value.Keys == (set i | 0 <= i < |params| :: params[i])
              && (forall i | 0 <= i < |params| :: r.value[params[i]] == BoundTo(pins, params, i))
              && (forall f :: f in left <==> f in equalities && !Names(params, f))
  {
    left := equalities;
    var bound: map<string, Value> := map[];
    for i := 0 to |params|
      invariant Bindings(params, i, pins, equalities, left, bound)
    {
      var values := Values(left, FieldOf(params[i]));
      ConflictShows(params, i, pins, equalities, left, bound);
      if !AllSame(values) {
        return None, left;
      }
      BindStep(params, i, pins, equalities, left, bound);
      bound := bound[params[i] := if values != [] then values[0] else Null];
      left := left - {FieldOf(params[i])};
    }
    assert params[..|params|] == params;
    r := Some(bound);
  }

  /** The loop's state before parameter `n`. */
  ghost predicate Bindings(params: seq<string>, n: nat, pins: seq<Pin>, all: map<string, seq<Value>>, left: map<string, seq<Value>>, bound: map<string, Value>) {
    && n <= |params|
    && BoundUpTo(params, n, pins, bound)
    && (forall p | p in params[..n] :: AllSame(Values(all, FieldOf(p))))
    && Struck(all, left, params[..n])
  }

  lemma ConflictShows(params: seq<string>, n: nat, pins: seq<Pin>, all: map<string, seq<Value>>, left: map<string, seq<Value>>, bound: map<string, Value>)
    requires n < |params| && Bindings(params, n, pins, all, left, bound)
    ensures AllSame(Values(left, FieldOf(params[n]))) <==> AllSame(Values(all, FieldOf(params[n])))
  {
    StruckValues(all, left, params[..n], FieldOf(params[n]));
  }

  lemma BindStep(params: seq<string>, n: nat, pins: seq<Pin>, all: map<string, seq<Value>>, left: map<string, seq<Value>>, bound: map<string, Value>)
    requires forall i, j | 0 <= i < j < |params| :: params[i] != params[j]
    requires all == Grouped(map[], pins)
    requires n < |params| && Bindings(params, n, pins, all, left, bound) && AllSame(Values(left, FieldOf(params[n])))
    ensures var values := Values(left, FieldOf(params[n]));
            Bindings(params, n + 1, pins, all, left - {FieldOf(params[n])}, bound[params[n] := if values != [] then values[0] else Null])
  {
    var values := Values(left, FieldOf(params[n]));
    StruckValues(all, left, params[..n], FieldOf(params[n]));
    assert BoundUpTo(params, n + 1, pins, bound[params[n] := if values != [] then values[0] else Null]) by {
      BoundStep(params, n, pins, bound, if values != [] then values[0] else Null);
    }
    assert params[..n + 1] == params[..n] + [params[n]];
    assert Struck(all, left - {FieldOf(params[n])}, params[..n + 1]) by {
      StrikeField(all, left, params[..n], params[n]);
    }
  }

  /** The first `n` parameters carry their values. */
  ghost predicate BoundUpTo(params: seq<string>, n: nat, pins: seq<Pin>, bound: map<string, Value>)
    requires n <= |params|
  {
    && bound.Keys == (set j | 0 <= j < n :: params[j])
    && (forall j | 0 <= j < n :: bound[params[j]] == BoundTo(pins, params, j))
  }

  lemma BoundStep(params: seq<string>, n: nat, pins: seq<Pin>, bound: map<string, Value>, v: Value)
    requires forall i, j | 0 <= i < j < |params| :: params[i] != params[j]
    requires n < |params| && BoundUpTo(params, n, pins, bound) && v == BoundTo(pins, params, n)
    ensures BoundUpTo(params, n + 1, pins, bound[params[n] := v])
  {}

  /** The equalities left once the fields these parameters name are struck off. */
  ghost predicate Struck(all: map<string, seq<Value>>, left: map<string, seq<Value>>, params: seq<string>) {
    && (forall f :: f in left <==> f in all && !Names(params, f))
    && (forall f | f in left :: left[f] == all[f])
  }

  lemma StruckValues(all: map<string, seq<Value>>, left: map<string, seq<Value>>, params: seq<string>, field: string)
    requires Struck(all, left, params) && forall p | p in params :: AllSame(Values(all, FieldOf(p)))
    ensures Values(left, field) == if Names(params, field) then [] else Values(all, field)
    ensures AllSame(Values(left, field)) <==> AllSame(Values(all, field))
  {
    if Names(params, field) {
      var p :| p in params && FieldOf(p) == field;
    }
  }

  lemma StrikeField(all: map<string, seq<Value>>, left: map<string, seq<Value>>, params: seq<string>, p: string)
    requires Struck(all, left, params)
    ensures Struck(all, left - {FieldOf(p)}, params + [p])
  {
    forall f ensures Names(params + [p], f) <==> Names(params, f) || FieldOf(p) == f {
      NamesSnoc(params, p, f);
    }
  }

  // ---- what the bound query admits ----

  /** Every `(:p IS NULL OR col = :p)` holds. */
  predicate SqlAdmits(row: Row, params: seq<string>, values: map<string, Value>)
    requires forall p | p in params :: p in values
  {
    forall p | p in params :: values[p] == Null || Get(row, FieldOf(p)) == Some(values[p])
  }

  /** The facts `BindScopeParameters` promises with a binding. */
  ghost predicate BindsScope(params: seq<string>, pins: seq<Pin>, values: map<string, Value>) {
    && !Conflicted(pins, params)
    && (forall p | p in pins :: Names(params, p.field))
    && values.Keys == (set i | 0 <= i < |params| :: params[i])
    && (forall i | 0 <= i < |params| :: values[params[i]] == BoundTo(pins, params, i))
  }

  /** The first parameter naming a field carries its value. */
  lemma {:induction false} FirstNaming(params: seq<string>, field: string) returns (i: nat)
    requires Names(params, field)
    ensures i < |params| && FieldOf(params[i]) == field && !Names(params[..i], field)
  {
    var front, last := params[..|params| - 1], params[|params| - 1];
    assert params == front + [last];
    NamesSnoc(front, last, field);
    if Names(front, field) {
      i := FirstNaming(front, field);
      assert front[..i] == params[..i];
    } else {
      i := |params| - 1;
    }
  }

  lemma BoundValue(params: seq<string>, pins: seq<Pin>, values: map<string, Value>, p: Pin) returns (n: string)
    requires BindsScope(params, pins, values) && p in pins
    ensures n in params && n in values && FieldOf(n) == p.field && values[n] == p.v
  {
    var i := FirstNaming(params, p.field);
    n := params[i];
    GroupedHolds(pins, p.field, p.v);
    var vs := Values(Grouped(map[], pins), p.field);
    GroupedHolds(pins, p.field, vs[0]);
    assert Pin(p.field, vs[0]) in pins;
    assert values[params[i]] == BoundTo(pins, params, i);
  }

  lemma BoundPin(params: seq<string>, pins: seq<Pin>, values: map<string, Value>, n: string)
    requires BindsScope(params, pins, values) && n in params && n in values && values[n] != Null
    ensures Pin(FieldOf(n), values[n]) in pins
  {
    var i :| 0 <= i < |params| && params[i] == n;
    assert values[params[i]] == BoundTo(pins, params, i);
    GroupedHolds(pins, FieldOf(n), values[n]);
  }

  /**
   Lowering is exact if and only if no equality is with `null`: then, and only
   then, the bound query admits exactly the rows of the scope.
   */
  lemma BindIsExactIff(mean: Meaning, w: Where, params: seq<string>, values: map<string, Value>)
    requires Bindable(w) && BindsScope(params, Pins(w), values)
    ensures (forall row: Row :: SqlAdmits(row, params, values) <==> MatchWhere(mean, row, w)) <==>
            forall p | p in Pins(w) :: p.v != Null
  {
    var pins := Pins(w);
    if forall p | p in pins :: p.v != Null {
      forall row: Row ensures SqlAdmits(row, params, values) <==> MatchWhere(mean, row, w) {
        PinsMeaning(mean, row, w);
        SqlIsPins(params, pins, values, row);
      }
    } else {
      var leak := NullLeaks(params, pins, values);
      PinsMeaning(mean, leak, w);
      assert SqlAdmits(leak, params, values) && !MatchWhere(mean, leak, w);
    }
  }

  lemma SqlIsPins(params: seq<string>, pins: seq<Pin>, values: map<string, Value>, row: Row)
    requires BindsScope(params, pins, values) && forall p | p in pins :: p.v != Null
    ensures SqlAdmits(row, params, values) <==> Pinned(row, pins)
  {
    if SqlAdmits(row, params, values) {
      forall p | p in pins ensures Get(row, p.field) == Some(p.v) {
        var n := BoundValue(params, pins, values, p);
      }
    }
    if Pinned(row, pins) {
      forall n | n in params ensures values[n] == Null || Get(row, FieldOf(n)) == Some(values[n]) {
        if values[n] != Null {
          BoundPin(params, pins, values, n);
        }
      }
    }
  }

  /** A row that carries every non-null value and nothing else meets the query but not a null equality. */
  lemma NullLeaks(params: seq<string>, pins: seq<Pin>, values: map<string, Value>) returns (row: Row)
    requires BindsScope(params, pins, values) && exists p :: p in pins && p.v == Null
    ensures SqlAdmits(row, params, values) && !Pinned(row, pins)
  {
    row := CarryAll(pins, params);
    forall n | n in params ensures values[n] == Null || Get(row, FieldOf(n)) == Some(values[n]) {
      if values[n] != Null {
        BoundPin(params, pins, values, n);
      }
    }
    var p :| p in pins && p.v == Null;
    assert Get(row, p.field) != Some(Null);
  }

  /** Each non-null pin's field with its value. */
  lemma {:induction false} CarryAll(pins: seq<Pin>, params: seq<string>) returns (row: Row)
    requires !Conflicted(pins, params) && forall p | p in pins :: Names(params, p.field)
    ensures forall p | p in pins && p.v != Null :: Get(row, p.field) == Some(p.v)
    ensures forall f | f in row :: row[f] != Null && Pin(f, row[f]) in pins
  {
    row := map[];
    if pins != [] {
      var front, last := pins[..|pins| - 1], pins[|pins| - 1];
      assert forall p | p in front :: p in pins;
      row := CarryAll(front, params);
      assert last in pins;
      if last.v != Null {
        row := row[last.field := last.v];
      }
      assert forall p | p in pins :: p in front || p == last;
    }
  }

  /** A deny for conflicting values is right: no row is in the scope. */
  lemma ConflictMatchesNothing(mean: Meaning, row: Row, w: Where, params: seq<string>)
    requires Conflicted(Pins(w), params)
    ensures !MatchWhere(mean, row, w)
  {
    PinsMeaning(mean, row, w);
  }
}
