/**
 Rewriting a scope's combinators to lower case, and putting a scope's filter
 beside the caller's.
 */
module Normalise {
  import opened Wrappers
  import opened Filters

  /** The property name a clause is written under. */
  datatype ClauseKey = AndKey(spelling: Spelling) | OrKey(spelling: Spelling) | NotKey(spelling: Spelling) | FieldKey(name: string)

  function KeyOf(c: Clause): ClauseKey {
    match c
    case And(s, _) => AndKey(s)
    case Or(s, _) => OrKey(s)
    case Not(s, _) => NotKey(s)
    case Field(name, _) => FieldKey(name)
  }

  function LowerKey(k: ClauseKey): ClauseKey {
    match k
    case AndKey(_) => AndKey(Lower)
    case OrKey(_) => OrKey(Lower)
    case NotKey(_) => NotKey(Lower)
    case FieldKey(_) => k
  }

  predicate HasKey(out: seq<Clause>, k: ClauseKey) {
    exists i :: 0 <= i < |out| && KeyOf(out[i]) == k
  }

  /** The value under the clause's key replaced in place. */
  function Replaced(out: seq<Clause>, c: Clause): seq<Clause> {
    if out == [] then []
    else if KeyOf(out[|out| - 1]) == KeyOf(c) then out[..|out| - 1] + [c]
    else Replaced(out[..|out| - 1], c) + [out[|out| - 1]]
  }

  /** Assigning a property: in place if the object has the key, else at the end. */
  function Assign(out: seq<Clause>, c: Clause): seq<Clause> {
    if HasKey(out, KeyOf(c)) then Replaced(out, c) else out + [c]
  }

  function Normalised(w: Where): Where
    decreases w, 1
  {
    Where(NormalisedClauses(w.clauses))
  }

  function NormalisedClauses(cs: seq<Clause>): seq<Clause>
    decreases cs, 0
  {
    if cs == [] then []
    else Assign(NormalisedClauses(cs[..|cs| - 1]), NormalisedClause(cs[|cs| - 1]))
  }

  function NormalisedClause(c: Clause): Clause
    decreases c, 1
  {
    match c
    case And(_, subs) => And(Lower, NormalisedAll(subs))
    case Or(_, subs) => Or(Lower, NormalisedAll(subs))
    case Not(_, sub) => Not(Lower, Normalised(sub))
    case Field(_, _) => c
  }

  function NormalisedAll(subs: seq<Where>): seq<Where>
    decreases subs, 0
  {
    if subs == [] then []
    else NormalisedAll(subs[..|subs| - 1]) + [Normalised(subs[|subs| - 1])]
  }

  // ---- the walk itself ----

  method NormaliseScopeWhere(w: Where) returns (out: Where)
    ensures out == Normalised(w)
    ensures InLowerCase(out)
    ensures WrittenOnce(w) ==> forall mean, row :: MatchWhere(mean, row, out) <==> MatchWhere(mean, row, w)
    decreases w, 2
  {
    out := Walk(w);
    RewritingLowers(w);
    forall mean, row | WrittenOnce(w) ensures MatchWhere(mean, row, out) <==> MatchWhere(mean, row, w) {
      RewritingKeeps(mean, row, w);
    }
  }

  /** The loop over the properties of one level. */
  method Walk(w: Where) returns (out: Where)
    ensures out == Normalised(w)
    decreases w, 1
  {
    var clauses: seq<Clause> := [];
    for i := 0 to |w.clauses|
      invariant clauses == NormalisedClauses(w.clauses[..i])
    {
      var c := NormaliseValue(w.clauses[i]);
      assert w.clauses[..i + 1][..i] == w.clauses[..i];
      clauses := Assign(clauses, c);
    }
    assert w.clauses[..|w.clauses|] == w.clauses;
    out := Where(clauses);
  }

  method NormaliseValue(c: Clause) returns (out: Clause)
    ensures out == NormalisedClause(c)
    decreases c, 1
  {
    match c {
      case And(_, subs) =>
        var all := NormaliseArray(subs);
        out := And(Lower, all);
      case Or(_, subs) =>
        var all := NormaliseArray(subs);
        out := Or(Lower, all);
      case Not(_, sub) =>
        var one := Walk(sub);
        out := Not(Lower, one);
      case Field(_, _) =>
        out := c;
    }
  }

  method NormaliseArray(subs: seq<Where>) returns (out: seq<Where>)
    ensures out == NormalisedAll(subs)
    decreases subs, 0
  {
    out := [];
    for i := 0 to |subs|
      invariant out == NormalisedAll(subs[..i])
    {
      var one := Walk(subs[i]);
      assert subs[..i + 1][..i] == subs[..i];
      out := out + [one];
    }
    assert subs[..|subs|] == subs;
  }

  // ---- assigning keeps keys distinct and lets the last value win ----

  ghost predicate DistinctKeys(cs: seq<Clause>) {
    forall i, j | 0 <= i < j < |cs| :: KeyOf(cs[i]) != KeyOf(cs[j])
  }

  lemma {:induction false} ReplacedMembers(out: seq<Clause>, c: Clause)
    requires DistinctKeys(out)
    ensures |Replaced(out, c)| == |out|
    ensures forall i | 0 <= i < |out| :: Replaced(out, c)[i] == if KeyOf(out[i]) == KeyOf(c) then c else out[i]
  {
    if out != [] && KeyOf(out[|out| - 1]) != KeyOf(c) {
      ReplacedMembers(out[..|out| - 1], c);
    }
  }

  lemma AssignMembers(out: seq<Clause>, c: Clause)
    requires DistinctKeys(out)
    ensures forall x :: x in Assign(out, c) <==> x == c || (x in out && KeyOf(x) != KeyOf(c))
    ensures DistinctKeys(Assign(out, c))
  {
    ReplacedMembers(out, c);
    if HasKey(out, KeyOf(c)) {
      var i :| 0 <= i < |out| && KeyOf(out[i]) == KeyOf(c);
      assert Replaced(out, c)[i] == c;
      forall x | x in out && KeyOf(x) != KeyOf(c) ensures x in Replaced(out, c) {
        var j :| 0 <= j < |out| && out[j] == x;
        assert Replaced(out, c)[j] == x;
      }
    } else {
      assert forall x | x in out :: KeyOf(x) != KeyOf(c);
    }
  }

  // ---- which clauses survive ----

  /** No later clause is written under the same key in another spelling. */
  ghost predicate IsLast(cs: seq<Clause>, i: int)
    requires 0 <= i < |cs|
  {
    forall j | i < j < |cs| :: LowerKey(KeyOf(cs[j])) != LowerKey(KeyOf(cs[i]))
  }

  lemma NormalisedKey(c: Clause)
    ensures KeyOf(NormalisedClause(c)) == LowerKey(KeyOf(c))
  {}

  lemma LastBefore(cs: seq<Clause>, i: int)
    requires 0 <= i < |cs| - 1
    ensures IsLast(cs, i) <==> IsLast(cs[..|cs| - 1], i) && LowerKey(KeyOf(cs[|cs| - 1])) != LowerKey(KeyOf(cs[i]))
  {
    var front := cs[..|cs| - 1];
    assert forall j | i < j < |front| :: front[j] == cs[j];
  }

  lemma LevelSnoc(front: seq<Clause>, last: Clause)
    ensures NormalisedClauses(front + [last]) == Assign(NormalisedClauses(front), NormalisedClause(last))
  {
    assert (front + [last])[..|front|] == front;
  }

  /** `x` is what the last clause under some key becomes. */
  ghost predicate Survives(cs: seq<Clause>, x: Clause) {
    exists i :: 0 <= i < |cs| && IsLast(cs, i) && NormalisedClause(cs[i]) == x
  }

  lemma SurvivesSnoc(front: seq<Clause>, last: Clause, x: Clause)
    ensures Survives(front + [last], x) <==>
            x == NormalisedClause(last) || (Survives(front, x) && KeyOf(x) != LowerKey(KeyOf(last)))
  {
    var cs := front + [last];
    assert cs[..|cs| - 1] == front && cs[|front|] == last;
    assert IsLast(cs, |front|);
    if i :| 0 <= i < |front| && IsLast(front, i) && NormalisedClause(front[i]) == x {
      NormalisedKey(front[i]);
      LastBefore(cs, i);
      assert cs[i] == front[i];
    }
    if i :| 0 <= i < |front| && IsLast(cs, i) && NormalisedClause(cs[i]) == x {
      NormalisedKey(cs[i]);
      LastBefore(cs, i);
      assert cs[i] == front[i];
    }
  }

  /** The rewritten level holds exactly the last clause written under each key. */
  lemma {:induction false} Survivors(cs: seq<Clause>, x: Clause)
    ensures DistinctKeys(NormalisedClauses(cs))
    ensures x in NormalisedClauses(cs) <==> Survives(cs, x)
  {
    if cs != [] {
      var front, last := cs[..|cs| - 1], cs[|cs| - 1];
      assert cs == front + [last];
      Survivors(front, x);
      LevelSnoc(front, last);
      SurvivesSnoc(front, last, x);
      AssignMembers(NormalisedClauses(front), NormalisedClause(last));
      NormalisedKey(last);
    }
  }

  // ---- what rewriting means ----

  /** A filter read with only the last clause under each key counting, at every level. */
  ghost predicate MatchLast(mean: Meaning, row: Row, w: Where) {
    forall i | 0 <= i < |w.clauses| && IsLast(w.clauses, i) :: MatchLastClause(mean, row, w.clauses[i])
  }

  ghost predicate MatchLastClause(mean: Meaning, row: Row, c: Clause) {
    match c
    case And(_, subs) => forall i | 0 <= i < |subs| :: MatchLast(mean, row, subs[i])
    case Or(_, subs) => exists i | 0 <= i < |subs| :: MatchLast(mean, row, subs[i])
    case Not(_, sub) => !MatchLast(mean, row, sub)
    case Field(name, cond) => MatchCond(mean, Get(row, name), cond)
  }

  lemma {:induction false} NormalisedAllAt(subs: seq<Where>)
    ensures |NormalisedAll(subs)| == |subs|
    ensures forall i | 0 <= i < |subs| :: NormalisedAll(subs)[i] == Normalised(subs[i])
  {
    if subs != [] {
      NormalisedAllAt(subs[..|subs| - 1]);
    }
  }

  lemma MatchMembers(mean: Meaning, row: Row, cs: seq<Clause>)
    ensures MatchWhere(mean, row, Where(cs)) <==> forall x | x in cs :: MatchClause(mean, row, x)
  {
    assert Where(cs).clauses == cs;
    if forall x | x in cs :: MatchClause(mean, row, x) {
      assert forall i | 0 <= i < |cs| :: cs[i] in cs;
    }
  }

  /** The rewritten filter means the original with only the last spelling of each combinator kept. */
  lemma {:induction false} NormaliseMeaning(mean: Meaning, row: Row, w: Where)
    ensures MatchWhere(mean, row, Normalised(w)) <==> MatchLast(mean, row, w)
    decreases w, 1
  {
    var out := Normalised(w).clauses;
    MatchMembers(mean, row, out);
    forall i | 0 <= i < |w.clauses|
      ensures MatchClause(mean, row, NormalisedClause(w.clauses[i])) <==> MatchLastClause(mean, row, w.clauses[i])
    {
      ClauseMeaning(mean, row, w.clauses[i]);
    }
    forall i | 0 <= i < |w.clauses| && IsLast(w.clauses, i) ensures NormalisedClause(w.clauses[i]) in out {
      Survivors(w.clauses, NormalisedClause(w.clauses[i]));
    }
    forall x | x in out ensures exists i :: 0 <= i < |w.clauses| && IsLast(w.clauses, i) && NormalisedClause(w.clauses[i]) == x {
      Survivors(w.clauses, x);
    }
  }

  lemma {:induction false} ClauseMeaning(mean: Meaning, row: Row, c: Clause)
    ensures MatchClause(mean, row, NormalisedClause(c)) <==> MatchLastClause(mean, row, c)
    decreases c, 2
  {
    match c
    case And(_, subs) =>
      NormalisedAllAt(subs);
      forall i | 0 <= i < |subs| ensures MatchWhere(mean, row, Normalised(subs[i])) <==> MatchLast(mean, row, subs[i]) {
        NormaliseMeaning(mean, row, subs[i]);
      }
    case Or(_, subs) =>
      NormalisedAllAt(subs);
      forall i | 0 <= i < |subs| ensures MatchWhere(mean, row, Normalised(subs[i])) <==> MatchLast(mean, row, subs[i]) {
        NormaliseMeaning(mean, row, subs[i]);
      }
    case Not(_, sub) => NormaliseMeaning(mean, row, sub);
    case Field(_, _) =>
  }

  /** No level writes one combinator in two spellings. */
  ghost predicate ClashFree(w: Where) {
    && (forall i | 0 <= i < |w.clauses| :: IsLast(w.clauses, i))
    && (forall i | 0 <= i < |w.clauses| :: ClauseClashFree(w.clauses[i]))
  }

  ghost predicate ClauseClashFree(c: Clause) {
    match c
    case And(_, subs) => forall i | 0 <= i < |subs| :: ClashFree(subs[i])
    case Or(_, subs) => forall i | 0 <= i < |subs| :: ClashFree(subs[i])
    case Not(_, sub) => ClashFree(sub)
    case Field(_, _) => true
  }

  lemma {:induction false} ClauseLastIsAll(mean: Meaning, row: Row, c: Clause)
    requires ClauseClashFree(c)
    ensures MatchLastClause(mean, row, c) <==> MatchClause(mean, row, c)
    decreases c, 2
  {
    match c
    case And(_, subs) =>
      forall i | 0 <= i < |subs| ensures MatchLast(mean, row, subs[i]) <==> MatchWhere(mean, row, subs[i]) {
        LastIsAll(mean, row, subs[i]);
      }
    case Or(_, subs) =>
      forall i | 0 <= i < |subs| ensures MatchLast(mean, row, subs[i]) <==> MatchWhere(mean, row, subs[i]) {
        LastIsAll(mean, row, subs[i]);
      }
    case Not(_, sub) => LastIsAll(mean, row, sub);
    case Field(_, _) =>
  }

  lemma {:induction false} LastIsAll(mean: Meaning, row: Row, w: Where)
    requires ClashFree(w)
    ensures MatchLast(mean, row, w) <==> MatchWhere(mean, row, w)
    decreases w, 1
  {
    forall i | 0 <= i < |w.clauses|
      ensures MatchLastClause(mean, row, w.clauses[i]) <==> MatchClause(mean, row, w.clauses[i])
    {
      ClauseLastIsAll(mean, row, w.clauses[i]);
    }
  }

  /** Without clashing spellings, rewriting keeps the meaning on every row. */
  lemma NormalisePreserves(mean: Meaning, row: Row, w: Where)
    requires ClashFree(w)
    ensures MatchWhere(mean, row, Normalised(w)) <==> MatchWhere(mean, row, w)
  {
    NormaliseMeaning(mean, row, w);
    LastIsAll(mean, row, w);
  }

  /**
   At a level with clashing spellings and clash-free parts, rewriting changes the
   verdict on a row exactly when the row meets every clause kept and fails one
   that was overwritten.
   */
  lemma NormaliseWidensIff(mean: Meaning, row: Row, w: Where)
    requires forall i | 0 <= i < |w.clauses| :: ClauseClashFree(w.clauses[i])
    ensures !(MatchWhere(mean, row, Normalised(w)) <==> MatchWhere(mean, row, w)) <==>
            (forall i | 0 <= i < |w.clauses| && IsLast(w.clauses, i) :: MatchClause(mean, row, w.clauses[i])) &&
            (exists i :: 0 <= i < |w.clauses| && !IsLast(w.clauses, i) && !MatchClause(mean, row, w.clauses[i]))
  {
    NormaliseMeaning(mean, row, w);
    forall i | 0 <= i < |w.clauses|
      ensures MatchLastClause(mean, row, w.clauses[i]) <==> MatchClause(mean, row, w.clauses[i])
    {
      ClauseLastIsAll(mean, row, w.clauses[i]);
    }
  }

  /** `{AND: [{a: 1}], and: []}` loses its condition. */
  lemma ClashLosesClause(mean: Meaning)
    ensures var w := Where([And(Variant(0), [Equals("a", Int(1))]), And(Lower, [])]);
            MatchWhere(mean, map[], Normalised(w)) && !MatchWhere(mean, map[], w)
  {
    var first, second := And(Variant(0), [Equals("a", Int(1))]), And(Lower, []);
    var w := Where([first, second]);
    MatchEquals(mean, map[], "a", Int(1));
    assert first.subs[0] == Equals("a", Int(1));
    assert !MatchClause(mean, map[], first);
    NormaliseMeaning(mean, map[], w);
    assert w.clauses[0] == first && w.clauses[1] == second;
    assert LowerKey(KeyOf(w.clauses[1])) == LowerKey(KeyOf(w.clauses[0]));
  }

  // ---- the condition, by what is written ----

  /** Two clauses of one combinator, in any spelling, or on one field. */
  predicate SameProperty(c: Clause, d: Clause) {
    || (c.And? && d.And?)
    || (c.Or? && d.Or?)
    || (c.Not? && d.Not?)
    || (c.Field? && d.Field? && c.name == d.name)
  }

  /** Clauses come under one key once lowered if and only if they are of one combinator or on one field. */
  lemma LowerKeyIff(c: Clause, d: Clause)
    ensures LowerKey(KeyOf(c)) == LowerKey(KeyOf(d)) <==> SameProperty(c, d)
  {}

  /** At every level each combinator and each field is written once. */
  ghost predicate WrittenOnce(w: Where) {
    && (forall i, j | 0 <= i < j < |w.clauses| :: !SameProperty(w.clauses[i], w.clauses[j]))
    && (forall i | 0 <= i < |w.clauses| :: ClauseWrittenOnce(w.clauses[i]))
  }

  ghost predicate ClauseWrittenOnce(c: Clause) {
    match c
    case And(_, subs) => forall i | 0 <= i < |subs| :: WrittenOnce(subs[i])
    case Or(_, subs) => forall i | 0 <= i < |subs| :: WrittenOnce(subs[i])
    case Not(_, sub) => WrittenOnce(sub)
    case Field(_, _) => true
  }

  /** A filter is clash-free if and only if each combinator and each field is written once at every level. */
  lemma {:induction false} ClashFreeIff(w: Where)
    ensures ClashFree(w) <==> WrittenOnce(w)
    decreases w, 1
  {
    var cs := w.clauses;
    forall i | 0 <= i < |cs| ensures IsLast(cs, i) <==> forall j | i < j < |cs| :: !SameProperty(cs[i], cs[j]) {
      forall j | i < j < |cs| ensures LowerKey(KeyOf(cs[j])) != LowerKey(KeyOf(cs[i])) <==> !SameProperty(cs[i], cs[j]) {
        LowerKeyIff(cs[i], cs[j]);
      }
    }
    forall i | 0 <= i < |cs| ensures ClauseClashFree(cs[i]) <==> ClauseWrittenOnce(cs[i]) {
      ClauseClashFreeIff(cs[i]);
    }
  }

  lemma {:induction false} ClauseClashFreeIff(c: Clause)
    ensures ClauseClashFree(c) <==> ClauseWrittenOnce(c)
    decreases c, 2
  {
    match c
    case And(_, subs) =>
      forall i | 0 <= i < |subs| ensures ClashFree(subs[i]) <==> WrittenOnce(subs[i]) {
        ClashFreeIff(subs[i]);
      }
    case Or(_, subs) =>
      forall i | 0 <= i < |subs| ensures ClashFree(subs[i]) <==> WrittenOnce(subs[i]) {
        ClashFreeIff(subs[i]);
      }
    case Not(_, sub) => ClashFreeIff(sub);
    case Field(_, _) =>
  }

  /** The rewritten filter says what the original does, when each combinator and field is written once. */
  lemma RewritingKeeps(mean: Meaning, row: Row, w: Where)
    requires WrittenOnce(w)
    ensures MatchWhere(mean, row, Normalised(w)) <==> MatchWhere(mean, row, w)
  {
    ClashFreeIff(w);
    NormalisePreserves(mean, row, w);
  }

  /** Every combinator of the filter is in lower case. */
  ghost predicate InLowerCase(w: Where) {
    forall i | 0 <= i < |w.clauses| :: ClauseInLowerCase(w.clauses[i])
  }

  ghost predicate ClauseInLowerCase(c: Clause) {
    match c
    case And(s, subs) => s.Lower? && forall i | 0 <= i < |subs| :: InLowerCase(subs[i])
    case Or(s, subs) => s.Lower? && forall i | 0 <= i < |subs| :: InLowerCase(subs[i])
    case Not(s, sub) => s.Lower? && InLowerCase(sub)
    case Field(_, _) => true
  }

  /** Rewriting leaves no combinator in another spelling, at any depth. */
  lemma {:induction false} RewritingLowers(w: Where)
    ensures InLowerCase(Normalised(w))
    decreases w, 1
  {
    var out := Normalised(w).clauses;
    forall n | 0 <= n < |out| ensures ClauseInLowerCase(out[n]) {
      Survivors(w.clauses, out[n]);
      var i :| 0 <= i < |w.clauses| && IsLast(w.clauses, i) && NormalisedClause(w.clauses[i]) == out[n];
      ClauseLowers(w.clauses[i]);
    }
  }

  lemma {:induction false} ClauseLowers(c: Clause)
    ensures ClauseInLowerCase(NormalisedClause(c))
    decreases c, 2
  {
    match c
    case And(_, subs) => AllLower(subs);
    case Or(_, subs) => AllLower(subs);
    case Not(_, sub) => RewritingLowers(sub);
    case Field(_, _) =>
  }

  lemma {:induction false} AllLower(subs: seq<Where>)
    ensures forall i | 0 <= i < |NormalisedAll(subs)| :: InLowerCase(NormalisedAll(subs)[i])
    decreases subs, 3
  {
    NormalisedAllAt(subs);
    forall i | 0 <= i < |subs| ensures InLowerCase(NormalisedAll(subs)[i]) {
      RewritingLowers(subs[i]);
    }
  }

  // ---- rewriting twice is rewriting once ----

  /** The clause is already as rewriting would leave it. */
  ghost predicate Fixed(c: Clause) {
    NormalisedClause(c) == c
  }

  lemma {:induction false} FixedLevel(cs: seq<Clause>)
    requires DistinctKeys(cs) && forall i {:trigger Fixed(cs[i])} | 0 <= i < |cs| :: Fixed(cs[i])
    ensures NormalisedClauses(cs) == cs
  {
    if cs != [] {
      var front, last := cs[..|cs| - 1], cs[|cs| - 1];
      assert cs == front + [last];
      assert forall i {:trigger Fixed(front[i])} | 0 <= i < |front| :: front[i] == cs[i] && Fixed(cs[i]);
      FixedLevel(front);
      LevelSnoc(front, last);
      assert Fixed(cs[|cs| - 1]);
      FreshKey(front, last);
    }
  }

  lemma FreshKey(front: seq<Clause>, last: Clause)
    requires DistinctKeys(front + [last])
    ensures Assign(front, last) == front + [last]
  {
    forall i | 0 <= i < |front| ensures KeyOf(front[i]) != KeyOf(last) {
      assert (front + [last])[i] == front[i] && (front + [last])[|front|] == last;
    }
  }

  lemma {:induction false} NormaliseIdempotent(w: Where)
    ensures Normalised(Normalised(w)) == Normalised(w)
    decreases w, 1
  {
    var out := Normalised(w).clauses;
    forall n {:trigger Fixed(out[n])} | 0 <= n < |out| ensures Fixed(out[n]) {
      Survivors(w.clauses, out[n]);
      var i :| 0 <= i < |w.clauses| && IsLast(w.clauses, i) && NormalisedClause(w.clauses[i]) == out[n];
      ClauseIdempotent(w.clauses[i]);
    }
    Survivors(w.clauses, Field("", Scalar(Null)));
    FixedLevel(out);
  }

  lemma {:induction false} ClauseIdempotent(c: Clause)
    ensures NormalisedClause(NormalisedClause(c)) == NormalisedClause(c)
    decreases c, 2
  {
    match c
    case And(_, subs) => AllIdempotent(subs);
    case Or(_, subs) => AllIdempotent(subs);
    case Not(_, sub) => NormaliseIdempotent(sub);
    case Field(_, _) =>
  }

  lemma {:induction false} AllIdempotent(subs: seq<Where>)
    ensures NormalisedAll(NormalisedAll(subs)) == NormalisedAll(subs)
    decreases subs, 3
  {
    var out := NormalisedAll(subs);
    NormalisedAllAt(subs);
    NormalisedAllAt(out);
    forall i | 0 <= i < |subs| ensures NormalisedAll(out)[i] == out[i] {
      NormaliseIdempotent(subs[i]);
    }
  }

  // ---- the caller's filter and the scope's ----

  function IsEmpty(w: Option<Where>): bool {
    w.None? || w.value.clauses == []
  }

  /** An absent filter admits every row. */
  predicate Admits(mean: Meaning, row: Row, w: Option<Where>) {
    w.Some? ==> MatchWhere(mean, row, w.value)
  }

  /** The scope as its own branch of a fresh `and`. */
  function MergeScopeWhere(user: Option<Where>, scope: Option<Where>): Option<Where> {
    if IsEmpty(scope) then user
    else if IsEmpty(user) then Some(Normalised(scope.value))
    else Some(Where([And(Lower, [user.value, Normalised(scope.value)])]))
  }

  /** Merging is conjunction, whatever the caller sent. */
  lemma MergeIsConjunction(mean: Meaning, row: Row, user: Option<Where>, scope: Option<Where>)
    requires scope.Some? ==> ClashFree(scope.value)
    ensures Admits(mean, row, MergeScopeWhere(user, scope)) <==> Admits(mean, row, user) && Admits(mean, row, scope)
  {
    if scope.Some? {
      NormalisePreserves(mean, row, scope.value);
      if !IsEmpty(scope) && !IsEmpty(user) {
        PairMeaning(mean, row, user.value, Normalised(scope.value));
      }
    }
  }

  /** An absent or empty filter adds nothing to the other; two filters go side by side under a fresh `and`. */
  lemma MergeShows(user: Option<Where>, scope: Option<Where>)
    ensures scope == None || scope == Some(Where([])) ==> MergeScopeWhere(user, scope) == user
    ensures scope.Some? && scope.value.clauses != [] && (user == None || user == Some(Where([]))) ==>
              MergeScopeWhere(user, scope) == Some(Normalised(scope.value))
    ensures scope.Some? && scope.value.clauses != [] && user.Some? && user.value.clauses != [] ==>
              MergeScopeWhere(user, scope) == Some(Where([And(Lower, [user.value, Normalised(scope.value)])]))
  {}

  lemma PairMeaning(mean: Meaning, row: Row, a: Where, b: Where)
    ensures MatchWhere(mean, row, Where([And(Lower, [a, b])])) <==> MatchWhere(mean, row, a) && MatchWhere(mean, row, b)
  {
    var c := And(Lower, [a, b]);
    var w := Where([c]);
    assert w.clauses[0] == c;
    assert c.subs[0] == a && c.subs[1] == b;
    assert MatchWhere(mean, row, w) <==> MatchClause(mean, row, c);
  }
}
