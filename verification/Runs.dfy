/**
 Every run of the adapter's elementary writes over any number of models keeps
 every model's invariant, wherever the run is cut off.
 */
module Runs {
  import opened Wrappers
  import opened Filters
  import opened Redis
  import opened Executors
  import opened Indexes
  import opened Engine

  datatype State = State(db: Db, now: int)

  datatype Action =
    | Create(id: string, row: Row, ttl: Option<int>)
    | Patch(id: string, patch: Row)
    | Delete(id: string)
    | Expire(id: string, ttl: Option<int>)
    | Collect(id: string)
    | Next
    | Tick(ms: nat)

  /** What the caller, or the code before the write, has established. */
  ghost predicate Enabled(m: Model, s: State, act: Action) {
    match act
    case Create(id, row, _) =>
      CanHold(s.db, m, id, row) && ProperRow(m, id, row) && !Taken(s.db, m, s.now, row, id)
    case Patch(id, patch) =>
      LiveRow(s.db, m, id, s.now) && ProperRow(m, id, RowAt(s.db, m, id) + patch) && !Taken(s.db, m, s.now, RowAt(s.db, m, id) + patch, id)
    case Delete(id) => LiveRow(s.db, m, id, s.now)
    case Expire(id, _) => LiveRow(s.db, m, id, s.now)
    case Collect(id) =>
      HasRow(s.db, m, id) && !LiveRow(s.db, m, id, s.now) && Unstolen(s.db, m, id, s.now)
    case Next => true
    case Tick(_) => true
  }

  ghost predicate Step(m: Model, a: State, act: Action, b: State) {
    && Enabled(m, a, act)
    && Shaped(b.db)
    && b.now == (if act.Tick? then a.now + act.ms else a.now)
    && match act
       case Create(id, row, ttl) => Created(a.db, b.db, m, id, row, Deadline(ttl, a.now))
       case Patch(id, patch) =>
         var o := RowAt(a.db, m, id);
         Patched(a.db, b.db, m, id, o, o + patch, ExpAt(a.db, m, id))
       case Delete(id) => Deleted(a.db, b.db, m, id)
       case Expire(id, ttl) => Retimed(a.db, b.db, m, id, Deadline(ttl, a.now), a.now)
       case Collect(id) => Deleted(a.db, b.db, m, id)
       case Next => Counted(a.db, b.db, m)
       case Tick(_) => b.db == a.db
  }

  /** Drawing from the counter, which takes effect at once, is a step. */
  lemma DrawIsStep(m: Model, db: Db, now: int)
    requires Shaped(db)
    ensures Step(m, State(db, now), Next, State(Incr(db, Seq(m.name), now), now))
  {}

  lemma StepKeepsOwnInv(m: Model, a: State, act: Action, b: State)
    requires Inv(a.db, m, a.now) && Step(m, a, act, b)
    ensures Inv(b.db, m, b.now)
  {
    assert Shown(0);
    match act
    case Create(id, row, ttl) => CreateKeepsInvIff(a.db, b.db, m, a.now, id, row, Deadline(ttl, a.now));
    case Patch(id, patch) => PatchKeepsInv(a.db, b.db, m, a.now, id, RowAt(a.db, m, id) + patch, ExpAt(a.db, m, id));
    case Delete(id) =>
      LiveIsUnstolen(a.db, m, id, a.now);
      DeleteKeepsInv(a.db, b.db, m, a.now, id);
    case Expire(id, ttl) => RetimeKeepsInv(a.db, b.db, m, a.now, id, Deadline(ttl, a.now));
    case Collect(id) => DeleteKeepsInv(a.db, b.db, m, a.now, id);
    case Next => CountKeepsInv(a.db, b.db, m, m, a.now);
    case Tick(ms) => TickKeepsInv(a.db, m, a.now, b.now);
  }

  /** A model's writes touch no key of a model with another name. */
  lemma StepLeavesOthers(m: Model, a: State, act: Action, b: State, other: Model)
    requires Inv(a.db, m, a.now) && Step(m, a, act, b) && other.name != m.name
    ensures Untouched(a.db, b.db, other.name)
  {
    assert Shown(0);
    if act.Patch? || act.Create? || act.Next? || act.Tick? {
    } else {
      assert forall x: Key :: InSet(a.db, Member(m.name, act.id), x) ==> x.model == m.name;
    }
  }

  ghost predicate AllInv(ms: seq<Model>, s: State) {
    forall i :: 0 <= i < |ms| ==> Inv(s.db, ms[i], s.now)
  }

  ghost predicate DistinctNames(ms: seq<Model>) {
    forall i, j :: 0 <= i < j < |ms| ==> ms[i].name != ms[j].name
  }

  /** A run: each step is one action of one of the models. */
  ghost predicate IsRun(ms: seq<Model>, states: seq<State>, acts: seq<(nat, Action)>) {
    && |states| == |acts| + 1
    && forall t :: 0 <= t < |acts| ==>
         acts[t].0 < |ms| && Step(ms[acts[t].0], states[t], acts[t].1, states[t + 1])
  }

  /** The invariant of every model holds after every run, hence at every cut of it. */
  lemma {:induction false} RunKeepsInv(ms: seq<Model>, states: seq<State>, acts: seq<(nat, Action)>)
    requires DistinctNames(ms) && IsRun(ms, states, acts) && AllInv(ms, states[0])
    ensures forall t :: 0 <= t < |states| ==> AllInv(ms, states[t])
    decreases |acts|
  {
    assert Shown(0);
    if acts != [] {
      var n := |acts| - 1;
      RunKeepsInv(ms, states[..n + 1], acts[..n]);
      assert states[..n + 1][n] == states[n];
      var (who, act) := acts[n];
      var a, b := states[n], states[n + 1];
      assert AllInv(ms, a);
      forall i | 0 <= i < |ms| ensures Inv(b.db, ms[i], b.now) {
        if i == who {
          StepKeepsOwnInv(ms[i], a, act, b);
        } else {
          StepLeavesOthers(ms[who], a, act, b, ms[i]);
          UntouchedKeepsInv(a.db, b.db, ms[i], a.now);
          TickKeepsInv(b.db, ms[i], a.now, b.now);
        }
      }
      forall t | 0 <= t < |states| ensures AllInv(ms, states[t]) {
        if t <= n {
          assert states[t] == states[..n + 1][t];
        }
      }
    }
  }

  /** The empty store satisfies every model's invariant, so the theorem is about reachable states. */
  lemma EmptyStoreInv(m: Model, now: int)
    ensures Inv(Db(map[], map[], map[]), m, now)
  {
    assert Shown(0);
  }
}
