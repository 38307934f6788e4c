/**
 A transaction is the same as running directly: on stores without expiries, a
 list of calls on any models run in a transaction and committed leaves the store,
 and returns the results, of running them one by one; rolled back, it leaves the
 store as it was apart from the models' key counters.
 */
module Refinement {
  import opened Wrappers
  import opened Filters
  import opened Redis
  import opened Executors
  import opened Indexes
  import opened Engine
  import opened Query
  import opened Adapter
  import opened Calls
  import Runs

  /** A call on the model with this number. */
  type Request = (nat, Call)

  ghost predicate Addressed(ms: seq<Model>, calls: seq<Request>) {
    forall i | 0 <= i < |calls| :: calls[i].0 < |ms|
  }

  // ---- what a list of calls means on rows ----

  ghost function Outcomes(ms: seq<Model>, mean: Meaning, start: seq<Abs>, calls: seq<Request>): (r: (seq<Abs>, seq<set<Row>>))
    requires |start| == |ms| && Addressed(ms, calls)
    ensures |r.0| == |ms|
  {
    if calls == [] then (start, [])
    else
      var (states, replies) := Outcomes(ms, mean, start, calls[..|calls| - 1]);
      var (k, call) := calls[|calls| - 1];
      var (a, reply) := Outcome(ms[k], mean, states[k], call);
      (states[k := a], replies + [reply])
  }

  /** Every call, where it comes, leaves every row under the key it prints. */
  ghost predicate KeysKept(ms: seq<Model>, mean: Meaning, start: seq<Abs>, calls: seq<Request>)
    requires |start| == |ms| && Addressed(ms, calls)
  {
    calls == [] ||
    var front, (k, call) := calls[..|calls| - 1], calls[|calls| - 1];
    KeysKept(ms, mean, start, front) && KeysHold(ms[k], mean, Outcomes(ms, mean, start, front).0[k], call)
  }

  /** No call of the list can be refused. */
  ghost predicate Smooth(ms: seq<Model>, mean: Meaning, start: seq<Abs>, calls: seq<Request>)
    requires |start| == |ms| && Addressed(ms, calls)
  {
    calls == [] ||
    var front, (k, call) := calls[..|calls| - 1], calls[|calls| - 1];
    Smooth(ms, mean, start, front) && Clear(ms[k], mean, Outcomes(ms, mean, start, front).0[k], call)
  }

  lemma {:induction false} AlongTheWay(ms: seq<Model>, mean: Meaning, start: seq<Abs>, calls: seq<Request>, n: nat)
    requires |start| == |ms| && Addressed(ms, calls) && n < |calls|
    ensures KeysKept(ms, mean, start, calls) ==> KeysHold(ms[calls[n].0], mean, Outcomes(ms, mean, start, calls[..n]).0[calls[n].0], calls[n].1)
    ensures Smooth(ms, mean, start, calls) ==> Clear(ms[calls[n].0], mean, Outcomes(ms, mean, start, calls[..n]).0[calls[n].0], calls[n].1)
  {
    var front := calls[..|calls| - 1];
    if n < |front| {
      AlongTheWay(ms, mean, start, front, n);
      assert front[..n] == calls[..n];
    }
  }

  // ---- a store showing one abstract state per model ----

  /** Each model's rows and counter are as given. */
  ghost predicate StoresEach(db: Db, ms: seq<Model>, now: int, states: seq<Abs>) {
    |states| == |ms| && forall j | 0 <= j < |ms| :: Stores(db, ms[j], now, db, states[j])
  }

  predicate Named(ms: seq<Model>, name: string) {
    exists j | 0 <= j < |ms| :: ms[j].name == name
  }

  /** Keys of no listed model are the same. */
  ghost predicate OutsideSame(a: Db, b: Db, ms: seq<Model>) {
    && (forall k: Key | !Named(ms, k.model) :: CellAt(b, k) == CellAt(a, k))
    && (forall k: Key, j: string | !Named(ms, k.model) :: ZScore(b, k, j) == ZScore(a, k, j))
    && (forall k: Key, x: Key | !Named(ms, k.model) :: InSet(b, k, x) <==> InSet(a, k, x))
  }

  /** Nothing moved but counters of the listed models. */
  ghost predicate CountersOnly(a: Db, b: Db, ms: seq<Model>) {
    && Shaped(b)
    && (forall k: Key | !(k.Seq? && Named(ms, k.model)) :: CellAt(b, k) == CellAt(a, k))
    && (forall k: Key, j: string :: ZScore(b, k, j) == ZScore(a, k, j))
    && (forall k: Key, x: Key :: InSet(b, k, x) <==> InSet(a, k, x))
  }

  /** No stored row's membership set was deleted; only ids that had rows before have been. */
  ghost predicate DropsFit(db: Db, m: Model, dropped: iset<Key>, a: Abs) {
    && (forall i: string {:trigger HasRow(db, m, i)} :: HasRow(db, m, i) ==> Member(m.name, i) !in dropped)
    && (forall i: string {:trigger Member(m.name, i)} :: Member(m.name, i) in dropped ==> i in a.past)
  }

  ghost predicate DropsEach(db: Db, ms: seq<Model>, dropped: iset<Key>, states: seq<Abs>)
    requires |states| == |ms|
  {
    forall j | 0 <= j < |ms| :: DropsFit(db, ms[j], dropped, states[j])
  }

  /** What is known of a view and the sets deleted so far, over the start of the run. */
  ghost predicate SitsNow(view: Db, dropped: iset<Key>, ms: seq<Model>, now: int, start: Db, states: seq<Abs>) {
    && Shaped(view)
    && StoresEach(view, ms, now, states)
    && DropsEach(view, ms, dropped, states)
    && OutsideSame(start, view, ms)
  }

  /** `SitsNow`, looked at only where `Shown` is mentioned. */
  ghost predicate Sits(view: Db, dropped: iset<Key>, ms: seq<Model>, now: int, start: Db, states: seq<Abs>) {
    forall n: nat {:trigger Shown(n)} :: Shown(n) ==> SitsNow(view, dropped, ms, now, start, states)
  }

  /** A transaction's base differs from `base` only in the models' counters. */
  ghost predicate BaseMoves(ex: Executor, ms: seq<Model>, base: Db)
    reads ex.Repr()
  {
    ex.Buffered? ==> CountersMoved(base, ex.Store().db, ms)
  }

  /** `CountersOnly`, looked at only where `Shown` is mentioned. */
  ghost predicate CountersMoved(a: Db, b: Db, ms: seq<Model>) {
    forall n: nat {:trigger Shown(n)} :: Shown(n) ==> CountersOnly(a, b, ms)
  }

  ghost predicate ShowingAll(ex: Executor, ms: seq<Model>, start: Db, base: Db, states: seq<Abs>)
    reads ex.Repr()
  {
    ex.Valid() && Sits(ex.View(), DroppedKeys(ex), ms, ex.Now(), start, states) && BaseMoves(ex, ms, base)
  }

  // ---- one call, among several models ----

  /** Over its own view a store shows what it shows over an earlier one. */
  lemma SelfStores(x: Db, y: Db, m: Model, now: int, a: Abs)
    requires Stores(y, m, now, x, a)
    ensures Stores(y, m, now, y, a) && OtherModelsSame(x, y, m) && Shaped(y)
  {
    assert Shown(0);
  }

  /** The rows of another model stay. */
  lemma OtherRows(x: Db, y: Db, m: Model, other: Model, now: int)
    requires OtherModelsSame(x, y, m) && other.name != m.name
    ensures Untouched(x, y, other.name)
    ensures forall i: string :: HasRow(y, other, i) <==> HasRow(x, other, i)
    ensures Live(y, other, now) == Live(x, other, now)
    ensures Lively(x, other, now) ==> Lively(y, other, now)
  {
    assert forall i: string :: CellAt(y, Obj(other.name, i)) == CellAt(x, Obj(other.name, i));
    LiveLookup(x, other, now);
    LiveLookup(y, other, now);
  }

  /** A call on one model leaves what the store shows of another. */
  lemma OtherStores(x: Db, y: Db, m: Model, other: Model, now: int, a: Abs)
    requires Stores(x, other, now, x, a) && OtherModelsSame(x, y, m) && Shaped(y) && other.name != m.name
    ensures Stores(y, other, now, y, a)
  {
    OtherRows(x, y, m, other, now);
    assert StoresNow(x, other, now, x, a) by { assert Shown(0); }
    UntouchedKeepsInv(x, y, other, now);
    assert CellAt(y, Seq(other.name)) == CellAt(x, Seq(other.name));
    assert StoresNow(y, other, now, y, a);
  }

  lemma OtherDrops(x: Db, y: Db, m: Model, other: Model, before: iset<Key>, after: iset<Key>, a: Abs, b: Abs)
    requires DropsFit(x, other, before, b) && DropsOnly(after, m, before, a) && other.name != m.name
    requires forall i: string :: HasRow(y, other, i) <==> HasRow(x, other, i)
    ensures DropsFit(y, other, after, b)
  {}

  lemma OutsideChain(start: Db, x: Db, y: Db, ms: seq<Model>, k: nat)
    requires k < |ms| && OutsideSame(start, x, ms) && OtherModelsSame(x, y, ms[k])
    ensures OutsideSame(start, y, ms)
  {}

  /** One call moves one model's abstract state and no other. */
  lemma SitsNext(x: Db, y: Db, before: iset<Key>, after: iset<Key>, ms: seq<Model>, now: int, start: Db, states: seq<Abs>, k: nat, a: Abs)
    requires Sits(x, before, ms, now, start, states) && Runs.DistinctNames(ms) && k < |ms| == |states|
    requires Stores(y, ms[k], now, x, a) && DropsOnly(after, ms[k], before, a)
    requires forall i: string {:trigger HasRow(y, ms[k], i)} :: HasRow(y, ms[k], i) ==> Member(ms[k].name, i) !in after
    ensures Sits(y, after, ms, now, start, states[k := a])
  {
    assert SitsNow(x, before, ms, now, start, states) by { assert Shown(0); }
    SelfStores(x, y, ms[k], now, a);
    forall j | 0 <= j < |ms|
      ensures Stores(y, ms[j], now, y, states[k := a][j]) && DropsFit(y, ms[j], after, states[k := a][j])
    {
      if j != k {
        assert ms[j].name != ms[k].name;
        OtherStores(x, y, ms[k], ms[j], now, states[j]);
        OtherRows(x, y, ms[k], ms[j], now);
        OtherDrops(x, y, ms[k], ms[j], before, after, a, states[j]);
      }
    }
    OutsideChain(start, x, y, ms, k);
  }

  lemma MovesChain(a: Db, b: Db, c: Db, ms: seq<Model>, k: nat)
    requires CountersMoved(a, b, ms) && k < |ms| && CountedOn(b, c, ms[k])
    ensures CountersMoved(a, c, ms)
  {
    assert Shown(0);
  }

  /** Where a call on one model starts from. */
  ghost function Here(ex: Executor): Origin
    reads ex.Repr()
  {
    Origin(ex.View(), ex.Store().db, DroppedKeys(ex))
  }

  lemma ShowsOne(ex: Executor, ms: seq<Model>, start: Db, base: Db, states: seq<Abs>, k: nat)
    requires ShowingAll(ex, ms, start, base, states) && k < |ms| == |states|
    ensures Showing(ex, ms[k], Here(ex), states[k])
  {
    assert Shown(0);
    assert Stores(ex.View(), ms[k], ex.Now(), ex.View(), states[k]);
    assert DropsFit(ex.View(), ms[k], DroppedKeys(ex), states[k]);
    assert forall i: string :: Member(ms[k].name, i) in DroppedKeys(ex) <==> ex.Dropped(Member(ms[k].name, i));
  }

  lemma ShowsAll(ex: Executor, ms: seq<Model>, start: Db, base: Db, states: seq<Abs>, k: nat, o: Origin, a: Abs)
    requires Runs.DistinctNames(ms) && k < |ms| == |states|
    requires Sits(o.start, o.dropped, ms, ex.Now(), start, states)
    requires ex.Buffered? ==> CountersMoved(base, o.base, ms)
    requires Showing(ex, ms[k], o, a)
    ensures ShowingAll(ex, ms, start, base, states[k := a])
  {
    assert Sound(ex, ms[k]) by { assert Shown(0); }
    SitsNext(o.start, ex.View(), o.dropped, DroppedKeys(ex), ms, ex.Now(), start, states, k, a);
    if ex.Buffered? {
      MovesChain(base, o.base, ex.Store().db, ms, k);
    }
  }

  method InvokeOne(ex: Executor, ms: seq<Model>, k: nat, call: Call, mean: Meaning, ghost start: Db, ghost base: Db, ghost states: seq<Abs>)
    returns (r: Result<set<Row>, WriteError>)
    requires Runs.DistinctNames(ms) && k < |ms| == |states|
    requires ShowingAll(ex, ms, start, base, states) && KeysHold(ms[k], mean, states[k], call)
    modifies ex.Repr()
    ensures ex.Now() == old(ex.Now()) && BaseMoves(ex, ms, base)
    ensures Clear(ms[k], mean, states[k], call) ==> r.Success?
    ensures r.Success? ==>
              var (a, reply) := Outcome(ms[k], mean, states[k], call);
              r.value == reply && ShowingAll(ex, ms, start, base, states[k := a])
  {
    ghost var o := Here(ex);
    ShowsOne(ex, ms, start, base, states, k);
    r := Invoke(ex, ms[k], call, mean, o, states[k]);
    if ex.Buffered? {
      MovesChain(base, o.base, ex.Store().db, ms, k);
    }
    if r.Success? {
      ShowsAll(ex, ms, start, base, states, k, o, Outcome(ms[k], mean, states[k], call).0);
    }
  }

  // ---- a list of calls ----

  method InvokeAll(ex: Executor, ms: seq<Model>, calls: seq<Request>, mean: Meaning, ghost start: Db, ghost base: Db, ghost states: seq<Abs>)
    returns (r: Result<seq<set<Row>>, WriteError>)
    requires Runs.DistinctNames(ms) && |states| == |ms| && Addressed(ms, calls)
    requires ShowingAll(ex, ms, start, base, states) && KeysKept(ms, mean, states, calls)
    modifies ex.Repr()
    ensures ex.Now() == old(ex.Now()) && BaseMoves(ex, ms, base)
    ensures Smooth(ms, mean, states, calls) ==> r.Success?
    ensures r.Success? ==>
              ShowingAll(ex, ms, start, base, Outcomes(ms, mean, states, calls).0) && r.value == Outcomes(ms, mean, states, calls).1
  {
    var replies := [];
    ghost var current := states;
    for i := 0 to |calls|
      invariant ex.Now() == old(ex.Now()) && Sofar(ex, ms, calls, mean, start, base, states, i, current, replies)
    {
      var one;
      one, current := InvokeNext(ex, ms, calls, i, mean, start, base, states, current, replies);
      if one.Failure? {
        return Failure(one.error);
      }
      replies := replies + [one.value];
    }
    assert calls[..|calls|] == calls;
    r := Success(replies);
  }

  /** The first `n` calls are done. */
  ghost predicate Sofar(ex: Executor, ms: seq<Model>, calls: seq<Request>, mean: Meaning, start: Db, base: Db, states: seq<Abs>,
                        n: nat, current: seq<Abs>, replies: seq<set<Row>>)
    reads ex.Repr()
    requires |states| == |ms| && Addressed(ms, calls) && n <= |calls|
  {
    && |current| == |ms|
    && ShowingAll(ex, ms, start, base, current)
    && Outcomes(ms, mean, states, calls[..n]) == (current, replies)
  }

  method InvokeNext(ex: Executor, ms: seq<Model>, calls: seq<Request>, n: nat, mean: Meaning, ghost start: Db, ghost base: Db,
                    ghost states: seq<Abs>, ghost current: seq<Abs>, ghost replies: seq<set<Row>>)
    returns (r: Result<set<Row>, WriteError>, ghost further: seq<Abs>)
    requires Runs.DistinctNames(ms) && |states| == |ms| && Addressed(ms, calls) && n < |calls|
    requires Sofar(ex, ms, calls, mean, start, base, states, n, current, replies) && KeysKept(ms, mean, states, calls)
    modifies ex.Repr()
    ensures ex.Now() == old(ex.Now()) && BaseMoves(ex, ms, base)
    ensures Smooth(ms, mean, states, calls) ==> r.Success?
    ensures r.Success? ==> Sofar(ex, ms, calls, mean, start, base, states, n + 1, further, replies + [r.value])
  {
    AlongTheWay(ms, mean, states, calls, n);
    var (k, call) := calls[n];
    r := InvokeOne(ex, ms, k, call, mean, start, base, current);
    assert calls[..n + 1][..n] == calls[..n];
    further := current[k := Outcome(ms[k], mean, current[k], call).0];
  }

  /** What a store shows at the start of a run. */
  ghost function Abstract(db: Db, ms: seq<Model>, now: int): (states: seq<Abs>)
    ensures |states| == |ms|
  {
    seq(|ms|, j requires 0 <= j < |ms| => Abs(Live(db, ms[j], now), CellAt(db, Seq(ms[j].name)), {}))
  }

  lemma TimelessSits(db: Db, ms: seq<Model>, now: int)
    requires Runs.AllInv(ms, Runs.State(db, now)) && Timeless(db) && Shaped(db)
    ensures Sits(db, iset{}, ms, now, db, Abstract(db, ms, now)) && CountersMoved(db, db, ms)
  {
    forall j | 0 <= j < |ms| ensures Stores(db, ms[j], now, db, Abstract(db, ms, now)[j]) {
      TimelessStores(db, ms[j], now);
    }
  }

  lemma TimelessStores(db: Db, m: Model, now: int)
    requires Inv(db, m, now) && Timeless(db)
    ensures Stores(db, m, now, db, Abs(Live(db, m, now), CellAt(db, Seq(m.name)), {}))
  {
    assert Shown(0);
    TimelessIsLively(db, m, now);
    LiveLookup(db, m, now);
  }

  // ---- the two ways to run ----

  /** Run the calls one by one on the client. */
  method RunDirect(client: Client, ms: seq<Model>, calls: seq<Request>, mean: Meaning) returns (r: Result<seq<set<Row>>, WriteError>)
    requires Startable(client.db, ms, client.now) && Addressed(ms, calls)
    requires KeysKept(ms, mean, Abstract(client.db, ms, client.now), calls)
    modifies client
    ensures Smooth(ms, mean, old(Abstract(client.db, ms, client.now)), calls) ==> r.Success?
    ensures r.Success? ==>
              var (states, replies) := Outcomes(ms, mean, old(Abstract(client.db, ms, client.now)), calls);
              Ended(client.db, ms, old(client.now), old(client.db), states) && r.value == replies
  {
    TimelessSits(client.db, ms, client.now);
    var d := new DirectExecutor(client);
    assert DroppedKeys(Direct(d)) == iset{};
    r := InvokeAll(Direct(d), ms, calls, mean, client.db, client.db, Abstract(client.db, ms, client.now));
    if r.Success? {
      Ends(Direct(d), ms, old(client.db), old(client.db), Outcomes(ms, mean, old(Abstract(client.db, ms, client.now)), calls).0);
    }
  }

  /** A well-formed store without expiries, consistent for every model. */
  ghost predicate Startable(db: Db, ms: seq<Model>, now: int) {
    Runs.DistinctNames(ms) && Runs.AllInv(ms, Runs.State(db, now)) && Timeless(db) && Shaped(db)
  }

  /** The store shows these states, and is as at the start elsewhere. */
  ghost predicate Ended(db: Db, ms: seq<Model>, now: int, start: Db, states: seq<Abs>) {
    Shaped(db) && StoresEach(db, ms, now, states) && OutsideSame(start, db, ms)
  }

  lemma Ends(ex: Executor, ms: seq<Model>, start: Db, base: Db, states: seq<Abs>)
    requires ShowingAll(ex, ms, start, base, states) && Shaped(start)
    ensures Ended(ex.View(), ms, ex.Now(), start, states)
  {
    assert Shown(0);
  }

  /** A new transaction shows what its client stores. */
  method Begin(client: Client, ms: seq<Model>) returns (tx: ValkeyTransaction)
    requires Startable(client.db, ms, client.now)
    ensures fresh(tx) && tx.client == client && tx.Valid()
    ensures ShowingAll(Buffered(tx), ms, client.db, client.db, Abstract(client.db, ms, client.now))
  {
    tx := new ValkeyTransaction(client);
    TimelessSits(client.db, ms, client.now);
    assert tx.commands == [];
    assert DroppedKeys(Buffered(tx)) == iset{};
  }

  /** Why a transaction was rolled back: a call was refused, or the callback threw something of its own. */
  datatype Abort = Refused(error: WriteError) | Thrown

  /**
   Run the calls in a transaction: roll back at the first refused call, or after
   the last one if the callback then throws; commit otherwise.  A callback that
   throws between calls made only the calls before.
   */
  method RunInTransaction(client: Client, ms: seq<Model>, calls: seq<Request>, throws: bool, mean: Meaning)
    returns (r: Result<seq<set<Row>>, Abort>)
    requires Startable(client.db, ms, client.now) && Addressed(ms, calls)
    requires KeysKept(ms, mean, Abstract(client.db, ms, client.now), calls)
    modifies client
    ensures Smooth(ms, mean, old(Abstract(client.db, ms, client.now)), calls) ==> (r.Failure? <==> throws) && (throws ==> r.error == Thrown)
    ensures r.Success? ==>
              var (states, replies) := Outcomes(ms, mean, old(Abstract(client.db, ms, client.now)), calls);
              !throws && Ended(client.db, ms, old(client.now), old(client.db), states) && r.value == replies
    ensures r.Failure? ==> CountersOnly(old(client.db), client.db, ms)
  {
    var tx := Begin(client, ms);
    var done := InvokeAll(Buffered(tx), ms, calls, mean, client.db, client.db, Abstract(client.db, ms, client.now));
    if done.Failure? || throws {
      assert CountersOnly(old(client.db), client.db, ms) by { assert Shown(0); }
      tx.Rollback();
      r := Failure(if done.Failure? then Refused(done.error) else Thrown);
    } else {
      Ends(Buffered(tx), ms, old(client.db), old(client.db), Outcomes(ms, mean, old(Abstract(client.db, ms, client.now)), calls).0);
      tx.Commit();
      r := Success(done.value);
    }
  }

  // ---- equal ends ----

  /** Two stores showing the same rows and counter of a model have the same keys of it. */
  lemma StoresDetermine(x: Db, y: Db, m: Model, now: int, a: Abs)
    requires Stores(x, m, now, x, a) && Stores(y, m, now, y, a)
    ensures Untouched(x, y, m.name)
  {
    assert Shown(0);
    LiveLookup(x, m, now);
    LiveLookup(y, m, now);
    forall i: string ensures CellAt(x, Obj(m.name, i)) == CellAt(y, Obj(m.name, i)) {
      assert HasRow(x, m, i) <==> i in a.rows;
      assert HasRow(y, m, i) <==> i in a.rows;
      assert CellAt(x, Obj(m.name, i)).Some? ==> HasRow(x, m, i);
      assert CellAt(y, Obj(m.name, i)).Some? ==> HasRow(y, m, i);
    }
    RowsDetermineStore(x, y, m, now);
  }

  /** Two stores that end in the same states, from the same start, are equal. */
  lemma EndsDetermine(x: Db, y: Db, ms: seq<Model>, now: int, start: Db, states: seq<Abs>)
    requires Ended(x, ms, now, start, states) && Ended(y, ms, now, start, states)
    ensures x == y
  {
    forall j | 0 <= j < |ms| ensures Untouched(x, y, ms[j].name) {
      StoresDetermine(x, y, ms[j], now, states[j]);
    }
    forall k: Key
      ensures CellAt(x, k) == CellAt(y, k)
      ensures forall id: string :: ZScore(x, k, id) == ZScore(y, k, id)
      ensures forall j: Key :: InSet(x, k, j) <==> InSet(y, k, j)
    {
      if Named(ms, k.model) {
        var j :| 0 <= j < |ms| && ms[j].name == k.model;
        assert Untouched(x, y, ms[j].name);
      }
    }
    SameLookupsSameStore(x, y);
  }

  /**
   From equal stores, a committed transaction and the direct run of the same calls
   on any of the models end in equal stores with equal results; both succeed
   whenever no call can be refused and the callback does not throw; a rolled back
   one moved only counters.
   */
  method TransactionRefinesDirect(c1: Client, c2: Client, ms: seq<Model>, calls: seq<Request>, throws: bool, mean: Meaning)
    returns (direct: Result<seq<set<Row>>, WriteError>, buffered: Result<seq<set<Row>>, Abort>)
    requires c1 != c2 && c1.db == c2.db && c1.now == c2.now
    requires Startable(c1.db, ms, c1.now) && Addressed(ms, calls)
    requires KeysKept(ms, mean, Abstract(c1.db, ms, c1.now), calls)
    modifies c1, c2
    ensures direct.Success? && buffered.Success? ==> c1.db == c2.db && direct.value == buffered.value
    ensures Smooth(ms, mean, old(Abstract(c1.db, ms, c1.now)), calls) ==> direct.Success? && (buffered.Success? <==> !throws)
    ensures throws ==> buffered.Failure?
    ensures buffered.Failure? ==> CountersOnly(old(c2.db), c2.db, ms)
  {
    ghost var start, now := c1.db, c1.now;
    direct := RunDirect(c1, ms, calls, mean);
    buffered := RunInTransaction(c2, ms, calls, throws, mean);
    if direct.Success? && buffered.Success? {
      EndsDetermine(c1.db, c2.db, ms, now, start, Outcomes(ms, mean, Abstract(start, ms, now), calls).0);
    }
  }
}
