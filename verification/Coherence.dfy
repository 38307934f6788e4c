/**
 Readers and writers sharing one cache, interleaved in any way: a reader looks
 up, reads the database on a miss, and stores under the key the lookup gave; a
 writer writes, then invalidates its tags.  A hit never returns a value read
 before a write whose invalidation has happened, as long as the cache is only
 cleared while no tagged read is under way; a clear at any other time can be
 followed by a stale hit.
 */
module Coherence {
  import opened Wrappers
  import opened Cache

  /** The tags of a read are fixed by its shape; `answer(shape, n)` is what the database answers after `n` writes. */
  datatype Setup = Setup(prefix: string, limits: Limits, tagsOf: string -> seq<string>, answer: (string, nat) -> string)

  datatype Reader =
    | Missed(shape: string, versions: seq<nat>)
    | Fetched(shape: string, versions: seq<nat>, value: string, stamp: nat)

  /** A write done, not yet invalidated: its tags and its position among all writes. */
  datatype Pending = Pending(tags: seq<string>, at: nat)

  /** Where a stored value came from: its read, the generations it was looked up under, and when it was read. */
  datatype Origin = Origin(shape: string, versions: seq<nat>, stamp: nat)

  datatype World = World(
    cache: State,
    now: int,
    written: nat,
    readers: map<nat, Reader>,
    writers: map<nat, Pending>,
    ghost covered: map<string, seq<nat>>,
    ghost cleared: map<string, seq<nat>>,
    ghost origins: map<string, Origin>)

  datatype Step =
    | Lookup(reader: nat, shape: string, hit: Option<string>)
    | ReadDb(reader: nat)
    | Store(reader: nat, ttl: int, gone: set<string>)
    | Write(writer: nat, tags: seq<string>)
    | Invalidate(writer: nat)
    | Clear
    | Tick(later: int)

  function Tags(u: Setup, shape: string): seq<string> {
    u.tagsOf(shape)
  }

  function Answer(u: Setup, shape: string, n: nat): string {
    u.answer(shape, n)
  }

  function FullKey(u: Setup, shape: string, versions: seq<nat>): string {
    u.prefix + ":e:" + EntryName(shape, versions)
  }

  const EMPTY: State := State(map[], map[], map[], 0, 0, map[])

  /**
   The writes covered by the invalidations of a tag so far, oldest first.  A
   world's `covered` is the whole of it, its `cleared` the part before the last
   clear, which the generations no longer count.
   */
  ghost function History(covered: map<string, seq<nat>>, tag: string): seq<nat> {
    if tag in covered then covered[tag] else []
  }

  ghost function Noted(covered: map<string, seq<nat>>, tags: seq<string>, at: nat): map<string, seq<nat>> {
    if tags == [] then covered
    else
      var c, t := Noted(covered, tags[..|tags| - 1], at), tags[|tags| - 1];
      c[t := History(c, t) + [at]]
  }

  /** One atomic step of one party. */
  ghost predicate Next(u: Setup, a: World, b: World, step: Step) {
    match step
    case Lookup(r, shape, hit) =>
      var vs := Versions(a.cache.gens, Tags(u, shape));
      && r !in a.readers
      && Gets(a.cache, b.cache, FullKey(u, shape, vs), a.now, hit)
      && b == a.(cache := b.cache, readers := if hit.Some? then a.readers else a.readers[r := Missed(shape, vs)])
    case ReadDb(r) =>
      && r in a.readers && a.readers[r].Missed?
      && var m := a.readers[r];
         b == a.(readers := a.readers[r := Fetched(m.shape, m.versions, Answer(u, m.shape, a.written), a.written)])
    case Store(r, ttl, gone) =>
      && r in a.readers && a.readers[r].Fetched?
      && var f := a.readers[r];
         var k := FullKey(u, f.shape, f.versions);
         && Sets(a.cache, b.cache, k, f.value, ttl, u.limits, a.now, gone)
         && b == a.(cache := b.cache, readers := a.readers - {r}, origins := a.origins[k := Origin(f.shape, f.versions, f.stamp)])
    case Write(x, tags) =>
      && x !in a.writers
      && b == a.(written := a.written + 1, writers := a.writers[x := Pending(tags, a.written + 1)])
    case Invalidate(x) =>
      && x in a.writers
      && var p := a.writers[x];
         b == a.(cache := a.cache.(gens := Bumped(a.cache.gens, p.tags)), writers := a.writers - {x},
                 covered := Noted(a.covered, p.tags, p.at))
    case Clear =>
      b == a.(cache := EMPTY, cleared := a.covered)
    case Tick(later) =>
      a.now <= later && b == a.(now := later)
  }

  // ---- the invariant ----

  /** A generation counts the invalidations of its tag since the last clear, all of writes that have happened. */
  ghost predicate Counted(w: World) {
    forall t {:trigger History(w.covered, t)} ::
      && |History(w.covered, t)| == |History(w.cleared, t)| + Generation(w.cache.gens, t)
      && forall n | n in History(w.covered, t) :: n <= w.written
  }

  /** `versions` were generations of the shape's tags, all at one time since the last clear. */
  ghost predicate Seen(u: Setup, gens: map<string, nat>, shape: string, versions: seq<nat>) {
    var tags := Tags(u, shape);
    && OneEach(tags, versions)
    && forall i | 0 <= i < |tags| :: versions[i] <= Generation(gens, tags[i])
  }

  /** One number per tag, the same wherever a tag is repeated. */
  ghost predicate OneEach(tags: seq<string>, versions: seq<nat>) {
    && |versions| == |tags|
    && forall i, j {:trigger tags[i], tags[j]} | 0 <= i < j < |tags| && tags[i] == tags[j] :: versions[i] == versions[j]
  }

  /** A read at `stamp` saw every write covered before the last clear, or by an invalidation counted in `versions`. */
  ghost predicate Fresh(u: Setup, w: World, shape: string, versions: seq<nat>, stamp: nat) {
    var tags := Tags(u, shape);
    |versions| == |tags| &&
    forall i, g | 0 <= i < |tags| && 0 <= g < |History(w.cleared, tags[i])| + versions[i] && g < |History(w.covered, tags[i])| ::
      History(w.covered, tags[i])[g] <= stamp
  }

  ghost predicate Trusted(u: Setup, w: World, o: Origin, value: string) {
    && Seen(u, w.cache.gens, o.shape, o.versions)
    && o.stamp <= w.written
    && value == Answer(u, o.shape, o.stamp)
    && Fresh(u, w, o.shape, o.versions, o.stamp)
  }

  ghost predicate ReadersOk(u: Setup, w: World) {
    forall r | r in w.readers ::
      match w.readers[r]
      case Missed(shape, vs) => Seen(u, w.cache.gens, shape, vs)
      case Fetched(shape, vs, value, stamp) => Trusted(u, w, Origin(shape, vs, stamp), value)
  }

  ghost predicate EntriesOk(u: Setup, w: World) {
    forall k {:trigger Held(w.cache.entries, k, w.now)} ::
      var v := Held(w.cache.entries, k, w.now);
      v.Some? ==>
        k in w.origins && k == FullKey(u, w.origins[k].shape, w.origins[k].versions) && Trusted(u, w, w.origins[k], v.value)
  }

  ghost predicate WritersOk(w: World) {
    forall x | x in w.writers :: w.writers[x].at <= w.written
  }

  ghost predicate Coherent(u: Setup, w: World) {
    && Accounted(w.cache, w.now)
    && Counted(w)
    && ReadersOk(u, w)
    && EntriesOk(u, w)
    && WritersOk(w)
  }

  // ---- generations and histories move together ----

  lemma {:induction false} BumpedCounts(gens: map<string, nat>, covered: map<string, seq<nat>>, tags: seq<string>, at: nat, t: string)
    ensures |History(Noted(covered, tags, at), t)| - |History(covered, t)| == Generation(Bumped(gens, tags), t) - Generation(gens, t)
    ensures History(covered, t) <= History(Noted(covered, tags, at), t)
    ensures forall n | n in History(Noted(covered, tags, at), t) :: n == at || n in History(covered, t)
  {
    if tags != [] {
      BumpedCounts(gens, covered, tags[..|tags| - 1], at, t);
    }
  }

  /** Later invalidations leave what was trusted trusted. */
  lemma TrustLasts(u: Setup, a: World, b: World, o: Origin, value: string)
    requires Trusted(u, a, o, value) && Counted(a) && a.written <= b.written && a.cleared == b.cleared
    requires forall t {:trigger History(b.covered, t)} :: History(a.covered, t) <= History(b.covered, t)
    requires forall t {:trigger Generation(b.cache.gens, t)} :: Generation(a.cache.gens, t) <= Generation(b.cache.gens, t)
    ensures Trusted(u, b, o, value)
  {
    var tags := Tags(u, o.shape);
    forall i, g | 0 <= i < |tags| && 0 <= g < |History(b.cleared, tags[i])| + o.versions[i] && g < |History(b.covered, tags[i])|
      ensures History(b.covered, tags[i])[g] <= o.stamp
    {
      assert |History(a.covered, tags[i])| == |History(a.cleared, tags[i])| + Generation(a.cache.gens, tags[i]);
      assert History(a.covered, tags[i]) <= History(b.covered, tags[i]);
    }
  }

  // ---- every step keeps the invariant ----

  lemma LookupKeeps(u: Setup, a: World, b: World, step: Step)
    requires Coherent(u, a) && Next(u, a, b, step) && step.Lookup?
    ensures Coherent(u, b)
  {
    var vs := Versions(a.cache.gens, Tags(u, step.shape));
    GetAccounted(a.cache, b.cache, FullKey(u, step.shape, vs), a.now, step.hit);
    assert Seen(u, b.cache.gens, step.shape, vs);
    SameTrust(u, a, b);
  }

  /** A step that moves neither counters nor writes keeps all trust. */
  lemma SameTrust(u: Setup, a: World, b: World)
    requires a.cache.gens == b.cache.gens && a.covered == b.covered && a.cleared == b.cleared && a.written == b.written
    ensures forall o, value :: Trusted(u, b, o, value) <==> Trusted(u, a, o, value)
  {}

  lemma ReadKeeps(u: Setup, a: World, b: World, step: Step)
    requires Coherent(u, a) && Next(u, a, b, step) && step.ReadDb?
    ensures Coherent(u, b)
  {
    var m := a.readers[step.reader];
    SameTrust(u, a, b);
    assert Trusted(u, b, Origin(m.shape, m.versions, a.written), Answer(u, m.shape, a.written)) by {
      var tags := Tags(u, m.shape);
      forall i, g | 0 <= i < |tags| && 0 <= g < |History(a.cleared, tags[i])| + m.versions[i] && g < |History(a.covered, tags[i])|
        ensures History(a.covered, tags[i])[g] <= a.written
      {
        assert History(a.covered, tags[i])[g] in History(a.covered, tags[i]);
      }
    }
  }

  lemma StoreKeeps(u: Setup, a: World, b: World, step: Step)
    requires Coherent(u, a) && Next(u, a, b, step) && step.Store?
    ensures Coherent(u, b)
  {
    var f := a.readers[step.reader];
    SetAccounted(a.cache, b.cache, FullKey(u, f.shape, f.versions), f.value, step.ttl, u.limits, a.now, step.gone);
    SameTrust(u, a, b);
    StoredOk(u, a, b, step);
  }

  /** Every entry held after a store is the stored one, with its origin, or one held before. */
  lemma StoredOk(u: Setup, a: World, b: World, step: Step)
    requires Coherent(u, a) && Next(u, a, b, step) && step.Store?
    requires var f := a.readers[step.reader];
             var v := Held(b.cache.entries, FullKey(u, f.shape, f.versions), b.now);
             v.Some? ==> v == Some(f.value)
    ensures EntriesOk(u, b)
  {
    var f := a.readers[step.reader];
    var k := FullKey(u, f.shape, f.versions);
    SameTrust(u, a, b);
    forall j | j != k ensures Held(b.cache.entries, j, b.now).Some? ==> Held(b.cache.entries, j, b.now) == Held(a.cache.entries, j, a.now) {
      SetsLeavesOthers(a.cache, b.cache, k, f.value, step.ttl, u.limits, a.now, step.gone, j);
    }
  }

  lemma SetsLeavesOthers(a: State, b: State, k: string, value: string, ttl: int, limits: Limits, now: int, gone: set<string>, j: string)
    requires Sets(a, b, k, value, ttl, limits, now, gone) && j != k
    ensures Held(b.entries, j, now).Some? ==> Held(b.entries, j, now) == Held(a.entries, j, now)
  {}

  lemma WriteKeeps(u: Setup, a: World, b: World, step: Step)
    requires Coherent(u, a) && Next(u, a, b, step) && step.Write?
    ensures Coherent(u, b)
  {
    forall o, value | Trusted(u, a, o, value) ensures Trusted(u, b, o, value) {
      TrustLasts(u, a, b, o, value);
    }
  }

  lemma InvalidateKeeps(u: Setup, a: World, b: World, step: Step)
    requires Coherent(u, a) && Next(u, a, b, step) && step.Invalidate?
    ensures Coherent(u, b)
  {
    var p := a.writers[step.writer];
    forall t
      ensures |History(b.covered, t)| == |History(b.cleared, t)| + Generation(b.cache.gens, t)
      ensures History(a.covered, t) <= History(b.covered, t)
      ensures forall n | n in History(b.covered, t) :: n <= b.written
    {
      BumpedCounts(a.cache.gens, a.covered, p.tags, p.at, t);
    }
    forall t {:trigger Generation(b.cache.gens, t)} ensures Generation(a.cache.gens, t) <= Generation(b.cache.gens, t) {
      assert |History(a.covered, t)| <= |History(b.covered, t)|;
    }
    forall o, value | Trusted(u, a, o, value) ensures Trusted(u, b, o, value) {
      TrustLasts(u, a, b, o, value);
    }
    RegenAccounted(a.cache, b.cache, a.now);
  }

  lemma RegenAccounted(a: State, b: State, now: int)
    requires Accounted(a, now) && b == a.(gens := b.gens)
    ensures Accounted(b, now)
  {
    OpenBooks(a, now);
  }

  lemma TickKeeps(u: Setup, a: World, b: World, step: Step)
    requires Coherent(u, a) && Next(u, a, b, step) && step.Tick?
    ensures Coherent(u, b)
  {
    TimePasses(a.cache, a.now, b.now);
    SameTrust(u, a, b);
    assert forall k :: Held(b.cache.entries, k, b.now).Some? ==> Held(b.cache.entries, k, b.now) == Held(a.cache.entries, k, a.now);
  }

  /** No read of a tagged shape is under way. */
  ghost predicate Quiet(u: Setup, w: World) {
    forall r | r in w.readers :: Tags(u, w.readers[r].shape) == []
  }

  /** Clearing forgets the generation counters; with no tagged read under way nothing remembers an old one. */
  lemma ClearKeeps(u: Setup, a: World, b: World, step: Step)
    requires Coherent(u, a) && Next(u, a, b, step) && step.Clear? && Quiet(u, a)
    ensures Coherent(u, b)
  {
    EmptyAccounted(a.now);
    forall r | r in b.readers ensures Seen(u, b.cache.gens, b.readers[r].shape, b.readers[r].versions) {
      assert Tags(u, b.readers[r].shape) == [];
    }
  }

  lemma StepKeeps(u: Setup, a: World, b: World, step: Step)
    requires Coherent(u, a) && Next(u, a, b, step) && (step.Clear? ==> Quiet(u, a))
    ensures Coherent(u, b)
  {
    match step
    case Lookup(_, _, _) => LookupKeeps(u, a, b, step);
    case ReadDb(_) => ReadKeeps(u, a, b, step);
    case Store(_, _, _) => StoreKeeps(u, a, b, step);
    case Write(_, _) => WriteKeeps(u, a, b, step);
    case Invalidate(_) => InvalidateKeeps(u, a, b, step);
    case Clear => ClearKeeps(u, a, b, step);
    case Tick(_) => TickKeeps(u, a, b, step);
  }

  // ---- runs ----

  ghost predicate Run(u: Setup, worlds: seq<World>, steps: seq<Step>) {
    && |worlds| == |steps| + 1
    && forall i | 0 <= i < |steps| :: Next(u, worlds[i], worlds[i + 1], steps[i])
  }

  /** Nothing cached, nobody active; writes may already have happened. */
  ghost predicate Initial(w: World) {
    && w.cache == EMPTY
    && w.readers == map[] && w.writers == map[] && w.covered == map[] && w.cleared == map[] && w.origins == map[]
  }

  /** The cache is cleared only while no tagged read is under way. */
  ghost predicate ClearsQuietly(u: Setup, worlds: seq<World>, steps: seq<Step>, n: nat)
    requires n <= |steps| <= |worlds|
  {
    forall i | 0 <= i < n && steps[i].Clear? :: Quiet(u, worlds[i])
  }

  lemma {:induction false} RunKeeps(u: Setup, worlds: seq<World>, steps: seq<Step>, n: nat)
    requires Run(u, worlds, steps) && Initial(worlds[0]) && n < |worlds| && ClearsQuietly(u, worlds, steps, n)
    ensures Coherent(u, worlds[n])
  {
    if n == 0 {
      EmptyAccounted(worlds[0].now);
    } else {
      RunKeeps(u, worlds, steps, n - 1);
      StepKeeps(u, worlds[n - 1], worlds[n], steps[n - 1]);
    }
  }

  /**
   Coherence: in every run that clears quietly, a hit is what the database answered after some number
   of writes, no fewer than any write whose invalidation under one of the read's
   tags has happened.
   */
  lemma HitsAreFresh(u: Setup, worlds: seq<World>, steps: seq<Step>, n: nat)
    requires Run(u, worlds, steps) && Initial(worlds[0]) && n < |steps| && ClearsQuietly(u, worlds, steps, n)
    requires steps[n].Lookup? && steps[n].hit.Some?
    ensures var w, shape := worlds[n], steps[n].shape;
            var k := FullKey(u, shape, Versions(w.cache.gens, Tags(u, shape)));
            && k in w.origins
            && var stamp := w.origins[k].stamp;
               && stamp <= w.written && steps[n].hit == Some(u.answer(shape, stamp))
               && Covers(u, w, shape, stamp)
               && forall t, at | t in u.tagsOf(shape) && t in w.covered && at in w.covered[t] :: at <= stamp
  {
    RunKeeps(u, worlds, steps, n);
    var w, shape := worlds[n], steps[n].shape;
    var vs := Versions(w.cache.gens, Tags(u, shape));
    var k := FullKey(u, shape, vs);
    assert Next(u, w, worlds[n + 1], steps[n]);
    assert Held(w.cache.entries, k, w.now) == steps[n].hit;
    var o := w.origins[k];
    FullKeyInjective(u, shape, vs, o.shape, o.versions);
    FreshCovers(u, w, shape, vs, o.stamp);
    forall t, at | t in u.tagsOf(shape) && t in w.covered && at in w.covered[t] ensures at <= o.stamp {
      assert at in History(w.covered, t);
    }
  }

  /** A read at `stamp` is after every write that has been invalidated under the shape's tags. */
  ghost predicate Covers(u: Setup, w: World, shape: string, stamp: nat) {
    forall t, n {:trigger n in History(w.covered, t)} | t in Tags(u, shape) && n in History(w.covered, t) :: n <= stamp
  }

  lemma FreshCovers(u: Setup, w: World, shape: string, vs: seq<nat>, stamp: nat)
    requires Counted(w) && vs == Versions(w.cache.gens, Tags(u, shape)) && Fresh(u, w, shape, vs, stamp)
    ensures Covers(u, w, shape, stamp)
  {
    var tags := Tags(u, shape);
    forall t, n | t in tags && n in History(w.covered, t) ensures n <= stamp {
      var i :| 0 <= i < |tags| && tags[i] == t;
      var g :| 0 <= g < |History(w.covered, t)| && History(w.covered, t)[g] == n;
      assert |History(w.cleared, t)| + vs[i] == |History(w.covered, t)|;
    }
  }

  lemma FullKeyInjective(u: Setup, s: string, vs: seq<nat>, t: string, ws: seq<nat>)
    requires FullKey(u, s, vs) == FullKey(u, t, ws)
    ensures s == t && vs == ws
  {
    var head := u.prefix + ":e:";
    assert EntryName(s, vs) == FullKey(u, s, vs)[|head|..];
    assert EntryName(t, ws) == FullKey(u, t, ws)[|head|..];
    EntryNameInjective(s, vs, t, ws);
  }

  // ---- a clear at any other time ----

  /** Some run leads from `a` to `b`. */
  ghost predicate Leads(u: Setup, a: World, b: World) {
    forall n: nat {:trigger Shown(n)} :: Shown(n) ==>
      exists worlds, steps :: Run(u, worlds, steps) && worlds[0] == a && worlds[|steps|] == b
  }

  lemma LeadsOn(u: Setup, a: World, b: World, c: World, step: Step)
    requires Leads(u, a, b) && Next(u, b, c, step)
    ensures Leads(u, a, c)
  {
    assert Shown(0);
    var worlds, steps :| Run(u, worlds, steps) && worlds[0] == a && worlds[|steps|] == b;
    assert Run(u, worlds + [c], steps + [step]);
  }

  /** A write under some tags, and its invalidation. */
  ghost function WrittenThrough(a: World, tags: seq<string>): World {
    a.(written := a.written + 1, cache := a.cache.(gens := Bumped(a.cache.gens, tags)), covered := Noted(a.covered, tags, a.written + 1))
  }

  lemma WriteLeads(u: Setup, w: World, a: World, tags: seq<string>)
    requires Leads(u, w, a)
    ensures Leads(u, w, WrittenThrough(a, tags))
  {
    var x := Unused(a.writers.Keys);
    var b := a.(written := a.written + 1, writers := a.writers[x := Pending(tags, a.written + 1)]);
    LeadsOn(u, w, a, b, Write(x, tags));
    assert b.writers - {x} == a.writers;
    LeadsOn(u, w, b, WrittenThrough(a, tags), Invalidate(x));
  }

  ghost function Unused(ids: set<nat>): (x: nat)
    ensures forall i | i in ids :: i < x
  {
    if ids == {} then 0
    else
      var i :| i in ids;
      assert forall j | j in ids && j != i :: j in ids - {i};
      var x := Unused(ids - {i});
      if i < x then x else i + 1
  }

  ghost function Times(t: string, n: nat): seq<string> {
    if n == 0 then [] else Times(t, n - 1) + [t]
  }

  /** Invalidations that bring generations from nothing to the given ones. */
  ghost function Bumps(tags: seq<string>, versions: seq<nat>): seq<string>
    requires |tags| == |versions|
  {
    if tags == [] then []
    else
      var n := |tags| - 1;
      var front := Bumps(tags[..n], versions[..n]);
      if tags[n] in tags[..n] then front else front + Times(tags[n], versions[n])
  }

  lemma {:induction false} TimesReach(gens: map<string, nat>, before: seq<string>, t: string, n: nat, other: string)
    ensures Generation(Bumped(gens, before + Times(t, n)), other) == Generation(Bumped(gens, before), other) + if other == t then n else 0
  {
    if n == 0 {
      assert before + Times(t, n) == before;
    } else {
      TimesReach(gens, before, t, n - 1, other);
      var all := before + Times(t, n);
      assert all[..|all| - 1] == before + Times(t, n - 1);
    }
  }

  lemma {:induction false} BumpsReach(tags: seq<string>, versions: seq<nat>, t: string)
    requires OneEach(tags, versions)
    ensures forall i | 0 <= i < |tags| && tags[i] == t :: Generation(Bumped(map[], Bumps(tags, versions)), t) == versions[i]
    ensures t !in tags ==> Generation(Bumped(map[], Bumps(tags, versions)), t) == 0
  {
    if tags != [] {
      var n := |tags| - 1;
      var front, rest := tags[..n], versions[..n];
      assert forall i | 0 <= i < n :: front[i] == tags[i] && rest[i] == versions[i];
      BumpsReach(front, rest, t);
      if tags[n] in front {
        var i :| 0 <= i < n && front[i] == tags[n];
        assert tags[i] == tags[n];
      } else {
        TimesReach(map[], Bumps(front, rest), tags[n], versions[n], t);
      }
    }
  }

  /** What a reader under way will store, if it reads the database now where it has not yet. */
  ghost function Carried(u: Setup, w: World, r: nat): (f: Reader)
    requires r in w.readers
    ensures f.Fetched? && f.shape == w.readers[r].shape && f.versions == w.readers[r].versions
  {
    match w.readers[r]
    case Missed(shape, vs) => Fetched(shape, vs, Answer(u, shape, w.written), w.written)
    case Fetched(_, _, _, _) => w.readers[r]
  }

  /** A hit on a value read before a write already invalidated under one of its tags. */
  ghost predicate StaleHit(u: Setup, a: World, b: World, step: Step) {
    && step.Lookup? && step.hit.Some? && Next(u, a, b, step)
    && var k := FullKey(u, step.shape, Versions(a.cache.gens, Tags(u, step.shape)));
       && k in a.origins
       && step.hit == Some(Answer(u, step.shape, a.origins[k].stamp))
       && !Covers(u, a, step.shape, a.origins[k].stamp)
  }

  lemma ReadLeads(u: Setup, w: World, r: nat)
    requires r in w.readers
    ensures Leads(u, w, w.(readers := w.readers[r := Carried(u, w, r)]))
  {
    assert Run(u, [w], []);
    if w.readers[r].Missed? {
      LeadsOn(u, w, w, w.(readers := w.readers[r := Carried(u, w, r)]), ReadDb(r));
    } else {
      assert w.readers[r := Carried(u, w, r)] == w.readers;
    }
  }

  /** A fetched value stored under generations that are current again is hit by the next lookup. */
  lemma StoreThenHit(u: Setup, w: World, a: World, r: nat) returns (b: World, c: World, step: Step)
    requires Leads(u, w, a) && r in a.readers && a.readers[r].Fetched?
    requires a.cache == EMPTY.(gens := a.cache.gens)
    requires var f := a.readers[r];
             && f.value == Answer(u, f.shape, f.stamp)
             && f.versions == Versions(a.cache.gens, Tags(u, f.shape))
             && !Oversized(FullKey(u, f.shape, f.versions), f.value, u.limits)
             && !Covers(u, a, f.shape, f.stamp)
    ensures Leads(u, w, b) && StaleHit(u, b, c, step)
  {
    var f := a.readers[r];
    var k := FullKey(u, f.shape, f.versions);
    var kept := Stored(Unlisted(a.cache, k), k, f.value, a.now + 1);
    KeptAlone(a.cache, k, f.value, a.now, u.limits);
    b := a.(cache := kept, readers := a.readers - {r}, origins := a.origins[k := Origin(f.shape, f.versions, f.stamp)]);
    LeadsOn(u, w, a, b, Store(r, 1, {}));
    step := Lookup(r, f.shape, Some(f.value));
    c := b.(cache := kept.(lru := kept.lru[k := kept.clock + 1], clock := kept.clock + 1));
    assert Next(u, b, c, step);
  }

  /** Into an empty cache anything that fits goes without evicting. */
  lemma KeptAlone(s: State, k: string, value: string, now: int, limits: Limits)
    requires s == EMPTY.(gens := s.gens) && !Oversized(k, value, limits)
    ensures Sets(s, Stored(Unlisted(s, k), k, value, now + 1), k, value, 1, limits, now, {})
  {
    var t := Stored(Unlisted(s, k), k, value, now + 1);
    assert t.lru.Keys - {} == {k};
    TotalOne(t.sizes, k);
    CountIsSize({k});
    assert Total(t.sizes, {}) == 0;
    assert Without(t, {}) == t;
  }

  /**
   What is read is kept: from a world with nothing cached, a lookup that misses, the
   read it makes and the store after it lead to a lookup that hits with the answer.
   */
  lemma ReadIsCached(u: Setup, w: World, r: nat, shape: string) returns (b: World, c: World, step: Step)
    requires w.cache == EMPTY.(gens := w.cache.gens) && r !in w.readers
    requires !Oversized(FullKey(u, shape, Versions(w.cache.gens, Tags(u, shape))), u.answer(shape, w.written), u.limits)
    ensures Leads(u, w, b) && Next(u, b, c, step)
    ensures step == Lookup(r, shape, Some(u.answer(shape, w.written)))
  {
    var vs, value := Versions(w.cache.gens, Tags(u, shape)), u.answer(shape, w.written);
    var k := FullKey(u, shape, vs);
    var missed := w.(readers := w.readers[r := Missed(shape, vs)]);
    var fetched := w.(readers := w.readers[r := Fetched(shape, vs, value, w.written)]);
    var kept := Stored(Unlisted(w.cache, k), k, value, w.now + 1);
    assert Run(u, [w], []);
    assert Unlisted(w.cache, k) == w.cache;
    LeadsOn(u, w, w, missed, Lookup(r, shape, None));
    assert missed.readers[r := Fetched(shape, vs, value, w.written)] == fetched.readers;
    LeadsOn(u, w, missed, fetched, ReadDb(r));
    KeptAlone(w.cache, k, value, w.now, u.limits);
    assert fetched.readers - {r} == w.readers;
    b := w.(cache := kept, origins := w.origins[k := Origin(shape, vs, w.written)]);
    LeadsOn(u, w, fetched, b, Store(r, 1, {}));
    step := Lookup(r, shape, Some(value));
    c := b.(cache := kept.(lru := kept.lru[k := kept.clock + 1], clock := kept.clock + 1));
  }

  /**
   The condition of `HitsAreFresh` cannot be dropped: from any coherent world in
   which a tagged read is under way whose value is small enough to be kept, some
   run with a clear leads to a stale hit.
   */
  lemma ClearUncovers(u: Setup, w: World, r: nat) returns (b: World, c: World, step: Step)
    requires Coherent(u, w) && r in w.readers && Tags(u, w.readers[r].shape) != []
    requires var f := Carried(u, w, r); !Oversized(FullKey(u, f.shape, f.versions), f.value, u.limits)
    ensures Leads(u, w, b) && StaleHit(u, b, c, step)
  {
    var f := Carried(u, w, r);
    var tags := Tags(u, f.shape);
    var read := w.(readers := w.readers[r := f]);
    ReadLeads(u, w, r);
    var done := WrittenThrough(read, [tags[0]]);
    WriteLeads(u, w, read, [tags[0]]);
    assert w.written + 1 in History(done.covered, tags[0]);
    b, c, step := ClearThenHit(u, w, done, r, w.written + 1);
  }

  /** A tagged read fetched before an invalidated write, carried over a clear. */
  lemma ClearThenHit(u: Setup, w: World, a: World, r: nat, n: nat) returns (b: World, c: World, step: Step)
    requires Leads(u, w, a) && r in a.readers && a.readers[r].Fetched?
    requires var f := a.readers[r];
             && f.value == Answer(u, f.shape, f.stamp)
             && OneEach(Tags(u, f.shape), f.versions)
             && !Oversized(FullKey(u, f.shape, f.versions), f.value, u.limits)
             && Tags(u, f.shape) != [] && n in History(a.covered, Tags(u, f.shape)[0]) && f.stamp < n
    ensures Leads(u, w, b) && StaleHit(u, b, c, step)
  {
    var f := a.readers[r];
    var tags := Tags(u, f.shape);
    var bumps := Bumps(tags, f.versions);
    var emptied := a.(cache := EMPTY, cleared := a.covered);
    LeadsOn(u, w, a, emptied, Clear);
    WriteLeads(u, w, emptied, bumps);
    var bumped := WrittenThrough(emptied, bumps);
    BumpedCounts(EMPTY.gens, a.covered, bumps, bumped.written, tags[0]);
    var g :| 0 <= g < |History(a.covered, tags[0])| && History(a.covered, tags[0])[g] == n;
    assert tags[0] in tags && History(bumped.covered, tags[0])[g] == n;
    assert !Covers(u, bumped, f.shape, f.stamp) by {
      assert n in History(bumped.covered, tags[0]);
    }
    forall i | 0 <= i < |tags| ensures Generation(bumped.cache.gens, tags[i]) == f.versions[i] {
      BumpsReach(tags, f.versions, tags[i]);
    }
    assert Versions(bumped.cache.gens, tags) == f.versions;
    b, c, step := StoreThenHit(u, w, bumped, r);
  }
}
