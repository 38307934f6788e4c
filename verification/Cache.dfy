/**
 The shared read cache: entries with expiries, a least-recently-used order, a
 size per entry, a byte total, a clock, and one generation counter per tag.
 Each method is one script, run atomically.
 */
module Cache {
  import opened Wrappers
  import opened Printing

  datatype Entry = Entry(value: string, exp: int)

  /** The most entries and bytes kept; 0 means no limit. */
  datatype Limits = Limits(maxEntries: nat, maxSize: nat)

  datatype State = State(
    entries: map<string, Entry>,
    lru: map<string, nat>,
    sizes: map<string, nat>,
    bytes: int,
    clock: nat,
    gens: map<string, nat>)

  /** What a read of an entry key finds: nothing once it has expired. */
  function Held(entries: map<string, Entry>, k: string, now: int): Option<string> {
    if k in entries && entries[k].exp > now then Some(entries[k].value) else None
  }

  /** An entry is held up to its expiry. */
  lemma HeldMeans(entries: map<string, Entry>, k: string, now: int, v: string)
    ensures Held(entries, k, now) == Some(v) <==> k in entries && entries[k].value == v && now < entries[k].exp
  {}

  function Generation(gens: map<string, nat>, tag: string): nat {
    if tag in gens then gens[tag] else 0
  }

  // ---- totals ----

  function SizeOf(sizes: map<string, nat>, k: string): nat {
    if k in sizes then sizes[k] else 0
  }

  /** The sum of the recorded sizes of `keys`. */
  ghost function Total(sizes: map<string, nat>, keys: set<string>): nat {
    if keys == {} then 0
    else SizeOf(sizes, Any(keys)) + Total(sizes, keys - {Any(keys)})
  }

  ghost function Any(keys: set<string>): (k: string)
    requires keys != {}
    ensures k in keys
  {
    var k :| k in keys; k
  }

  /** `|keys|`, counted one at a time. */
  ghost function Count(keys: set<string>): nat {
    if keys == {} then 0 else 1 + Count(keys - {Any(keys)})
  }

  lemma {:induction false} CountIsSize(keys: set<string>)
    ensures Count(keys) == |keys|
  {
    if keys != {} {
      CountIsSize(keys - {Any(keys)});
    }
  }

  lemma {:induction false} TotalRemove(sizes: map<string, nat>, keys: set<string>, k: string)
    requires k in keys
    ensures Total(sizes, keys) == SizeOf(sizes, k) + Total(sizes, keys - {k})
  {
    var first := Any(keys);
    if first != k {
      TotalRemove(sizes, keys - {first}, k);
      TotalRemove(sizes, keys - {k}, first);
      assert keys - {first} - {k} == keys - {k} - {first};
    }
  }

  lemma {:induction false} TotalAgrees(a: map<string, nat>, b: map<string, nat>, keys: set<string>)
    requires forall k | k in keys :: SizeOf(a, k) == SizeOf(b, k)
    ensures Total(a, keys) == Total(b, keys)
  {
    if keys != {} {
      TotalAgrees(a, b, keys - {Any(keys)});
    }
  }

  lemma {:induction false} TotalMonotone(sizes: map<string, nat>, fewer: set<string>, more: set<string>)
    requires fewer <= more
    ensures Total(sizes, fewer) <= Total(sizes, more)
    decreases |more|
  {
    if fewer == more {
    } else {
      var k :| k in more && k !in fewer;
      TotalRemove(sizes, more, k);
      TotalMonotone(sizes, fewer, more - {k});
    }
  }

  // ---- the invariant ----

  /** `a` was used less recently than `b`. */
  predicate Before(lru: map<string, nat>, a: string, b: string) {
    a in lru && b in lru && lru[a] < lru[b]
  }

  /** Scores are distinct numbers the clock has already given out. */
  ghost predicate Ordered(lru: map<string, nat>, clock: nat) {
    && (forall k {:trigger lru[k]} | k in lru :: lru[k] <= clock)
    && (forall j, k {:trigger Before(lru, j, k)} | j in lru && k in lru && j != k :: Before(lru, j, k) || Before(lru, k, j))
  }

  /** Every entry still held is in the accounts under its true size. */
  ghost predicate Covered(entries: map<string, Entry>, sizes: map<string, nat>, now: int) {
    forall k {:trigger Held(entries, k, now)} ::
      var v := Held(entries, k, now);
      v.Some? ==> k in sizes && sizes[k] == |k| + |v.value|
  }

  /** The accounts agree with each other and cover every entry still held. */
  ghost predicate Books(s: State, now: int) {
    && s.lru.Keys == s.sizes.Keys
    && s.bytes == Total(s.sizes, s.sizes.Keys)
    && Ordered(s.lru, s.clock)
    && Covered(s.entries, s.sizes, now)
  }

  /** `Books`, looked at only where `Shown` is mentioned. */
  ghost predicate Accounted(s: State, now: int) {
    forall n: nat {:trigger Shown(n)} :: Shown(n) ==> Books(s, now)
  }

  lemma TimePasses(s: State, now: int, later: int)
    requires Accounted(s, now) && now <= later
    ensures Accounted(s, later)
  {
    assert Shown(0);
    assert forall k :: Held(s.entries, k, later).Some? ==> Held(s.entries, k, now) == Held(s.entries, k, later);
  }

  lemma EmptyAccounted(now: int)
    ensures Accounted(State(map[], map[], map[], 0, 0, map[]), now)
  {}

  // ---- eviction ----

  /** Both limits hold for an index with these keys. */
  ghost predicate Fits(sizes: map<string, nat>, keys: set<string>, limits: Limits) {
    && (limits.maxEntries > 0 ==> Count(keys) <= limits.maxEntries)
    && (limits.maxSize > 0 ==> Total(sizes, keys) <= limits.maxSize)
  }

  /** Everything in `gone` was used less recently than everything else. */
  ghost predicate Oldest(lru: map<string, nat>, gone: set<string>) {
    && gone <= lru.Keys
    && forall a, b {:trigger Before(lru, a, b)} | a in gone && b in lru && b !in gone :: Before(lru, a, b)
  }

  /** The shortest least-recently-used prefix whose removal restores both limits. */
  ghost predicate Evicts(lru: map<string, nat>, sizes: map<string, nat>, limits: Limits, gone: set<string>) {
    && Oldest(lru, gone)
    && Fits(sizes, lru.Keys - gone, limits)
    && NoShorter(lru, sizes, limits, gone)
  }

  ghost predicate NoShorter(lru: map<string, nat>, sizes: map<string, nat>, limits: Limits, gone: set<string>) {
    forall less {:trigger Oldest(lru, less)} | less < gone && Oldest(lru, less) :: !Fits(sizes, lru.Keys - less, limits)
  }

  lemma BelowOldest(lru: map<string, nat>, gone: set<string>, x: string, y: string)
    requires Oldest(lru, gone) && x in lru && x !in gone && y in gone
    ensures Before(lru, y, x)
  {}

  lemma OldestNested(lru: map<string, nat>, a: set<string>, b: set<string>)
    requires Oldest(lru, a) && Oldest(lru, b)
    ensures a <= b || b <= a
  {
    if x :| x in a && x !in b {
      forall y | y in b ensures y in a {
        BelowOldest(lru, b, x, y);
        assert !Before(lru, x, y);
      }
    }
  }

  /** Which entries go is determined by the order, the sizes and the limits alone. */
  lemma EvictionIsExact(lru: map<string, nat>, sizes: map<string, nat>, limits: Limits, a: set<string>, b: set<string>)
    requires Evicts(lru, sizes, limits, a) && Evicts(lru, sizes, limits, b)
    ensures a == b
  {
    OldestNested(lru, a, b);
  }

  ghost predicate Least(lru: map<string, nat>, keys: set<string>, k: string)
  {
    k in keys && forall j {:trigger Before(lru, k, j)} | j in keys && j != k :: Before(lru, k, j)
  }

  lemma LeastScored(lru: map<string, nat>, clock: nat, keys: set<string>) returns (k: string)
    requires Ordered(lru, clock) && keys != {} && keys <= lru.Keys
    ensures Least(lru, keys, k)
    decreases |keys|
  {
    k :| k in keys;
    if keys != {k} {
      var m := LeastScored(lru, clock, keys - {k});
      assert forall j | j in keys && j != k && j != m :: j in keys - {k};
      if Before(lru, m, k) {
        k := m;
      } else {
        assert Before(lru, k, m);
        assert forall j | j in keys && j != k && j != m :: Before(lru, m, j);
      }
    }
  }

  lemma NoneBetween(gone: set<string>, next: string, less: set<string>)
    requires less < gone + {next} && gone <= less
    ensures less == gone
  {}

  lemma OldestGrows(lru: map<string, nat>, gone: set<string>, next: string)
    requires Oldest(lru, gone) && Least(lru, lru.Keys - gone, next)
    ensures Oldest(lru, gone + {next})
  {}

  /** One more turn of the eviction loop keeps every shorter prefix too short. */
  lemma OldestStep(lru: map<string, nat>, sizes: map<string, nat>, limits: Limits, gone: set<string>, next: string)
    requires Oldest(lru, gone) && Least(lru, lru.Keys - gone, next)
    requires NoShorter(lru, sizes, limits, gone) && !Fits(sizes, lru.Keys - gone, limits)
    ensures Oldest(lru, gone + {next}) && NoShorter(lru, sizes, limits, gone + {next})
  {
    OldestGrows(lru, gone, next);
    forall less | less < gone + {next} && Oldest(lru, less) ensures !Fits(sizes, lru.Keys - less, limits) {
      OldestNested(lru, less, gone);
      if gone <= less {
        NoneBetween(gone, next, less);
      }
    }
  }

  lemma NewestTakesAll(lru: map<string, nat>, gone: set<string>, key: string)
    requires Oldest(lru, gone) && key in gone && forall j {:trigger Before(lru, j, key)} | j in lru && j != key :: Before(lru, j, key)
    ensures gone == lru.Keys
  {
    forall b | b in lru ensures b in gone {
      if b != key {
        assert Before(lru, b, key) && !Before(lru, key, b);
      }
    }
  }

  /** The newest entry, small enough on its own, is never in the prefix removed. */
  lemma NewestStays(lru: map<string, nat>, sizes: map<string, nat>, limits: Limits, gone: set<string>, key: string)
    requires Evicts(lru, sizes, limits, gone)
    requires key in lru && forall j {:trigger Before(lru, j, key)} | j in lru && j != key :: Before(lru, j, key)
    requires limits.maxSize > 0 ==> SizeOf(sizes, key) <= limits.maxSize
    ensures key !in gone
  {
    var less := lru.Keys - {key};
    assert lru.Keys - less == {key};
    TotalOne(sizes, key);
    CountIsSize({key});
    assert Oldest(lru, less) && Fits(sizes, lru.Keys - less, limits);
    if key in gone {
      NewestTakesAll(lru, gone, key);
    }
  }

  // ---- what each script does to the state ----

  predicate Oversized(k: string, value: string, limits: Limits) {
    limits.maxSize > 0 && |k| + |value| > limits.maxSize
  }

  function AtLeastOne(ttl: int): int {
    if ttl < 1 then 1 else ttl
  }

  /** The index row of `k` gone, and its size taken off the total. */
  ghost function Unlisted(s: State, k: string): State {
    s.(lru := s.lru - {k}, sizes := s.sizes - {k}, bytes := s.bytes - SizeOf(s.sizes, k))
  }

  ghost function Dropped(s: State, k: string): State {
    Unlisted(s, k).(entries := s.entries - {k})
  }

  /** The new entry stored and listed as the most recent, nothing evicted yet. */
  ghost function Stored(s: State, k: string, value: string, exp: int): State {
    State(s.entries[k := Entry(value, exp)], s.lru[k := s.clock + 1], s.sizes[k := |k| + |value|],
          s.bytes + |k| + |value|, s.clock + 1, s.gens)
  }

  ghost function Without(s: State, gone: set<string>): State {
    s.(entries := s.entries - gone, lru := s.lru - gone, sizes := s.sizes - gone, bytes := s.bytes - Total(s.sizes, gone))
  }

  /** `SET`: an oversized value only removes; otherwise store, then evict exactly `gone`. */
  ghost predicate Sets(a: State, b: State, k: string, value: string, ttl: int, limits: Limits, now: int, gone: set<string>) {
    if Oversized(k, value, limits)
    then b == Dropped(a, k)
    else Trimmed(Stored(Unlisted(a, k), k, value, now + AtLeastOne(ttl)), b, k, limits, gone)
  }

  /** Exactly the entries over the limits are gone, and not the one under `k`. */
  ghost predicate Trimmed(s: State, b: State, k: string, limits: Limits, gone: set<string>) {
    Evicts(s.lru, s.sizes, limits, gone) && k !in gone && b == Without(s, gone)
  }

  /**
   After a set the entry is the newest and, unless it is too large, is held for its
   lifetime, at least one; what else is still listed keeps its place and its value.
   */
  ghost predicate Keeps(a: State, b: State, k: string, value: string, ttl: int, maxSize: nat, now: int) {
    if maxSize > 0 && |k| + |value| > maxSize then k !in b.entries && k !in b.lru
    else
      && k in b.entries && b.entries[k] == Entry(value, now + if ttl < 1 then 1 else ttl)
      && k in b.lru
      && (forall j | j in b.lru && j != k :: j in a.lru && b.lru[j] == a.lru[j] && b.lru[j] < b.lru[k])
      && (forall j | j in b.entries && j != k :: j in a.entries && b.entries[j] == a.entries[j])
  }

  lemma SetKeeps(a: State, b: State, k: string, value: string, ttl: int, limits: Limits, now: int, gone: set<string>)
    requires Accounted(a, now) && Sets(a, b, k, value, ttl, limits, now, gone)
    ensures Keeps(a, b, k, value, ttl, limits.maxSize, now)
  {
    OpenBooks(a, now);
    if !Oversized(k, value, limits) {
      var s := Stored(Unlisted(a, k), k, value, now + AtLeastOne(ttl));
      assert b == Without(s, gone) && k !in gone;
      forall j | j in b.lru && j != k ensures j in a.lru && b.lru[j] == a.lru[j] && b.lru[j] < b.lru[k] {
        assert a.lru[j] <= a.clock;
      }
    }
  }

  /** A hit makes the entry the newest and leaves the rest in place; a miss takes its index row away. */
  ghost predicate Touches(a: State, b: State, k: string, hit: bool) {
    && b.entries == a.entries
    && (forall j | j in a.lru && j != k :: j in b.lru && b.lru[j] == a.lru[j])
    && (hit ==> k in b.lru && forall j | j in b.lru && j != k :: b.lru[j] < b.lru[k])
    && (!hit ==> k !in b.lru && k !in b.sizes)
  }

  lemma GetTouches(a: State, b: State, k: string, now: int, r: Option<string>)
    requires Accounted(a, now) && Gets(a, b, k, now, r)
    ensures Touches(a, b, k, r.Some?)
  {
    OpenBooks(a, now);
    if r.Some? {
      assert k in a.sizes;
      forall j | j in b.lru && j != k ensures b.lru[j] < b.lru[k] {
        assert a.lru[j] <= a.clock;
      }
    }
  }

  /** `GET`: a hit takes the next clock number; a miss drops the index row. */
  ghost predicate Gets(a: State, b: State, k: string, now: int, r: Option<string>) {
    && r == Held(a.entries, k, now)
    && if r.Some? then b == a.(lru := if k in a.lru then a.lru[k := a.clock + 1] else a.lru, clock := a.clock + 1)
       else b == Unlisted(a, k)
  }

  // ---- each script keeps the accounts ----

  lemma OpenBooks(s: State, now: int)
    requires Accounted(s, now)
    ensures s.lru.Keys == s.sizes.Keys && s.bytes == Total(s.sizes, s.sizes.Keys)
    ensures Ordered(s.lru, s.clock) && Covered(s.entries, s.sizes, now)
  {
    assert Shown(0);
  }

  lemma OrderedLess(lru: map<string, nat>, clock: nat, gone: set<string>)
    requires Ordered(lru, clock)
    ensures Ordered(lru - gone, clock)
  {
    assert forall i, j {:trigger Before(lru - gone, i, j)} | i in lru - gone && j in lru - gone ::
        Before(lru - gone, i, j) == Before(lru, i, j);
  }

  lemma OrderedMore(lru: map<string, nat>, clock: nat, k: string)
    requires Ordered(lru, clock)
    ensures Ordered(lru[k := clock + 1], clock + 1) && Ordered(lru, clock + 1)
    ensures forall j {:trigger Before(lru[k := clock + 1], j, k)} | j in lru && j != k :: Before(lru[k := clock + 1], j, k)
  {
    assert forall i, j {:trigger Before(lru[k := clock + 1], i, j)} | i in lru && j in lru && i != k && j != k ::
        Before(lru[k := clock + 1], i, j) == Before(lru, i, j);
  }

  lemma CoveredLess(entries: map<string, Entry>, sizes: map<string, nat>, gone: set<string>, now: int)
    requires Covered(entries, sizes, now)
    ensures Covered(entries - gone, sizes - gone, now)
    ensures (forall k | k in gone :: Held(entries, k, now).None?) ==> Covered(entries, sizes - gone, now)
  {
    assert forall k {:trigger Held(entries - gone, k, now)} :: Held(entries - gone, k, now) == if k in gone then None else Held(entries, k, now);
  }

  lemma CoveredMore(entries: map<string, Entry>, sizes: map<string, nat>, k: string, value: string, exp: int, now: int)
    requires Covered(entries - {k}, sizes - {k}, now)
    ensures Covered(entries[k := Entry(value, exp)], (sizes - {k})[k := |k| + |value|], now)
  {
    var more := entries[k := Entry(value, exp)];
    assert forall j {:trigger Held(more, j, now)} | j != k :: Held(more, j, now) == Held(entries - {k}, j, now);
  }

  lemma TotalLess(sizes: map<string, nat>, gone: set<string>)
    requires gone <= sizes.Keys
    ensures Total(sizes - gone, (sizes - gone).Keys) == Total(sizes, sizes.Keys) - Total(sizes, gone)
    ensures Total(sizes, sizes.Keys - gone) == Total(sizes - gone, (sizes - gone).Keys)
  {
    assert (sizes - gone).Keys == sizes.Keys - gone;
    TotalAgrees(sizes - gone, sizes, sizes.Keys - gone);
    TotalSplit(sizes, sizes.Keys, gone);
  }

  lemma {:induction false} TotalSplit(sizes: map<string, nat>, keys: set<string>, gone: set<string>)
    requires gone <= keys
    ensures Total(sizes, keys) == Total(sizes, gone) + Total(sizes, keys - gone)
    decreases |gone|
  {
    if gone == {} {
      assert keys - gone == keys;
    } else {
      var k := Any(gone);
      TotalRemove(sizes, keys, k);
      TotalSplit(sizes, keys - {k}, gone - {k});
      assert keys - {k} - (gone - {k}) == keys - gone;
    }
  }

  lemma TotalOne(sizes: map<string, nat>, k: string)
    ensures Total(sizes, {k}) == SizeOf(sizes, k)
  {
    TotalRemove(sizes, {k}, k);
    assert {k} - {k} == {};
  }

  lemma TotalMore(sizes: map<string, nat>, k: string, size: nat)
    requires k !in sizes
    ensures Total(sizes[k := size], sizes[k := size].Keys) == Total(sizes, sizes.Keys) + size
  {
    var more := sizes[k := size];
    TotalRemove(more, more.Keys, k);
    assert more.Keys - {k} == sizes.Keys;
    TotalAgrees(more, sizes, sizes.Keys);
  }

  lemma UnlistedBytes(s: State, k: string)
    requires s.bytes == Total(s.sizes, s.sizes.Keys)
    ensures Unlisted(s, k).bytes == Total(s.sizes - {k}, (s.sizes - {k}).Keys)
  {
    if k in s.sizes {
      TotalLess(s.sizes, {k});
      TotalOne(s.sizes, k);
    } else {
      assert s.sizes - {k} == s.sizes;
    }
  }

  lemma UnlistedAccounted(a: State, k: string, now: int)
    requires Accounted(a, now)
    ensures Accounted(Dropped(a, k), now)
    ensures Held(a.entries, k, now).None? ==> Accounted(Unlisted(a, k), now)
  {
    OpenBooks(a, now);
    UnlistedBytes(a, k);
    OrderedLess(a.lru, a.clock, {k});
    CoveredLess(a.entries, a.sizes, {k}, now);
  }

  lemma StoredAccounted(a: State, k: string, value: string, exp: int, now: int)
    requires Accounted(a, now)
    ensures Accounted(Stored(Unlisted(a, k), k, value, exp), now)
  {
    var s := Stored(Unlisted(a, k), k, value, exp);
    OpenBooks(a, now);
    UnlistedBytes(a, k);
    TotalMore(a.sizes - {k}, k, |k| + |value|);
    assert s.lru.Keys == s.sizes.Keys;
    assert Ordered(s.lru, s.clock) by {
      OrderedLess(a.lru, a.clock, {k});
      OrderedMore(a.lru - {k}, a.clock, k);
    }
    assert Covered(s.entries, s.sizes, now) by {
      CoveredLess(a.entries, a.sizes, {k}, now);
      CoveredMore(a.entries, a.sizes, k, value, exp, now);
    }
  }

  lemma TrimmedAccounted(s: State, b: State, k: string, limits: Limits, gone: set<string>, now: int)
    requires Accounted(s, now) && Trimmed(s, b, k, limits, gone)
    ensures Accounted(b, now) && Fits(b.sizes, b.sizes.Keys, limits)
    ensures Held(b.entries, k, now) == Held(s.entries, k, now)
  {
    OpenBooks(s, now);
    assert gone <= s.sizes.Keys;
    TotalLess(s.sizes, gone);
    assert b.sizes.Keys == s.lru.Keys - gone == b.lru.Keys;
    OrderedLess(s.lru, s.clock, gone);
    CoveredLess(s.entries, s.sizes, gone, now);
    assert Books(b, now);
  }

  /** The eviction a set makes never reaches the entry just stored. */
  lemma StoredStays(a: State, k: string, value: string, exp: int, now: int, limits: Limits, gone: set<string>)
    requires Accounted(a, now) && !Oversized(k, value, limits)
    requires var s := Stored(Unlisted(a, k), k, value, exp); Evicts(s.lru, s.sizes, limits, gone)
    ensures k !in gone
  {
    OpenBooks(a, now);
    OrderedLess(a.lru, a.clock, {k});
    OrderedMore(a.lru - {k}, a.clock, k);
    var s := Stored(Unlisted(a, k), k, value, exp);
    NewestStays(s.lru, s.sizes, limits, gone, k);
  }

  /** A set keeps the accounts, and afterwards both limits hold for what is listed. */
  lemma SetAccounted(a: State, b: State, k: string, value: string, ttl: int, limits: Limits, now: int, gone: set<string>)
    requires Accounted(a, now) && Sets(a, b, k, value, ttl, limits, now, gone)
    ensures Accounted(b, now)
    ensures !Oversized(k, value, limits) ==> Fits(b.sizes, b.sizes.Keys, limits)
    ensures Held(b.entries, k, now) == if Oversized(k, value, limits) then None else Some(value)
  {
    if Oversized(k, value, limits) {
      UnlistedAccounted(a, k, now);
    } else {
      var s := Stored(Unlisted(a, k), k, value, now + AtLeastOne(ttl));
      StoredAccounted(a, k, value, now + AtLeastOne(ttl), now);
      TrimmedAccounted(s, b, k, limits, gone, now);
    }
  }

  lemma GetAccounted(a: State, b: State, k: string, now: int, r: Option<string>)
    requires Accounted(a, now) && Gets(a, b, k, now, r)
    ensures Accounted(b, now) && b.entries == a.entries && b.gens == a.gens
  {
    if r.None? {
      UnlistedAccounted(a, k, now);
    } else {
      OpenBooks(a, now);
      OrderedMore(a.lru, a.clock, k);
      assert k in a.sizes;
      assert b.lru.Keys == a.lru.Keys;
      assert Books(b, now);
    }
  }

  lemma MinusTwice<V>(m: map<string, V>, gone: set<string>, next: string)
    ensures m - (gone + {next}) == m - gone - {next}
  {}

  /** One turn of the eviction loop, as a step of `Without`. */
  lemma EvictOne(s: State, gone: set<string>, next: string)
    requires s.lru.Keys == s.sizes.Keys && next in s.lru.Keys - gone
    ensures next in Without(s, gone).sizes
    ensures Without(s, gone + {next}) == Dropped(Without(s, gone), next)
  {
    TotalRemove(s.sizes, gone + {next}, next);
    assert gone + {next} - {next} == gone;
    MinusTwice(s.entries, gone, next);
    MinusTwice(s.lru, gone, next);
    MinusTwice(s.sizes, gone, next);
  }

  lemma CountOne(s: State, gone: set<string>, next: string)
    requires next in s.lru.Keys - gone
    ensures Count(s.lru.Keys - (gone + {next})) == Count(s.lru.Keys - gone) - 1
    ensures Total(s.sizes, s.lru.Keys - gone) == SizeOf(s.sizes, next) + Total(s.sizes, s.lru.Keys - (gone + {next}))
  {
    TotalRemove(s.sizes, s.lru.Keys - gone, next);
    assert s.lru.Keys - (gone + {next}) == s.lru.Keys - gone - {next};
    CountIsSize(s.lru.Keys - gone);
    CountIsSize(s.lru.Keys - gone - {next});
  }

  lemma ListedKeys(s: State, gone: set<string>, next: string)
    requires Least(s.lru - gone, (s.lru - gone).Keys, next)
    ensures Least(s.lru, s.lru.Keys - gone, next)
  {
    assert (s.lru - gone).Keys == s.lru.Keys - gone;
    assert forall j {:trigger Before(s.lru, next, j)} :: Before(s.lru - gone, next, j) ==> Before(s.lru, next, j);
  }

  /** An oldest prefix, every shorter one of which leaves too much. */
  ghost predicate TooFew(s: State, limits: Limits, gone: set<string>) {
    Oldest(s.lru, gone) && NoShorter(s.lru, s.sizes, limits, gone)
  }

  /** The eviction loop under way: `gone` dropped from `s` so far. */
  ghost predicate Evicting(t: State, s: State, limits: Limits, gone: set<string>) {
    && t == Without(s, gone)
    && TooFew(s, limits, gone)
    && t.bytes == Total(s.sizes, s.lru.Keys - gone)
    && s.lru.Keys == s.sizes.Keys
    && Ordered(s.lru, s.clock)
  }

  lemma EvictStart(s: State, limits: Limits, now: int)
    requires Accounted(s, now)
    ensures Evicting(s, s, limits, {}) && |s.lru| == Count(s.lru.Keys - {})
  {
    OpenBooks(s, now);
    assert s.lru.Keys - {} == s.lru.Keys;
    assert s.entries - {} == s.entries && s.lru - {} == s.lru && s.sizes - {} == s.sizes;
    CountIsSize(s.lru.Keys);
  }

  lemma EvictDone(t: State, s: State, limits: Limits, gone: set<string>)
    requires Evicting(t, s, limits, gone) && Fits(s.sizes, s.lru.Keys - gone, limits)
    ensures Evicts(s.lru, s.sizes, limits, gone) && t == Without(s, gone)
  {}

  lemma EvictStep(s: State, limits: Limits, gone: set<string>, next: string)
    requires s.lru.Keys == s.sizes.Keys && Least(s.lru - gone, (s.lru - gone).Keys, next)
    requires TooFew(s, limits, gone) && !Fits(s.sizes, s.lru.Keys - gone, limits)
    ensures TooFew(s, limits, gone + {next})
    ensures Without(s, gone + {next}) == Dropped(Without(s, gone), next)
    ensures Count(s.lru.Keys - (gone + {next})) == Count(s.lru.Keys - gone) - 1
    ensures SizeOf((s.sizes - gone), next) == SizeOf(s.sizes, next)
    ensures Total(s.sizes, s.lru.Keys - gone) == SizeOf(s.sizes, next) + Total(s.sizes, s.lru.Keys - (gone + {next}))
  {
    ListedKeys(s, gone, next);
    OldestStep(s.lru, s.sizes, limits, gone, next);
    EvictOne(s, gone, next);
    CountOne(s, gone, next);
  }

  lemma EmptyFits(s: State, gone: set<string>)
    requires s.lru - gone == map[]
    ensures s.lru.Keys - gone == {}
    ensures Count(s.lru.Keys - gone) == 0 && Total(s.sizes, s.lru.Keys - gone) == 0
  {
    assert (s.lru - gone).Keys == s.lru.Keys - gone;
  }

  // ---- what the limits bound ----

  ghost function HeldKeys(s: State, now: int): set<string> {
    set k | k in s.entries && Held(s.entries, k, now).Some?
  }

  ghost function EntrySizes(s: State): map<string, nat> {
    map k | k in s.entries :: |k| + |s.entries[k].value|
  }

  /** The accounts overstate what is held, so the limits bound the entries themselves. */
  lemma LimitsBoundEntries(s: State, limits: Limits, now: int)
    requires Accounted(s, now) && Fits(s.sizes, s.sizes.Keys, limits)
    ensures limits.maxEntries > 0 ==> |HeldKeys(s, now)| <= limits.maxEntries
    ensures limits.maxSize > 0 ==> Total(EntrySizes(s), HeldKeys(s, now)) <= limits.maxSize
  {
    assert Shown(0);
    var held := HeldKeys(s, now);
    assert held <= s.sizes.Keys;
    FewerKeys(held, s.sizes.Keys);
    CountIsSize(s.sizes.Keys);
    TotalAgrees(EntrySizes(s), s.sizes, held);
    TotalMonotone(s.sizes, held, s.sizes.Keys);
  }

  lemma {:induction false} FewerKeys(a: set<string>, b: set<string>)
    requires a <= b
    ensures |a| <= |b|
    decreases |a|
  {
    if a != {} {
      var k :| k in a;
      FewerKeys(a - {k}, b - {k});
    }
  }

  // ---- keys and generations ----

  ghost function Bumped(gens: map<string, nat>, tags: seq<string>): map<string, nat> {
    if tags == [] then gens
    else
      var g := Bumped(gens, tags[..|tags| - 1]);
      g[tags[|tags| - 1] := Generation(g, tags[|tags| - 1]) + 1]
  }

  /** Each mention of a tag counts one, from zero. */
  lemma {:induction false} BumpedMeans(gens: map<string, nat>, tags: seq<string>, t: string)
    ensures Generation(Bumped(gens, tags), t) == (if t in gens then gens[t] else 0) + multiset(tags)[t]
  {
    if tags != [] {
      BumpedMeans(gens, tags[..|tags| - 1], t);
      assert tags == tags[..|tags| - 1] + [tags[|tags| - 1]];
    }
  }

  function Versions(gens: map<string, nat>, tags: seq<string>): (vs: seq<nat>)
    ensures |vs| == |tags| && forall i | 0 <= i < |tags| :: vs[i] == Generation(gens, tags[i])
  {
    seq(|tags|, i requires 0 <= i < |tags| => Generation(gens, tags[i]))
  }

  /** The key a read lives under: its shape, then the generation of each of its tags. */
  function EntryName(shape: string, versions: seq<nat>): string {
    shape + [':'] + Printed(versions)
  }

  /** A key names one shape and one list of generations, whatever characters the shape holds. */
  lemma EntryNameInjective(s: string, vs: seq<nat>, t: string, ws: seq<nat>)
    requires EntryName(s, vs) == EntryName(t, ws)
    ensures s == t && vs == ws
  {
    PrintedChars(vs);
    PrintedChars(ws);
    CutAtLast(s, t, Printed(vs), Printed(ws), ':');
    PrintedInjective(vs, ws);
  }

  // ---- the store ----

  class IORedisCacheStore {
    const prefix: string
    const limits: Limits
    var entries: map<string, Entry>
    var lru: map<string, nat>
    var sizes: map<string, nat>
    var bytes: int
    var clock: nat
    var gens: map<string, nat>

    ghost function Contents(): State
      reads this
    {
      State(entries, lru, sizes, bytes, clock, gens)
    }

    function EntryKey(key: string): string {
      prefix + ":e:" + key
    }

    constructor (prefix: string, limits: Limits)
      ensures Contents() == State(map[], map[], map[], 0, 0, map[])
      ensures this.prefix == prefix && this.limits == limits
    {
      this.prefix, this.limits := prefix, limits;
      entries, lru, sizes, bytes, clock, gens := map[], map[], map[], 0, 0, map[];
    }

    method Set(key: string, value: string, ttl: int, now: int) returns (ghost gone: set<string>)
      requires Accounted(Contents(), now)
      modifies this
      ensures Accounted(Contents(), now)
      ensures Sets(old(Contents()), Contents(), EntryKey(key), value, ttl, limits, now, gone)
      ensures Keeps(old(Contents()), Contents(), prefix + ":e:" + key, value, ttl, limits.maxSize, now)
    {
      var k := EntryKey(key);
      var size := |k| + |value|;
      ghost var before := Contents();
      Unlist(k);
      if limits.maxSize > 0 && size > limits.maxSize {
        entries := entries - {k};
        gone := {};
        SetAccounted(before, Contents(), k, value, ttl, limits, now, gone);
      } else {
        gone := Store(k, value, AtLeastOne(ttl), now, before);
        SetAccounted(before, Contents(), k, value, ttl, limits, now, gone);
      }
      SetKeeps(before, Contents(), k, value, ttl, limits, now, gone);
    }

    /** The second half of `SET`: store, list as most recent, evict. */
    method Store(k: string, value: string, ttl: int, now: int, ghost before: State) returns (ghost gone: set<string>)
      requires Contents() == Unlisted(before, k) && Accounted(before, now) && !Oversized(k, value, limits)
      modifies this
      ensures Trimmed(Stored(Unlisted(before, k), k, value, now + ttl), Contents(), k, limits, gone)
    {
      List(k, value, now + ttl, before);
      StoredAccounted(before, k, value, now + ttl, now);
      gone := Evict(now);
      StoredStays(before, k, value, now + ttl, now, limits, gone);
    }

    /** Store the entry and list it as the most recent. */
    method List(k: string, value: string, exp: int, ghost before: State)
      requires Contents() == Unlisted(before, k)
      modifies this
      ensures Contents() == Stored(Unlisted(before, k), k, value, exp)
    {
      entries := entries[k := Entry(value, exp)];
      clock := clock + 1;
      lru := lru[k := clock];
      sizes := sizes[k := |k| + |value|];
      bytes := bytes + |k| + |value|;
    }

    /** Take an entry's index row away, if there is one. */
    method Unlist(k: string)
      modifies this`lru, this`sizes, this`bytes
      ensures Contents() == Unlisted(old(Contents()), k)
    {
      if k in sizes {
        bytes := bytes - sizes[k];
        sizes := sizes - {k};
      }
      lru := lru - {k};
    }

    /** The eviction loop. */
    method Evict(ghost now: int) returns (ghost gone: set<string>)
      requires Accounted(Contents(), now)
      modifies this
      ensures Evicts(old(lru), old(sizes), limits, gone)
      ensures Contents() == Without(old(Contents()), gone)
    {
      gone := {};
      var total, count := bytes, |lru|;
      ghost var s := Contents();
      EvictStart(s, limits, now);
      while (limits.maxEntries > 0 && count > limits.maxEntries) || (limits.maxSize > 0 && total > limits.maxSize)
        invariant Evicting(Contents(), s, limits, gone)
        invariant total == bytes && count == Count(s.lru.Keys - gone)
        decreases count
      {
        if lru == map[] {
          EmptyFits(s, gone);
          break;
        }
        gone := DropOldest(s, gone);
        total := bytes;
        count := count - 1;
      }
      EvictDone(Contents(), s, limits, gone);
    }

    /** One turn of the loop: drop the least recently used entry, its index rows and its size. */
    method DropOldest(ghost s: State, ghost gone: set<string>) returns (ghost further: set<string>)
      requires Evicting(Contents(), s, limits, gone)
      requires lru != map[] && !Fits(s.sizes, s.lru.Keys - gone, limits)
      modifies this
      ensures Evicting(Contents(), s, limits, further)
      ensures Count(s.lru.Keys - further) == Count(s.lru.Keys - gone) - 1
    {
      OrderedLess(s.lru, s.clock, gone);
      var oldest := First(s.clock);
      EvictStep(s, limits, gone, oldest);
      Drop(oldest);
      further := gone + {oldest};
    }

    method Drop(k: string)
      modifies this`lru, this`sizes, this`bytes, this`entries
      ensures Contents() == Dropped(old(Contents()), k)
    {
      Unlist(k);
      entries := entries - {k};
    }

    /** The entry with the lowest score. */
    method First(ghost clock: nat) returns (k: string)
      requires Ordered(lru, clock) && lru != map[]
      ensures Least(lru, lru.Keys, k)
    {
      ghost var least := LeastScored(lru, clock, lru.Keys);
      k :| k in lru && forall j | j in lru && j != k :: Before(lru, k, j);
    }

    method Get(key: string, now: int) returns (r: Option<string>)
      requires Accounted(Contents(), now)
      modifies this
      ensures Accounted(Contents(), now)
      ensures Gets(old(Contents()), Contents(), EntryKey(key), now, r)
      ensures Touches(old(Contents()), Contents(), prefix + ":e:" + key, r.Some?)
    {
      r := Touch(EntryKey(key), now);
    }

    /** What `GET` and `LOOKUP` do with the entry. */
    method Touch(k: string, now: int) returns (r: Option<string>)
      requires Accounted(Contents(), now)
      modifies this
      ensures Accounted(Contents(), now)
      ensures Gets(old(Contents()), Contents(), k, now, r)
      ensures Touches(old(Contents()), Contents(), k, r.Some?)
    {
      ghost var before := Contents();
      r := Held(entries, k, now);
      if r.Some? {
        clock := clock + 1;
        if k in lru {
          lru := lru[k := clock];
        }
      } else {
        Unlist(k);
      }
      GetAccounted(before, Contents(), k, now, r);
      GetTouches(before, Contents(), k, now, r);
    }

    /** The generations and the entry in one step: the key to store a missed read under, and the value if held. */
    method Lookup(shape: string, tags: seq<string>, now: int) returns (key: string, r: Option<string>)
      requires Accounted(Contents(), now)
      modifies this
      ensures Accounted(Contents(), now)
      ensures key == EntryName(shape, Versions(old(gens), tags))
      ensures Gets(old(Contents()), Contents(), EntryKey(key), now, r)
      ensures Touches(old(Contents()), Contents(), prefix + ":e:" + key, r.Some?)
    {
      var parts := [];
      for i := 0 to |tags|
        invariant parts == Decimals(Versions(gens, tags[..i]))
      {
        parts := parts + [Decimal(Generation(gens, tags[i]))];
      }
      assert tags[..|tags|] == tags;
      var suffix := Join(parts, '.');
      key := shape + [':'] + suffix;
      var entry := (EntryKey(shape) + [':']) + suffix;
      assert entry == EntryKey(key);
      r := Touch(entry, now);
    }

    /** Make every read under these tags unreachable. */
    method Invalidate(tags: seq<string>)
      modifies this
      ensures Contents() == old(Contents()).(gens := Bumped(old(gens), tags))
      ensures forall t :: Generation(gens, t) == Generation(old(gens), t) + multiset(tags)[t]
    {
      for i := 0 to |tags|
        invariant Contents() == old(Contents()).(gens := Bumped(old(gens), tags[..i]))
      {
        assert tags[..i + 1][..i] == tags[..i];
        gens := gens[tags[i] := Generation(gens, tags[i]) + 1];
      }
      assert tags[..|tags|] == tags;
      forall t ensures Generation(gens, t) == Generation(old(gens), t) + multiset(tags)[t] {
        BumpedMeans(old(gens), tags, t);
      }
    }
  }
}
