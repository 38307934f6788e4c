/**
 The key-value store under the adapter: strings, sorted sets and sets, with
 expiries on strings, one command at a time.
 */
module Redis {
  import opened Wrappers
  import opened Filters

  /** One key of the adapter's keyspace, by family. */
  datatype Key =
    | Obj(model: string, id: string)
    | Ids(model: string)
    | Index(model: string, field: string, segment: string)
    | Unique(model: string, field: string, segment: string)
    | Member(model: string, id: string)
    | Seq(model: string)

  /** An expiry instant in milliseconds, or none (`+inf`). */
  datatype Score = At(t: int) | Never

  /** What a string key can hold: a serialized row, an id, or a counter. */
  datatype Data = RowData(row: Row) | IdData(id: string) | Count(n: int)

  datatype Cell = Cell(data: Data, exp: Score)

  datatype Db = Db(strs: map<Key, Cell>, zsets: map<Key, map<string, Score>>, sets: map<Key, set<Key>>)

  predicate Alive(s: Score, now: int) {
    s.Never? || s.t > now
  }

  /** The absolute expiry of a TTL: `ttlToScore`. */
  function Deadline(ttl: Option<int>, now: int): Score {
    if ttl.Some? && ttl.value > 0 then At(now + ttl.value) else Never
  }

  // ---- lookups, with a missing key read as empty ----

  function CellAt(db: Db, k: Key): Option<Cell> {
    if k in db.strs then Some(db.strs[k]) else None
  }

  function ZSet(db: Db, k: Key): map<string, Score> {
    if k in db.zsets then db.zsets[k] else map[]
  }

  function SetAt(db: Db, k: Key): set<Key> {
    if k in db.sets then db.sets[k] else {}
  }

  /** `ZSCORE`. */
  function ZScore(db: Db, k: Key, id: string): Option<Score> {
    if k in db.zsets && id in db.zsets[k] then Some(db.zsets[k][id]) else None
  }

  /** `SISMEMBER`. */
  predicate InSet(db: Db, k: Key, x: Key) {
    k in db.sets && x in db.sets[k]
  }

  predicate Visible(db: Db, k: Key, now: int) {
    k in db.strs && Alive(db.strs[k].exp, now)
  }

  /** `GET`. */
  function Read(db: Db, k: Key, now: int): Option<Data> {
    if Visible(db, k, now) then Some(db.strs[k].data) else None
  }

  /** `PTTL`: -2 when missing, -1 without an expiry. */
  function Pttl(db: Db, k: Key, now: int): int {
    if !Visible(db, k, now) then -2
    else if db.strs[k].exp.Never? then -1
    else db.strs[k].exp.t - now
  }

  /** Sorted sets and sets that become empty are removed. */
  predicate Tidy(db: Db) {
    && (forall k :: k in db.zsets ==> db.zsets[k] != map[])
    && (forall k :: k in db.sets ==> db.sets[k] != {})
  }

  // ---- commands ----

  function Put(db: Db, k: Key, c: Cell): Db {
    Db(db.strs[k := c], db.zsets - {k}, db.sets - {k})
  }

  function Del(db: Db, k: Key): Db {
    Db(db.strs - {k}, db.zsets - {k}, db.sets - {k})
  }

  function ZPut(db: Db, k: Key, z: map<string, Score>): Db {
    db.(zsets := if z == map[] then db.zsets - {k} else db.zsets[k := z])
  }

  function ZAdd(db: Db, k: Key, score: Score, member: string): Db {
    ZPut(db, k, ZSet(db, k)[member := score])
  }

  function ZRem(db: Db, k: Key, member: string): Db {
    ZPut(db, k, ZSet(db, k) - {member})
  }

  function SPut(db: Db, k: Key, s: set<Key>): Db {
    db.(sets := if s == {} then db.sets - {k} else db.sets[k := s])
  }

  function SAdd(db: Db, k: Key, members: set<Key>): Db {
    SPut(db, k, SetAt(db, k) + members)
  }

  function SRem(db: Db, k: Key, members: set<Key>): Db {
    SPut(db, k, SetAt(db, k) - members)
  }

  /** `PEXPIRE` (a positive ttl) or `PERSIST` (none); no effect on a missing key. */
  function Retime(db: Db, k: Key, exp: Score, now: int): Db {
    if Visible(db, k, now) then db.(strs := db.strs[k := db.strs[k].(exp := exp)]) else db
  }

  /** `INCR`: a missing counter starts from zero, an existing one keeps its expiry. */
  function Counter(db: Db, k: Key, now: int): int {
    if Visible(db, k, now) && db.strs[k].data.Count? then db.strs[k].data.n else 0
  }

  function Bumped(db: Db, k: Key, now: int): Cell {
    Cell(Count(Counter(db, k, now) + 1), if Visible(db, k, now) then db.strs[k].exp else Never)
  }

  function Incr(db: Db, k: Key, now: int): Db {
    Put(db, k, Bumped(db, k, now))
  }

  type Ttl = n: int | 0 < n witness 1

  datatype Cmd =
    | CmdSet(key: Key, data: Data, px: Option<int>)
    | CmdDel(key: Key)
    | CmdZAdd(key: Key, score: Score, member: string)
    | CmdZRem(key: Key, member: string)
    | CmdSAdd(key: Key, members: set<Key>)
    | CmdSRem(key: Key, members: set<Key>)
    | CmdPExpire(key: Key, ttl: Ttl)
    | CmdPersist(key: Key)

  function Apply(db: Db, cmd: Cmd, now: int): Db {
    match cmd
    case CmdSet(k, data, px) => Put(db, k, Cell(data, Deadline(px, now)))
    case CmdDel(k) => Del(db, k)
    case CmdZAdd(k, score, member) => ZAdd(db, k, score, member)
    case CmdZRem(k, member) => ZRem(db, k, member)
    case CmdSAdd(k, members) => SAdd(db, k, members)
    case CmdSRem(k, members) => SRem(db, k, members)
    case CmdPExpire(k, ttl) => Retime(db, k, At(now + ttl), now)
    case CmdPersist(k) => Retime(db, k, Never, now)
  }

  /** A string set with a lifetime is read until it ends, one set without is read for ever; a deleted key holds nothing. */
  lemma SetReads(db: Db, now: int, k: Key, data: Data, px: Option<int>, later: int)
    ensures var ends := px.Some? && px.value > 0 && later >= now + px.value;
            Read(Apply(db, CmdSet(k, data, px), now), k, later) == if ends then None else Some(data)
    ensures Read(Apply(db, CmdDel(k), now), k, later) == None
    ensures SetAt(Apply(db, CmdDel(k), now), k) == {} && ZSet(Apply(db, CmdDel(k), now), k) == map[]
  {}

  /** An expiry given to a visible key is when it ends; one taken away lets it stay; an invisible key stays so. */
  lemma ExpiryReads(db: Db, now: int, k: Key, ttl: Ttl, later: int)
    requires now <= later
    ensures Read(Apply(db, CmdPExpire(k, ttl), now), k, later) == if later < now + ttl then Read(db, k, now) else None
    ensures Read(Apply(db, CmdPersist(k), now), k, later) == Read(db, k, now)
    ensures Pttl(Apply(db, CmdPExpire(k, ttl), now), k, now) == (if Read(db, k, now) == None then -2 else ttl)
    ensures Pttl(Apply(db, CmdPersist(k), now), k, now) == (if Read(db, k, now) == None then -2 else -1)
  {}

  /** A counter that was read as a number reads one more, and a missing one reads 1. */
  lemma IncrReads(db: Db, now: int, k: Key)
    ensures forall n :: Read(db, k, now) == Some(Count(n)) ==> Read(Incr(db, k, now), k, now) == Some(Count(n + 1))
    ensures Read(db, k, now) == None ==> Read(Incr(db, k, now), k, now) == Some(Count(1))
  {}

  /** What each command does to the sorted set at a key it does not set or delete. */
  lemma SortedAfter(db: Db, cmd: Cmd, now: int, k: Key)
    requires cmd.key == k ==> !cmd.CmdSet? && !cmd.CmdDel?
    ensures cmd.key == k && cmd.CmdZAdd? ==> ZSet(Apply(db, cmd, now), k) == ZSet(db, k)[cmd.member := cmd.score]
    ensures cmd.key == k && cmd.CmdZRem? ==> ZSet(Apply(db, cmd, now), k) == ZSet(db, k) - {cmd.member}
    ensures cmd.key != k || !(cmd.CmdZAdd? || cmd.CmdZRem?) ==> ZSet(Apply(db, cmd, now), k) == ZSet(db, k)
  {
    match cmd
    case CmdSet(_, _, _) =>
    case CmdDel(_) =>
    case CmdZAdd(_, _, _) =>
    case CmdZRem(_, _) =>
    case CmdSAdd(_, _) =>
    case CmdSRem(_, _) =>
    case CmdPExpire(_, _) =>
    case CmdPersist(_) =>
  }

  /** What each command does to the set at a key it does not set or delete. */
  lemma SetAfter(db: Db, cmd: Cmd, now: int, k: Key)
    requires cmd.key == k ==> !cmd.CmdSet? && !cmd.CmdDel?
    ensures cmd.key == k && cmd.CmdSAdd? ==> SetAt(Apply(db, cmd, now), k) == SetAt(db, k) + cmd.members
    ensures cmd.key == k && cmd.CmdSRem? ==> SetAt(Apply(db, cmd, now), k) == SetAt(db, k) - cmd.members
    ensures cmd.key != k || !(cmd.CmdSAdd? || cmd.CmdSRem?) ==> SetAt(Apply(db, cmd, now), k) == SetAt(db, k)
  {
    match cmd
    case CmdSet(_, _, _) =>
    case CmdDel(_) =>
    case CmdZAdd(_, _, _) =>
    case CmdZRem(_, _) =>
    case CmdSAdd(_, _) =>
    case CmdSRem(_, _) =>
    case CmdPExpire(_, _) =>
    case CmdPersist(_) =>
  }

  /** The store after a whole command log, oldest command first. */
  function Replay(db: Db, log: seq<Cmd>, now: int): Db {
    if log == [] then db
    else Apply(Replay(db, log[..|log| - 1], now), log[|log| - 1], now)
  }

  lemma ReplaySnoc(db: Db, log: seq<Cmd>, cmd: Cmd, now: int)
    ensures Replay(db, log + [cmd], now) == Apply(Replay(db, log, now), cmd, now)
  {
    assert (log + [cmd])[..|log|] == log;
  }

  /** Two tidy stores that answer every lookup alike are the same store. */
  lemma SameLookupsSameStore(a: Db, b: Db)
    requires Tidy(a) && Tidy(b)
    requires forall k :: CellAt(a, k) == CellAt(b, k)
    requires forall k, id :: ZScore(a, k, id) == ZScore(b, k, id)
    requires forall k, x :: InSet(a, k, x) <==> InSet(b, k, x)
    ensures a == b
  {
    assert forall k :: k in a.strs <==> CellAt(a, k).Some?;
    assert forall k :: k in b.strs <==> CellAt(b, k).Some?;
    assert a.strs == b.strs;
    forall k ensures ZSet(a, k) == ZSet(b, k) {
      assert forall id :: id in ZSet(a, k) <==> ZScore(a, k, id).Some?;
      assert forall id :: id in ZSet(b, k) <==> ZScore(b, k, id).Some?;
      assert forall id | id in ZSet(a, k) :: ZScore(a, k, id) == ZScore(b, k, id);
    }
    assert forall k :: k in a.zsets <==> ZSet(a, k) != map[];
    assert forall k :: k in b.zsets <==> ZSet(b, k) != map[];
    assert forall k | k in a.zsets :: ZSet(a, k) == a.zsets[k];
    assert a.zsets == b.zsets;
    forall k ensures SetAt(a, k) == SetAt(b, k) {
      assert forall x :: x in SetAt(a, k) <==> InSet(a, k, x);
      assert forall x :: x in SetAt(b, k) <==> InSet(b, k, x);
    }
    assert forall k :: k in a.sets <==> SetAt(a, k) != {};
    assert forall k :: k in b.sets <==> SetAt(b, k) != {};
    assert forall k | k in a.sets :: SetAt(a, k) == a.sets[k];
    assert a.sets == b.sets;
  }
}
