/**
 The execution layer: a store client, the executor that writes at once, the
 transaction that buffers, and the sum of the two that adapter code runs on.
 */
module Executors {
  import opened Wrappers
  import opened Redis
  import opened Overlay

  /** A connection to the store.  Each call is one atomic step at instant `now`. */
  class Client {
    var db: Db
    var now: int

    constructor (db: Db, now: int)
      ensures this.db == db && this.now == now
    {
      this.db, this.now := db, now;
    }

    method Get(k: Key) returns (r: Option<Data>)
      ensures r == Read(db, k, now)
    {
      r := Read(db, k, now);
    }

    method MGet(ks: seq<Key>) returns (r: seq<Option<Data>>)
      ensures |r| == |ks| && forall i | 0 <= i < |ks| :: r[i] == Read(db, ks[i], now)
    {
      r := [];
      for i := 0 to |ks|
        invariant |r| == i && forall j | 0 <= j < i :: r[j] == Read(db, ks[j], now)
      {
        r := r + [Read(db, ks[i], now)];
      }
    }

    method Run(cmd: Cmd)
      modifies this
      ensures db == Apply(old(db), cmd, now) && now == old(now)
    {
      db := Apply(db, cmd, now);
    }

    /** `MULTI`/`EXEC` over a command list. */
    method Exec(log: seq<Cmd>)
      modifies this
      ensures db == Replay(old(db), log, now) && now == old(now)
    {
      for i := 0 to |log|
        invariant db == Replay(old(db), log[..i], now) && now == old(now)
      {
        assert log[..i + 1] == log[..i] + [log[i]];
        ReplaySnoc(old(db), log[..i], log[i], now);
        Run(log[i]);
      }
      assert log[..|log|] == log;
    }

    method IncrKey(k: Key) returns (n: int)
      modifies this
      ensures db == Incr(old(db), k, now) && now == old(now)
      ensures n == Counter(old(db), k, now) + 1
    {
      n := Counter(db, k, now) + 1;
      db := Incr(db, k, now);
    }
  }

  /** Writes go straight to the client. */
  class DirectExecutor {
    const client: Client

    constructor (client: Client)
      ensures this.client == client
    {
      this.client := client;
    }

    method Issue(w: Write)
      modifies client
      ensures client.db == Apply(old(client.db), CmdOf(w), client.now) && client.now == old(client.now)
    {
      client.Run(CmdOf(w));
    }
  }

  /** Writes are recorded in an overlay and a command log until `Commit`. */
  class ValkeyTransaction {
    const client: Client
    var objects: map<Key, Option<Data>>
    var strs: map<Key, Option<Data>>
    var zAdds: map<Key, map<string, Score>>
    var zRems: map<Key, set<string>>
    var sAdds: map<Key, set<Key>>
    var sRems: map<Key, set<Key>>
    var commands: seq<Cmd>
    ghost var writes: seq<Write>

    ghost predicate Valid()
      reads this
    {
      && Tables(objects, strs, zAdds, zRems, sAdds, sRems) == TablesOf(writes)
      && commands == CmdsOf(writes)
    }

    constructor (client: Client)
      ensures Valid() && this.client == client && writes == []
    {
      this.client := client;
      objects, strs, zAdds, zRems, sAdds, sRems := map[], map[], map[], map[], map[], map[];
      commands, writes := [], [];
    }

    /** The store as it would be if the log were applied now. */
    ghost function View(): Db
      reads this, client
    {
      Replay(client.db, commands, client.now)
    }

    method GetObj(k: Key) returns (r: Option<Data>)
      requires Valid()
      ensures !StrTouched(writes, k) ==> r == Read(View(), k, client.now)
    {
      if k in objects {
        r := objects[k];
      } else {
        r := client.Get(k);
      }
      if !StrTouched(writes, k) {
        ObjectReadsSimulate(writes, client.db, client.now, k);
      }
    }

    method MGetObj(ks: seq<Key>) returns (r: seq<Option<Data>>)
      requires Valid()
      ensures |r| == |ks|
      ensures forall i | 0 <= i < |ks| && !StrTouched(writes, ks[i]) :: r[i] == Read(View(), ks[i], client.now)
    {
      var missing := [];
      for i := 0 to |ks|
        invariant forall j | 0 <= j < i && ks[j] !in objects :: ks[j] in missing
      {
        if ks[i] !in objects {
          missing := missing + [ks[i]];
        }
      }
      var fetched := client.MGet(missing);
      var byKey: map<Key, Option<Data>> := map[];
      for i := 0 to |missing|
        invariant forall j | 0 <= j < i :: missing[j] in byKey
        invariant forall k | k in byKey :: byKey[k] == Read(client.db, k, client.now)
      {
        byKey := byKey[missing[i] := fetched[i]];
      }
      r := [];
      for i := 0 to |ks|
        invariant |r| == i
        invariant forall j | 0 <= j < i :: r[j] == OverObj(TablesOf(writes), client.db, ks[j], client.now)
      {
        r := r + [if ks[i] in objects then objects[ks[i]] else byKey[ks[i]]];
      }
      forall i | 0 <= i < |ks| && !StrTouched(writes, ks[i])
        ensures r[i] == Read(View(), ks[i], client.now)
      {
        ObjectReadsSimulate(writes, client.db, client.now, ks[i]);
      }
    }

    method GetStr(k: Key) returns (r: Option<Data>)
      requires Valid()
      ensures !ObjTouched(writes, k) ==> r == Read(View(), k, client.now)
    {
      if k in strs {
        r := strs[k];
      } else {
        r := client.Get(k);
      }
      if !ObjTouched(writes, k) {
        StringReadsSimulate(writes, client.db, client.now, k);
      }
    }

    method ZMembers(k: Key) returns (r: map<string, Score>)
      requires Valid()
      ensures !ObjTouched(writes, k) && !StrTouched(writes, k) ==> r == ZSet(View(), k)
    {
      r := ZSet(client.db, k);
      r := r + if k in zAdds then zAdds[k] else map[];
      r := r - if k in zRems then zRems[k] else {};
      if !ObjTouched(writes, k) && !StrTouched(writes, k) {
        SortedReadsSimulate(writes, client.db, client.now, k);
      }
    }

    method SMembers(k: Key) returns (r: set<Key>)
      requires Valid()
      ensures !ObjTouched(writes, k) && !StrTouched(writes, k) ==> r == SetAt(View(), k)
    {
      r := SetAt(client.db, k);
      r := r + if k in sAdds then sAdds[k] else {};
      r := r - if k in sRems then sRems[k] else {};
      if !ObjTouched(writes, k) && !StrTouched(writes, k) {
        SetReadsSimulate(writes, client.db, client.now, k);
      }
    }

    /** Update the tables a write belongs to. */
    method Note(w: Write)
      modifies this`objects, this`strs, this`zAdds, this`zRems, this`sAdds, this`sRems
      ensures Tables(objects, strs, zAdds, zRems, sAdds, sRems)
           == Record(old(Tables(objects, strs, zAdds, zRems, sAdds, sRems)), w)
    {
      match w {
        case PutObj(k, data, _) =>
          objects := objects[k := Some(data)];
        case DelObj(k) =>
          objects := objects[k := None];
        case PutStr(k, data, _) =>
          strs := strs[k := Some(data)];
        case DelStr(k) =>
          strs := strs[k := None];
        case ZAddTo(k, score, member) =>
          var added := if k in zAdds then zAdds[k] else map[];
          zAdds := zAdds[k := added[member := score]];
          if k in zRems {
            zRems := zRems[k := zRems[k] - {member}];
          }
        case ZRemFrom(k, member) =>
          var removed := if k in zRems then zRems[k] else {};
          zRems := zRems[k := removed + {member}];
          if k in zAdds {
            zAdds := zAdds[k := zAdds[k] - {member}];
          }
        case SAddTo(k, members) =>
          var added := if k in sAdds then sAdds[k] else {};
          sAdds := sAdds[k := added + members];
          if k in sRems {
            sRems := sRems[k := sRems[k] - members];
          }
        case SRemFrom(k, members) =>
          var removed := if k in sRems then sRems[k] else {};
          sRems := sRems[k := removed + members];
          if k in sAdds {
            sAdds := sAdds[k := sAdds[k] - members];
          }
        case PExpire(_, _) =>
        case Persist(_) =>
      }
    }

    /** `pttl` is not overlaid: the store answers, rightly if and only if the log leaves the key the lifetime it has. */
    method PTtl(k: Key) returns (r: int)
      requires Valid()
      ensures r == Pttl(client.db, k, client.now)
      ensures r == Pttl(View(), k, client.now) <==> LifeStands(LifeTold(writes, k), r)
    {
      r := Pttl(client.db, k, client.now);
      LifetimeReadIff(writes, client.db, client.now, k);
    }

    /** One buffered write: note it in the tables and log its command. */
    method Issue(w: Write)
      requires Valid()
      modifies this
      ensures Valid() && writes == old(writes) + [w]
      ensures View() == Apply(old(View()), CmdOf(w), client.now)
    {
      Note(w);
      TablesSnoc(writes, w);
      CmdsSnoc(writes, w);
      ReplaySnoc(client.db, commands, CmdOf(w), client.now);
      commands := commands + [CmdOf(w)];
      writes := writes + [w];
    }

    /** Apply the whole log atomically. */
    method Commit()
      requires Valid()
      modifies this, client
      ensures client.db == old(View()) && client.now == old(client.now)
    {
      if commands != [] {
        var log := commands;
        commands := [];
        client.Exec(log);
      }
    }

    /** Drop the overlay; the store was never written. */
    method Rollback()
      modifies this
      ensures Valid() && writes == []
    {
      objects, strs, zAdds, zRems, sAdds, sRems := map[], map[], map[], map[], map[], map[];
      commands, writes := [], [];
    }
  }

  // ---- what adapter code may issue inside a transaction ----

  /** No string key carries an expiry. */
  ghost predicate Timeless(db: Db) {
    forall k :: k in db.strs ==> db.strs[k].exp == Never
  }

  /** The key family each executor call is used for. */
  predicate Sorted(w: Write) {
    match w
    case PutObj(k, _, _) => k.Obj?
    case DelObj(k) => k.Obj?
    case PutStr(k, _, _) => k.Unique?
    case DelStr(k) => k.Unique? || k.Member?
    case ZAddTo(k, _, _) => k.Ids? || k.Index?
    case ZRemFrom(k, _) => k.Ids? || k.Index?
    case SAddTo(k, _) => k.Member?
    case SRemFrom(k, _) => k.Member?
    case PExpire(k, _) => k.Obj? || k.Unique?
    case Persist(k) => k.Obj? || k.Unique?
  }

  /** Every key holds the type its family is for, and nothing empty is kept. */
  ghost predicate Shaped(db: Db) {
    && Tidy(db)
    && (forall k :: k in db.strs ==> k.Obj? || k.Unique? || k.Seq?)
    && (forall k :: k in db.zsets ==> k.Ids? || k.Index?)
    && (forall k :: k in db.sets ==> k.Member?)
  }

  function CellAfter(db: Db, w: Write, now: int, k: Key): Option<Cell> {
    if k != w.key then CellAt(db, k)
    else
      match w
      case PutObj(_, data, ttl) => Some(Cell(data, Deadline(ttl, now)))
      case PutStr(_, data, ttl) => Some(Cell(data, Deadline(ttl, now)))
      case DelObj(_) => None
      case DelStr(_) => None
      case PExpire(_, ttl) => CellAt(Retime(db, k, At(now + ttl), now), k)
      case Persist(_) => CellAt(Retime(db, k, Never, now), k)
      case _ => CellAt(db, k)
  }

  function ZScoreAfter(db: Db, w: Write, k: Key, id: string): Option<Score> {
    if w.ZAddTo? && k == w.key && id == w.member then Some(w.score)
    else if w.ZRemFrom? && k == w.key && id == w.member then None
    else ZScore(db, k, id)
  }

  predicate InSetAfter(db: Db, w: Write, k: Key, x: Key) {
    if w.SAddTo? && k == w.key && x in w.members then true
    else if w.SRemFrom? && k == w.key && x in w.members then false
    else if w.DelStr? && k == w.key then false
    else InSet(db, k, x)
  }

  lemma CellEffect(db: Db, w: Write, now: int, k: Key)
    requires Shaped(db) && Sorted(w)
    ensures CellAt(Apply(db, CmdOf(w), now), k) == CellAfter(db, w, now, k)
  {}

  lemma ZPutScore(db: Db, j: Key, z: map<string, Score>, k: Key, id: string)
    ensures ZScore(ZPut(db, j, z), k, id) ==
            if k != j then ZScore(db, k, id) else if id in z then Some(z[id]) else None
  {}

  lemma SPutMember(db: Db, j: Key, s: set<Key>, k: Key, x: Key)
    ensures InSet(SPut(db, j, s), k, x) <==> if k != j then InSet(db, k, x) else x in s
  {}

  lemma SortedEffect(db: Db, w: Write, now: int, k: Key, id: string)
    requires Shaped(db) && Sorted(w)
    ensures ZScore(Apply(db, CmdOf(w), now), k, id) == ZScoreAfter(db, w, k, id)
  {
    match w
    case ZAddTo(_, score, member) => ZPutScore(db, w.key, ZSet(db, w.key)[member := score], k, id);
    case ZRemFrom(_, member) => ZPutScore(db, w.key, ZSet(db, w.key) - {member}, k, id);
    case _ => assert CmdOf(w).CmdSet? || CmdOf(w).CmdDel? ==> w.key !in db.zsets;
  }

  lemma SetEffect(db: Db, w: Write, now: int, k: Key, x: Key)
    requires Shaped(db) && Sorted(w)
    ensures InSet(Apply(db, CmdOf(w), now), k, x) <==> InSetAfter(db, w, k, x)
  {
    match w
    case SAddTo(_, members) => SPutMember(db, w.key, SetAt(db, w.key) + members, k, x);
    case SRemFrom(_, members) => SPutMember(db, w.key, SetAt(db, w.key) - members, k, x);
    case _ => assert !w.DelStr? && (CmdOf(w).CmdSet? || CmdOf(w).CmdDel?) ==> w.key !in db.sets;
  }

  lemma ShapeKept(db: Db, w: Write, now: int)
    requires Shaped(db) && Sorted(w)
    ensures Shaped(Apply(db, CmdOf(w), now))
  {
    match w
    case ZAddTo(_, _, _) =>
    case ZRemFrom(_, _) =>
    case SAddTo(_, _) =>
    case SRemFrom(_, _) =>
    case _ =>
  }

  /** What one write does to every lookup. */
  lemma Effects(db: Db, w: Write, now: int)
    requires Shaped(db) && Sorted(w)
    ensures Shaped(Apply(db, CmdOf(w), now))
    ensures forall k :: CellAt(Apply(db, CmdOf(w), now), k) == CellAfter(db, w, now, k)
    ensures forall k, id :: ZScore(Apply(db, CmdOf(w), now), k, id) == ZScoreAfter(db, w, k, id)
    ensures forall k, x :: InSet(Apply(db, CmdOf(w), now), k, x) <==> InSetAfter(db, w, k, x)
  {
    ShapeKept(db, w, now);
    var d := Apply(db, CmdOf(w), now);
    forall k ensures CellAt(d, k) == CellAfter(db, w, now, k) { CellEffect(db, w, now, k); }
    forall k, id ensures ZScore(d, k, id) == ZScoreAfter(db, w, k, id) { SortedEffect(db, w, now, k, id); }
    forall k, x ensures InSet(d, k, x) <==> InSetAfter(db, w, k, x) { SetEffect(db, w, now, k, x); }
  }

  /** The write carries no expiry. */
  predicate Untimed(w: Write) {
    match w
    case PutObj(_, _, ttl) => ttl.Some? ==> ttl.value <= 0
    case PutStr(_, _, ttl) => ttl.Some? ==> ttl.value <= 0
    case PExpire(_, _) => false
    case _ => true
  }

  ghost predicate Disciplined(ws: seq<Write>) {
    forall i | 0 <= i < |ws| :: Sorted(ws[i]) && Untimed(ws[i])
  }

  lemma {:induction false} TimelessReplay(db: Db, ws: seq<Write>, now: int)
    requires Timeless(db) && Disciplined(ws)
    ensures Timeless(Replay(db, CmdsOf(ws), now))
  {
    if ws != [] {
      var front, w := ws[..|ws| - 1], ws[|ws| - 1];
      TimelessReplay(db, front, now);
      assert CmdsOf(ws)[..|ws| - 1] == CmdsOf(front);
      assert Sorted(w) && Untimed(w);
      TimelessStep(Replay(db, CmdsOf(front), now), w, now);
    }
  }

  lemma TimelessStep(db: Db, w: Write, now: int)
    requires Timeless(db) && Untimed(w)
    ensures Timeless(Apply(db, CmdOf(w), now))
  {}

  /** Writing one key commutes with a command on another. */
  lemma PutCommutes(d: Db, cmd: Cmd, k: Key, c: Cell, now: int)
    requires cmd.key != k
    ensures Apply(Put(d, k, c), cmd, now) == Put(Apply(d, cmd, now), k, c)
  {
    var j := cmd.key;
    match cmd
    case CmdSet(_, data, px) => PutPutCommutes(d, j, Cell(data, Deadline(px, now)), k, c);
    case CmdDel(_) => PutDelCommutes(d, j, k, c);
    case CmdZAdd(_, score, m) => ZPutCommutes(d, j, ZSet(d, j)[m := score], k, c);
    case CmdZRem(_, m) => ZPutCommutes(d, j, ZSet(d, j) - {m}, k, c);
    case CmdSAdd(_, ms) => SPutCommutes(d, j, SetAt(d, j) + ms, k, c);
    case CmdSRem(_, ms) => SPutCommutes(d, j, SetAt(d, j) - ms, k, c);
    case CmdPExpire(_, ttl) => RetimeCommutes(d, j, At(now + ttl), now, k, c);
    case CmdPersist(_) => RetimeCommutes(d, j, Never, now, k, c);
  }

  lemma PutPutCommutes(d: Db, j: Key, e: Cell, k: Key, c: Cell)
    requires j != k
    ensures Put(Put(d, k, c), j, e) == Put(Put(d, j, e), k, c)
  {}

  lemma PutDelCommutes(d: Db, j: Key, k: Key, c: Cell)
    requires j != k
    ensures Del(Put(d, k, c), j) == Put(Del(d, j), k, c)
  {}

  lemma RetimeCommutes(d: Db, j: Key, exp: Score, now: int, k: Key, c: Cell)
    requires j != k
    ensures Retime(Put(d, k, c), j, exp, now) == Put(Retime(d, j, exp, now), k, c)
  {}

  lemma ZPutCommutes(d: Db, j: Key, z: map<string, Score>, k: Key, c: Cell)
    requires j != k
    ensures ZPut(Put(d, k, c), j, z) == Put(ZPut(d, j, z), k, c)
    ensures ZSet(Put(d, k, c), j) == ZSet(d, j)
  {}

  lemma SPutCommutes(d: Db, j: Key, s: set<Key>, k: Key, c: Cell)
    requires j != k
    ensures SPut(Put(d, k, c), j, s) == Put(SPut(d, j, s), k, c)
    ensures SetAt(Put(d, k, c), j) == SetAt(d, j)
  {}

  lemma IncrCommutesOnce(d: Db, cmd: Cmd, k: Key, now: int)
    requires cmd.key != k
    ensures Apply(Incr(d, k, now), cmd, now) == Incr(Apply(d, cmd, now), k, now)
    ensures Counter(Apply(d, cmd, now), k, now) == Counter(d, k, now)
  {
    PutCommutes(d, cmd, k, Bumped(d, k, now), now);
    assert CellAt(Apply(d, cmd, now), k) == CellAt(d, k);
  }

  /** Incrementing a counter the log does not touch commutes with replaying it. */
  lemma {:induction false} IncrCommutes(db: Db, ws: seq<Write>, k: Key, now: int)
    requires Disciplined(ws) && k.Seq?
    ensures Replay(Incr(db, k, now), CmdsOf(ws), now) == Incr(Replay(db, CmdsOf(ws), now), k, now)
    ensures Counter(Replay(db, CmdsOf(ws), now), k, now) == Counter(db, k, now)
  {
    if ws != [] {
      var front, w := ws[..|ws| - 1], ws[|ws| - 1];
      IncrCommutes(db, front, k, now);
      assert CmdsOf(ws)[..|ws| - 1] == CmdsOf(front);
      IncrCommutesOnce(Replay(db, CmdsOf(front), now), CmdOf(w), k, now);
      assert Sorted(w);
    }
  }

  /** Either executor, as the adapter sees it. */
  datatype Executor = Direct(direct: DirectExecutor) | Buffered(tx: ValkeyTransaction) {

    function Store(): Client {
      match this
      case Direct(d) => d.client
      case Buffered(t) => t.client
    }

    ghost function Repr(): set<object> {
      match this
      case Direct(d) => {d.client}
      case Buffered(t) => {t, t.client}
    }

    ghost predicate Valid()
      reads Repr()
    {
      match this
      case Direct(_) => true
      case Buffered(t) => t.Valid() && Disciplined(t.writes) && Timeless(t.client.db)
    }

    /** The store this executor's caller sees. */
    ghost function View(): Db
      reads Repr()
    {
      match this
      case Direct(d) => d.client.db
      case Buffered(t) => t.View()
    }

    ghost function Now(): int
      reads Repr()
    {
      Store().now
    }

    /** The set at `k` was deleted earlier in this transaction. */
    ghost predicate Dropped(k: Key)
      reads Repr()
    {
      Buffered? && StrDeleted(tx.writes, k)
    }

    method GetObj(k: Key) returns (r: Option<Data>)
      requires Valid() && k.Obj?
      ensures r == Read(View(), k, Now())
    {
      match this {
        case Direct(d) => r := d.client.Get(k);
        case Buffered(t) => r := t.GetObj(k);
      }
    }

    method MGetObj(ks: seq<Key>) returns (r: seq<Option<Data>>)
      requires Valid() && forall i | 0 <= i < |ks| :: ks[i].Obj?
      ensures |r| == |ks| && forall i | 0 <= i < |ks| :: r[i] == Read(View(), ks[i], Now())
    {
      match this {
        case Direct(d) => r := d.client.MGet(ks);
        case Buffered(t) => r := t.MGetObj(ks);
      }
    }

    method GetStr(k: Key) returns (r: Option<Data>)
      requires Valid() && k.Unique?
      ensures r == Read(View(), k, Now())
    {
      match this {
        case Direct(d) => r := d.client.Get(k);
        case Buffered(t) => r := t.GetStr(k);
      }
    }

    method ZMembers(k: Key) returns (r: map<string, Score>)
      requires Valid() && (k.Ids? || k.Index?)
      ensures r == ZSet(View(), k)
    {
      match this {
        case Direct(d) => r := ZSet(d.client.db, k);
        case Buffered(t) => r := t.ZMembers(k);
      }
    }

    method SMembers(k: Key) returns (r: set<Key>)
      requires Valid() && k.Member?
      ensures !Dropped(k) ==> r == SetAt(View(), k)
    {
      match this {
        case Direct(d) => r := SetAt(d.client.db, k);
        case Buffered(t) => r := t.SMembers(k);
      }
    }

    /** The store's answer; that of the view where nothing was buffered or the log leaves the key its lifetime, positive answers always. */
    method PTtl(k: Key) returns (r: int)
      requires Valid()
      ensures r == Pttl(Store().db, k, Now())
      ensures r == Pttl(View(), k, Now()) <==> Direct? || LifeStands(LifeTold(tx.writes, k), r)
      ensures r > 0 || Pttl(View(), k, Now()) > 0 ==> r == Pttl(View(), k, Now())
    {
      match this {
        case Direct(d) => r := Pttl(d.client.db, k, d.client.now);
        case Buffered(t) =>
          r := t.PTtl(k);
          TimelessReplay(t.client.db, t.writes, t.client.now);
      }
    }

    method IncrKey(k: Key) returns (n: int)
      requires Valid() && k.Seq?
      modifies Repr()
      ensures Valid() && View() == Incr(old(View()), k, Now()) && Now() == old(Now())
      ensures n == Counter(old(View()), k, Now()) + 1
      ensures Buffered? ==> Store().db == Incr(old(Store().db), k, Now())
      ensures forall j :: Dropped(j) <==> old(Dropped(j))
    {
      match this {
        case Direct(d) => n := d.client.IncrKey(k);
        case Buffered(t) =>
          IncrCommutes(t.client.db, t.writes, k, t.client.now);
          n := t.client.IncrKey(k);
      }
    }

    method Issue(w: Write)
      requires Valid() && Shaped(View()) && Sorted(w) && (Buffered? ==> Untimed(w))
      modifies Repr()
      ensures Valid() && Now() == old(Now())
      ensures Shaped(View())
      ensures forall k :: CellAt(View(), k) == CellAfter(old(View()), w, Now(), k)
      ensures forall k, id :: ZScore(View(), k, id) == ZScoreAfter(old(View()), w, k, id)
      ensures forall k, x :: InSet(View(), k, x) <==> InSetAfter(old(View()), w, k, x)
      ensures Buffered? ==> Store().db == old(Store().db)
      ensures forall j :: Dropped(j) <==> old(Dropped(j)) || (Buffered? && w == DelStr(j))
    {
      Effects(View(), w, Now());
      Send(w);
    }

    method Send(w: Write)
      requires Valid() && Sorted(w) && (Buffered? ==> Untimed(w))
      modifies Repr()
      ensures Valid() && View() == Apply(old(View()), CmdOf(w), Now()) && Now() == old(Now())
      ensures Buffered? ==> Store().db == old(Store().db)
      ensures forall j :: Dropped(j) <==> old(Dropped(j)) || (Buffered? && w == DelStr(j))
    {
      match this {
        case Direct(d) => d.Issue(w);
        case Buffered(t) =>
          t.Issue(w);
          assert t.writes[..|t.writes| - 1] == old(t.writes);
          forall j
            ensures StrDeleted(t.writes, j) <==> StrDeleted(old(t.writes), j) || w == DelStr(j)
          {
            TouchedPrefix(t.writes, j);
          }
      }
    }
  }
}
