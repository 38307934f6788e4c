/**
 The transaction overlay as a value: what each buffered write records, and the
 proof that reading through it is reading the store after the log is replayed.
 */
module Overlay {
  import opened Wrappers
  import opened Redis

  /** One write as the executor's caller issues it. */
  datatype Write =
    | PutObj(key: Key, data: Data, ttl: Option<int>)
    | DelObj(key: Key)
    | PutStr(key: Key, data: Data, ttl: Option<int>)
    | DelStr(key: Key)
    | ZAddTo(key: Key, score: Score, member: string)
    | ZRemFrom(key: Key, member: string)
    | SAddTo(key: Key, members: set<Key>)
    | SRemFrom(key: Key, members: set<Key>)
    | PExpire(key: Key, pttl: Ttl)
    | Persist(key: Key)

  /** The command a write sends to the store. */
  function CmdOf(w: Write): Cmd {
    match w
    case PutObj(k, data, ttl) => CmdSet(k, data, ttl)
    case DelObj(k) => CmdDel(k)
    case PutStr(k, data, ttl) => CmdSet(k, data, ttl)
    case DelStr(k) => CmdDel(k)
    case ZAddTo(k, score, member) => CmdZAdd(k, score, member)
    case ZRemFrom(k, member) => CmdZRem(k, member)
    case SAddTo(k, members) => CmdSAdd(k, members)
    case SRemFrom(k, members) => CmdSRem(k, members)
    case PExpire(k, ttl) => CmdPExpire(k, ttl)
    case Persist(k) => CmdPersist(k)
  }

  function CmdsOf(ws: seq<Write>): (log: seq<Cmd>)
    ensures |log| == |ws|
  {
    if ws == [] then [] else CmdsOf(ws[..|ws| - 1]) + [CmdOf(ws[|ws| - 1])]
  }

  lemma CmdsSnoc(ws: seq<Write>, w: Write)
    ensures CmdsOf(ws + [w]) == CmdsOf(ws) + [CmdOf(w)]
  {
    assert (ws + [w])[..|ws|] == ws;
  }

  /** The six tables of a transaction; `None` in the first two is a tombstone. */
  datatype Tables = Tables(
    objects: map<Key, Option<Data>>,
    strs: map<Key, Option<Data>>,
    zAdds: map<Key, map<string, Score>>,
    zRems: map<Key, set<string>>,
    sAdds: map<Key, set<Key>>,
    sRems: map<Key, set<Key>>)

  const EMPTY := Tables(map[], map[], map[], map[], map[], map[])

  function ZAdded(t: Tables, k: Key): map<string, Score> { if k in t.zAdds then t.zAdds[k] else map[] }
  function ZRemoved(t: Tables, k: Key): set<string> { if k in t.zRems then t.zRems[k] else {} }
  function SAdded(t: Tables, k: Key): set<Key> { if k in t.sAdds then t.sAdds[k] else {} }
  function SRemoved(t: Tables, k: Key): set<Key> { if k in t.sRems then t.sRems[k] else {} }

  function Record(t: Tables, w: Write): Tables {
    match w
    case PutObj(k, data, _) => t.(objects := t.objects[k := Some(data)])
    case DelObj(k) => t.(objects := t.objects[k := None])
    case PutStr(k, data, _) => t.(strs := t.strs[k := Some(data)])
    case DelStr(k) => t.(strs := t.strs[k := None])
    case ZAddTo(k, score, member) =>
      t.(zAdds := t.zAdds[k := ZAdded(t, k)[member := score]],
         zRems := if k in t.zRems then t.zRems[k := t.zRems[k] - {member}] else t.zRems)
    case ZRemFrom(k, member) =>
      t.(zRems := t.zRems[k := ZRemoved(t, k) + {member}],
         zAdds := if k in t.zAdds then t.zAdds[k := t.zAdds[k] - {member}] else t.zAdds)
    case SAddTo(k, members) =>
      t.(sAdds := t.sAdds[k := SAdded(t, k) + members],
         sRems := if k in t.sRems then t.sRems[k := t.sRems[k] - members] else t.sRems)
    case SRemFrom(k, members) =>
      t.(sRems := t.sRems[k := SRemoved(t, k) + members],
         sAdds := if k in t.sAdds then t.sAdds[k := t.sAdds[k] - members] else t.sAdds)
    case PExpire(_, _) => t
    case Persist(_) => t
  }

  function TablesOf(ws: seq<Write>): Tables {
    if ws == [] then EMPTY else Record(TablesOf(ws[..|ws| - 1]), ws[|ws| - 1])
  }

  lemma TablesSnoc(ws: seq<Write>, w: Write)
    ensures TablesOf(ws + [w]) == Record(TablesOf(ws), w)
  {
    assert (ws + [w])[..|ws|] == ws;
  }

  // ---- reads through the overlay ----

  function OverObj(t: Tables, db: Db, k: Key, now: int): Option<Data> {
    if k in t.objects then t.objects[k] else Read(db, k, now)
  }

  function OverStr(t: Tables, db: Db, k: Key, now: int): Option<Data> {
    if k in t.strs then t.strs[k] else Read(db, k, now)
  }

  function OverZ(t: Tables, db: Db, k: Key): map<string, Score> {
    (ZSet(db, k) + ZAdded(t, k)) - ZRemoved(t, k)
  }

  function OverS(t: Tables, db: Db, k: Key): set<Key> {
    (SetAt(db, k) + SAdded(t, k)) - SRemoved(t, k)
  }

  // ---- which keys a log touches, by the operation used ----

  predicate ObjWrite(w: Write) { w.PutObj? || w.DelObj? }

  predicate StrWrite(w: Write) { w.PutStr? || w.DelStr? }

  ghost predicate ObjTouched(ws: seq<Write>, k: Key) {
    exists i :: 0 <= i < |ws| && ObjWrite(ws[i]) && ws[i].key == k
  }

  ghost predicate StrTouched(ws: seq<Write>, k: Key) {
    exists i :: 0 <= i < |ws| && StrWrite(ws[i]) && ws[i].key == k
  }

  ghost predicate StrDeleted(ws: seq<Write>, k: Key) {
    exists i :: 0 <= i < |ws| && ws[i].DelStr? && ws[i].key == k
  }

  lemma TouchedPrefix(ws: seq<Write>, k: Key)
    requires ws != []
    ensures ObjTouched(ws, k) <==> ObjTouched(ws[..|ws| - 1], k) || (ObjWrite(ws[|ws| - 1]) && ws[|ws| - 1].key == k)
    ensures StrTouched(ws, k) <==> StrTouched(ws[..|ws| - 1], k) || (StrWrite(ws[|ws| - 1]) && ws[|ws| - 1].key == k)
    ensures StrDeleted(ws, k) <==> StrDeleted(ws[..|ws| - 1], k) || (ws[|ws| - 1].DelStr? && ws[|ws| - 1].key == k)
  {
    var front := ws[..|ws| - 1];
    forall i | 0 <= i < |front| ensures front[i] == ws[i] {}
  }

  // ---- the simulation ----

  /** A string key's visible content after one command. */
  lemma ReadAfter(d: Db, w: Write, now: int, k: Key)
    ensures Read(Apply(d, CmdOf(w), now), k, now) ==
            if w.key == k && (w.PutObj? || w.PutStr?) then Some(w.data)
            else if w.key == k && (w.DelObj? || w.DelStr?) then None
            else Read(d, k, now)
  {
    match w
    case PutObj(_, _, _) =>
    case PutStr(_, _, _) =>
    case DelObj(_) =>
    case DelStr(_) =>
    case _ =>
  }

  /** `getObj` sees the replayed store on every key not also written as a string. */
  lemma {:induction false} ObjectReadsSimulate(ws: seq<Write>, db: Db, now: int, k: Key)
    requires !StrTouched(ws, k)
    ensures OverObj(TablesOf(ws), db, k, now) == Read(Replay(db, CmdsOf(ws), now), k, now)
  {
    if ws != [] {
      var front := ws[..|ws| - 1];
      TouchedPrefix(ws, k);
      ObjectReadsSimulate(front, db, now, k);
      assert CmdsOf(ws)[..|ws| - 1] == CmdsOf(front);
      ReadAfter(Replay(db, CmdsOf(front), now), ws[|ws| - 1], now, k);
    }
  }

  /** `getStr` sees the replayed store on every key not also written as an object. */
  lemma {:induction false} StringReadsSimulate(ws: seq<Write>, db: Db, now: int, k: Key)
    requires !ObjTouched(ws, k)
    ensures OverStr(TablesOf(ws), db, k, now) == Read(Replay(db, CmdsOf(ws), now), k, now)
  {
    if ws != [] {
      var front := ws[..|ws| - 1];
      TouchedPrefix(ws, k);
      StringReadsSimulate(front, db, now, k);
      assert CmdsOf(ws)[..|ws| - 1] == CmdsOf(front);
      ReadAfter(Replay(db, CmdsOf(front), now), ws[|ws| - 1], now, k);
    }
  }

  lemma MergeAdd(base: map<string, Score>, added: map<string, Score>, removed: set<string>, m: string, s: Score)
    ensures (base + added[m := s]) - (removed - {m}) == ((base + added) - removed)[m := s]
  {}

  lemma MergeRemove(base: map<string, Score>, added: map<string, Score>, removed: set<string>, m: string)
    ensures (base + (added - {m})) - (removed + {m}) == ((base + added) - removed) - {m}
  {}

  lemma SortedStep(t: Tables, base: Db, d: Db, now: int, k: Key, w: Write)
    requires !((ObjWrite(w) || StrWrite(w)) && w.key == k)
    requires OverZ(t, base, k) == ZSet(d, k) && ZAdded(t, k).Keys !! ZRemoved(t, k)
    ensures OverZ(Record(t, w), base, k) == ZSet(Apply(d, CmdOf(w), now), k)
    ensures ZAdded(Record(t, w), k).Keys !! ZRemoved(Record(t, w), k)
  {
    SortedAfter(d, CmdOf(w), now, k);
    SortedRecord(t, w, k);
    var b, a, r := ZSet(base, k), ZAdded(t, k), ZRemoved(t, k);
    if w.key == k && w.ZAddTo? {
      MergeAdd(b, a, r, w.member, w.score);
    } else if w.key == k && w.ZRemFrom? {
      MergeRemove(b, a, r, w.member);
    }
  }

  lemma SortedRecord(t: Tables, w: Write, k: Key)
    ensures w.key == k && w.ZAddTo? ==>
              ZAdded(Record(t, w), k) == ZAdded(t, k)[w.member := w.score] && ZRemoved(Record(t, w), k) == ZRemoved(t, k) - {w.member}
    ensures w.key == k && w.ZRemFrom? ==>
              ZAdded(Record(t, w), k) == ZAdded(t, k) - {w.member} && ZRemoved(Record(t, w), k) == ZRemoved(t, k) + {w.member}
    ensures w.key != k || !(w.ZAddTo? || w.ZRemFrom?) ==>
              ZAdded(Record(t, w), k) == ZAdded(t, k) && ZRemoved(Record(t, w), k) == ZRemoved(t, k)
  {
    if w.ZAddTo? {
      ZAddRecord(t, w, k);
    } else if w.ZRemFrom? {
      ZRemRecord(t, w, k);
    } else {
      assert Record(t, w).zAdds == t.zAdds && Record(t, w).zRems == t.zRems;
    }
  }

  lemma ZAddRecord(t: Tables, w: Write, k: Key)
    requires w.ZAddTo?
    ensures ZAdded(Record(t, w), k) == if w.key == k then ZAdded(t, k)[w.member := w.score] else ZAdded(t, k)
    ensures ZRemoved(Record(t, w), k) == if w.key == k then ZRemoved(t, k) - {w.member} else ZRemoved(t, k)
  {}

  lemma ZRemRecord(t: Tables, w: Write, k: Key)
    requires w.ZRemFrom?
    ensures ZAdded(Record(t, w), k) == if w.key == k then ZAdded(t, k) - {w.member} else ZAdded(t, k)
    ensures ZRemoved(Record(t, w), k) == if w.key == k then ZRemoved(t, k) + {w.member} else ZRemoved(t, k)
  {}

  /** `zMembers` sees the replayed sorted set of every key the log never sets or deletes. */
  lemma {:induction false} SortedReadsSimulate(ws: seq<Write>, db: Db, now: int, k: Key)
    requires !ObjTouched(ws, k) && !StrTouched(ws, k)
    ensures OverZ(TablesOf(ws), db, k) == ZSet(Replay(db, CmdsOf(ws), now), k)
    ensures ZAdded(TablesOf(ws), k).Keys !! ZRemoved(TablesOf(ws), k)
  {
    if ws != [] {
      var front, w := ws[..|ws| - 1], ws[|ws| - 1];
      TouchedPrefix(ws, k);
      SortedReadsSimulate(front, db, now, k);
      SortedStep(TablesOf(front), db, Replay(db, CmdsOf(front), now), now, k, w);
      assert CmdsOf(ws)[..|ws| - 1] == CmdsOf(front);
    }
  }

  lemma SetStep(t: Tables, base: Db, d: Db, now: int, k: Key, w: Write)
    requires !((ObjWrite(w) || StrWrite(w)) && w.key == k)
    requires OverS(t, base, k) == SetAt(d, k) && SAdded(t, k) !! SRemoved(t, k)
    ensures OverS(Record(t, w), base, k) == SetAt(Apply(d, CmdOf(w), now), k)
    ensures SAdded(Record(t, w), k) !! SRemoved(Record(t, w), k)
  {
    SetAfter(d, CmdOf(w), now, k);
    SetRecord(t, w, k);
  }

  lemma SetRecord(t: Tables, w: Write, k: Key)
    ensures w.key == k && w.SAddTo? ==>
              SAdded(Record(t, w), k) == SAdded(t, k) + w.members && SRemoved(Record(t, w), k) == SRemoved(t, k) - w.members
    ensures w.key == k && w.SRemFrom? ==>
              SAdded(Record(t, w), k) == SAdded(t, k) - w.members && SRemoved(Record(t, w), k) == SRemoved(t, k) + w.members
    ensures w.key != k || !(w.SAddTo? || w.SRemFrom?) ==>
              SAdded(Record(t, w), k) == SAdded(t, k) && SRemoved(Record(t, w), k) == SRemoved(t, k)
  {
    if w.SAddTo? {
      SAddRecord(t, w, k);
    } else if w.SRemFrom? {
      SRemRecord(t, w, k);
    } else {
      assert Record(t, w).sAdds == t.sAdds && Record(t, w).sRems == t.sRems;
    }
  }

  lemma SAddRecord(t: Tables, w: Write, k: Key)
    requires w.SAddTo?
    ensures SAdded(Record(t, w), k) == if w.key == k then SAdded(t, k) + w.members else SAdded(t, k)
    ensures SRemoved(Record(t, w), k) == if w.key == k then SRemoved(t, k) - w.members else SRemoved(t, k)
  {}

  lemma SRemRecord(t: Tables, w: Write, k: Key)
    requires w.SRemFrom?
    ensures SAdded(Record(t, w), k) == if w.key == k then SAdded(t, k) - w.members else SAdded(t, k)
    ensures SRemoved(Record(t, w), k) == if w.key == k then SRemoved(t, k) + w.members else SRemoved(t, k)
  {}

  /** `sMembers` sees the replayed set of every key the log never sets or deletes. */
  lemma {:induction false} SetReadsSimulate(ws: seq<Write>, db: Db, now: int, k: Key)
    requires !ObjTouched(ws, k) && !StrTouched(ws, k)
    ensures OverS(TablesOf(ws), db, k) == SetAt(Replay(db, CmdsOf(ws), now), k)
    ensures SAdded(TablesOf(ws), k) !! SRemoved(TablesOf(ws), k)
  {
    if ws != [] {
      var front, w := ws[..|ws| - 1], ws[|ws| - 1];
      TouchedPrefix(ws, k);
      SetReadsSimulate(front, db, now, k);
      SetStep(TablesOf(front), db, Replay(db, CmdsOf(front), now), now, k, w);
      assert CmdsOf(ws)[..|ws| - 1] == CmdsOf(front);
    }
  }

  /** Some write adds `x` to the set at `k` or removes it from there. */
  ghost predicate Mentions(ws: seq<Write>, k: Key, x: Key) {
    exists i :: 0 <= i < |ws| && (ws[i].SAddTo? || ws[i].SRemFrom?) && ws[i].key == k && x in ws[i].members
  }

  lemma MentionsSnoc(ws: seq<Write>, w: Write, k: Key, x: Key)
    ensures Mentions(ws + [w], k, x) <==> Mentions(ws, k, x) || ((w.SAddTo? || w.SRemFrom?) && w.key == k && x in w.members)
  {
    var longer := ws + [w];
    assert longer[|ws|] == w;
    assert forall i | 0 <= i < |ws| :: longer[i] == ws[i];
  }

  /** After a deletion a member the later writes do not mention is read as before it, but replayed away; a mentioned one is read right. */
  lemma {:induction false} AfterDeletion(pre: seq<Write>, post: seq<Write>, db: Db, now: int, k: Key, x: Key)
    requires !ObjTouched(post, k) && !StrTouched(post, k)
    ensures var log := pre + [DelStr(k)] + post;
            var read, replayed := x in OverS(TablesOf(log), db, k), x in SetAt(Replay(db, CmdsOf(log), now), k);
            if Mentions(post, k, x) then read <==> replayed else !replayed && (read <==> x in OverS(TablesOf(pre), db, k))
  {
    if post == [] {
      assert pre + [DelStr(k)] + post == pre + [DelStr(k)];
      JustDeleted(pre, db, now, k, x);
    } else {
      var front, w := post[..|post| - 1], post[|post| - 1];
      var log := pre + [DelStr(k)] + front;
      assert pre + [DelStr(k)] + post == log + [w] && post == front + [w];
      TouchedPrefix(post, k);
      AfterDeletion(pre, front, db, now, k, x);
      MentionsSnoc(front, w, k, x);
      OneMoreWrite(log, w, db, now, k, x);
    }
  }

  lemma JustDeleted(pre: seq<Write>, db: Db, now: int, k: Key, x: Key)
    ensures x in OverS(TablesOf(pre + [DelStr(k)]), db, k) <==> x in OverS(TablesOf(pre), db, k)
    ensures x !in SetAt(Replay(db, CmdsOf(pre + [DelStr(k)]), now), k)
  {
    TablesSnoc(pre, DelStr(k));
    CmdsSnoc(pre, DelStr(k));
    ReplaySnoc(db, CmdsOf(pre), CmdDel(k), now);
  }

  /** One more write, seen by the overlaid read and by the replay: a mentioned member agrees, another one stays put in both. */
  lemma OneMoreWrite(log: seq<Write>, w: Write, db: Db, now: int, k: Key, x: Key)
    requires !((ObjWrite(w) || StrWrite(w)) && w.key == k)
    ensures var read, replayed := x in OverS(TablesOf(log + [w]), db, k), x in SetAt(Replay(db, CmdsOf(log + [w]), now), k);
            if (w.SAddTo? || w.SRemFrom?) && w.key == k && x in w.members then read == replayed == w.SAddTo?
            else read == (x in OverS(TablesOf(log), db, k)) && replayed == (x in SetAt(Replay(db, CmdsOf(log), now), k))
  {
    TablesSnoc(log, w);
    CmdsSnoc(log, w);
    ReplaySnoc(db, CmdsOf(log), CmdOf(w), now);
    SetAfter(Replay(db, CmdsOf(log), now), CmdOf(w), now, k);
    SetRecord(TablesOf(log), w, k);
  }

  /**
   Reading a set the transaction has deleted, exactly: whatever came before the
   last deletion, the overlaid read and the replay agree on a member if and only
   if the member, where the read saw it before, is mentioned again afterwards.
   */
  lemma DeletedSetReadIff(pre: seq<Write>, post: seq<Write>, db: Db, now: int, k: Key, x: Key)
    requires !ObjTouched(post, k) && !StrTouched(post, k)
    ensures var log := pre + [DelStr(k)] + post;
            (x in OverS(TablesOf(log), db, k) <==> x in SetAt(Replay(db, CmdsOf(log), now), k)) <==>
            (x in OverS(TablesOf(pre), db, k) ==> Mentions(post, k, x))
  {
    AfterDeletion(pre, post, db, now, k, x);
  }

  /**
   A membership set deleted and written again, as for an id created anew: the read
   still finds what was there before the deletion, the replay only what was
   written since.
   */
  lemma RecreatedReadsBoth(pre: seq<Write>, members: set<Key>, db: Db, now: int, k: Key)
    ensures var log := pre + [DelStr(k)] + [SAddTo(k, members)];
            && OverS(TablesOf(log), db, k) == OverS(TablesOf(pre), db, k) + members
            && SetAt(Replay(db, CmdsOf(log), now), k) == members
  {
    var log := pre + [DelStr(k)] + [SAddTo(k, members)];
    var read, before, replayed := OverS(TablesOf(log), db, k), OverS(TablesOf(pre), db, k), SetAt(Replay(db, CmdsOf(log), now), k);
    forall x ensures (x in read <==> x in before || x in members) && (x in replayed <==> x in members) {
      RecreatedAt(pre, members, db, now, k, x);
    }
  }

  lemma RecreatedAt(pre: seq<Write>, members: set<Key>, db: Db, now: int, k: Key, x: Key)
    ensures var log := pre + [DelStr(k)] + [SAddTo(k, members)];
            && (x in OverS(TablesOf(log), db, k) <==> x in OverS(TablesOf(pre), db, k) || x in members)
            && (x in SetAt(Replay(db, CmdsOf(log), now), k) <==> x in members)
  {
    JustDeleted(pre, db, now, k, x);
    OneMoreWrite(pre + [DelStr(k)], SAddTo(k, members), db, now, k, x);
  }

  /** After `delStr(k)` alone the read agrees with the replayed log if and only if the stored set was empty. */
  lemma DeletedSetStillRead(db: Db, now: int, k: Key)
    ensures OverS(TablesOf([DelStr(k)]), db, k) == SetAt(Replay(db, CmdsOf([DelStr(k)]), now), k)
       <==> SetAt(db, k) == {}
  {
    assert [] + [DelStr(k)] + [] == [DelStr(k)];
    forall x ensures (x in OverS(TablesOf([DelStr(k)]), db, k) <==> x in SetAt(Replay(db, CmdsOf([DelStr(k)]), now), k)) <==> x !in SetAt(db, k) {
      DeletedSetReadIff([], [], db, now, k, x);
    }
  }

  // ---- remaining lifetimes ----

  /**
   What a log alone says of a key's remaining lifetime: nothing, that the key is
   gone, that it is stored with this lifetime, or that it has this lifetime if it
   was stored to begin with.  A lifetime of -1 is no expiry.
   */
  datatype Life = Untold | Gone | Lasts(left: int) | IfStored(left: int)

  function LifeOf(ttl: Option<int>): int {
    if ttl.Some? && ttl.value > 0 then ttl.value else -1
  }

  function Relived(life: Life, left: int): Life {
    match life
    case Gone => Gone
    case Lasts(_) => Lasts(left)
    case _ => IfStored(left)
  }

  function LifeAfter(life: Life, w: Write): Life {
    match w
    case PutObj(_, _, ttl) => Lasts(LifeOf(ttl))
    case PutStr(_, _, ttl) => Lasts(LifeOf(ttl))
    case DelObj(_) => Gone
    case DelStr(_) => Gone
    case PExpire(_, ttl) => Relived(life, ttl)
    case Persist(_) => Relived(life, -1)
    case _ => life
  }

  function LifeTold(ws: seq<Write>, k: Key): Life {
    if ws == [] then Untold
    else
      var life := LifeTold(ws[..|ws| - 1], k);
      if ws[|ws| - 1].key == k then LifeAfter(life, ws[|ws| - 1]) else life
  }

  /** The lifetime a key has after the log, from the one stored before it. */
  function LifeLeft(life: Life, stored: int): int {
    match life
    case Untold => stored
    case Gone => -2
    case Lasts(left) => left
    case IfStored(left) => if stored == -2 then -2 else left
  }

  /** The stored lifetime is what the log leaves. */
  predicate LifeStands(life: Life, stored: int) {
    match life
    case Untold => true
    case Gone => stored == -2
    case Lasts(left) => stored == left
    case IfStored(left) => stored == -2 || stored == left
  }

  lemma LifeStep(db: Db, w: Write, now: int, k: Key, life: Life, stored: int)
    requires Pttl(db, k, now) == LifeLeft(life, stored)
    requires life.Lasts? || life.IfStored? ==> life.left != -2
    ensures Pttl(Apply(db, CmdOf(w), now), k, now) == LifeLeft(if w.key == k then LifeAfter(life, w) else life, stored)
  {
    if w.key != k || w.ZAddTo? || w.ZRemFrom? || w.SAddTo? || w.SRemFrom? {
      LifeKept(db, w, now, k);
    }
  }

  /** A write of another key, or of a set, leaves the string at a key alone. */
  lemma LifeKept(db: Db, w: Write, now: int, k: Key)
    requires w.key != k || w.ZAddTo? || w.ZRemFrom? || w.SAddTo? || w.SRemFrom?
    ensures Pttl(Apply(db, CmdOf(w), now), k, now) == Pttl(db, k, now)
  {}

  /** A lifetime the log tells is positive or -1. */
  lemma {:induction false} LifeIsLifetime(ws: seq<Write>, k: Key)
    ensures var life := LifeTold(ws, k); life.Lasts? || life.IfStored? ==> life.left == -1 || life.left > 0
  {
    if ws != [] {
      LifeIsLifetime(ws[..|ws| - 1], k);
    }
  }

  lemma {:induction false} LifeReplayed(ws: seq<Write>, db: Db, now: int, k: Key)
    ensures Pttl(Replay(db, CmdsOf(ws), now), k, now) == LifeLeft(LifeTold(ws, k), Pttl(db, k, now))
  {
    if ws != [] {
      var front, w := ws[..|ws| - 1], ws[|ws| - 1];
      LifeReplayed(front, db, now, k);
      LifeIsLifetime(front, k);
      assert CmdsOf(ws)[..|ws| - 1] == CmdsOf(front);
      LifeStep(Replay(db, CmdsOf(front), now), w, now, k, LifeTold(front, k), Pttl(db, k, now));
    }
  }

  /**
   Remaining lifetimes are read from the store.  The answer is the one after the
   log is replayed if and only if the log says nothing of the key, or leaves it
   the lifetime it has.
   */
  lemma LifetimeReadIff(ws: seq<Write>, db: Db, now: int, k: Key)
    ensures Pttl(db, k, now) == Pttl(Replay(db, CmdsOf(ws), now), k, now) <==> LifeStands(LifeTold(ws, k), Pttl(db, k, now))
  {
    LifeReplayed(ws, db, now, k);
  }
}
