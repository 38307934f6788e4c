/**
 The adapter's stored state for one model: the invariant tying every derived
 structure to the stored rows, the effect of each kind of write on every lookup,
 and the proof that every run of writes keeps the invariant.
 */
module Engine {
  import opened Wrappers
  import opened Filters
  import opened Redis
  import opened Executors
  import opened Indexes

  // ---- rows ----

  predicate HasRow(db: Db, m: Model, id: string) {
    var c := CellAt(db, Obj(m.name, id));
    c.Some? && c.value.data.RowData?
  }

  function RowAt(db: Db, m: Model, id: string): Row
    requires HasRow(db, m, id)
  {
    CellAt(db, Obj(m.name, id)).value.data.row
  }

  function ExpAt(db: Db, m: Model, id: string): Score
    requires HasRow(db, m, id)
  {
    CellAt(db, Obj(m.name, id)).value.exp
  }

  predicate LiveRow(db: Db, m: Model, id: string, now: int) {
    HasRow(db, m, id) && Alive(ExpAt(db, m, id), now)
  }

  // ---- the invariant ----

  /** Every object key holds a row whose primary key prints as the key's id. */
  ghost predicate RowsOk(db: Db, m: Model) {
    forall id: string :: CellAt(db, Obj(m.name, id)).Some? ==>
      HasRow(db, m, id) && m.pk in RowAt(db, m, id) && m.IdText(RowAt(db, m, id)[m.pk]) == id && id != ""
  }

  /** An id is in the id list, and in an index set, exactly when its row says so, under the row's own expiry. */
  ghost predicate EntriesOk(db: Db, m: Model) {
    forall k: Key, id: string {:trigger ZScore(db, k, id)} :: k.model == m.name && (k.Ids? || k.Index?) ==>
      ZScore(db, k, id) ==
      if HasRow(db, m, id) && (k.Ids? || Wants(m, RowAt(db, m, id), k)) then Some(ExpAt(db, m, id)) else None
  }

  /** The membership set of an id is exactly what its row wants. */
  ghost predicate MembersOk(db: Db, m: Model) {
    forall k: Key, x: Key {:trigger InSet(db, k, x)} :: k.model == m.name && k.Member? ==>
      (InSet(db, k, x) <==> HasRow(db, m, k.id) && Wants(m, RowAt(db, m, k.id), x))
  }

  /** A unique key names a stored row that has that value, and expires with it. */
  ghost predicate OwnersOk(db: Db, m: Model) {
    forall k: Key {:trigger CellAt(db, k)} :: k.model == m.name && k.Unique? && CellAt(db, k).Some? ==>
      var c := CellAt(db, k).value;
      && c.data.IdData?
      && HasRow(db, m, c.data.id)
      && Wants(m, RowAt(db, m, c.data.id), k)
      && c.exp == ExpAt(db, m, c.data.id)
  }

  ghost predicate Holds(db: Db, k: Key, id: string) {
    CellAt(db, k).Some? && CellAt(db, k).value.data == IdData(id)
  }

  /** Every live row holds each of its unique keys. */
  ghost predicate HeldOk(db: Db, m: Model, now: int) {
    forall id: string, k: Key {:trigger Holds(db, k, id)} ::
      LiveRow(db, m, id, now) && k.Unique? && Wants(m, RowAt(db, m, id), k) ==> Holds(db, k, id)
  }

  /** The whole invariant. */
  ghost predicate Consistent(db: Db, m: Model, now: int) {
    && Shaped(db)
    && RowsOk(db, m)
    && EntriesOk(db, m)
    && MembersOk(db, m)
    && OwnersOk(db, m)
    && HeldOk(db, m, now)
  }

  /**
   The invariant, with its parts looked at only where `Shown` is mentioned: most
   code hands it along without using what it says.
   */
  ghost predicate Inv(db: Db, m: Model, now: int) {
    forall n: nat {:trigger Shown(n)} :: Shown(n) ==> Consistent(db, m, now)
  }

  /** The rest of the invariant: every derived structure fits the stored rows, whatever keys the rows print. */
  ghost predicate TiedNow(db: Db, m: Model, now: int) {
    && Shaped(db)
    && RowsStored(db, m)
    && EntriesOk(db, m)
    && MembersOk(db, m)
    && OwnersOk(db, m)
    && HeldOk(db, m, now)
  }

  /** `TiedNow`, looked at only where `Shown` is mentioned. */
  ghost predicate Tied(db: Db, m: Model, now: int) {
    forall n: nat {:trigger Shown(n)} :: Shown(n) ==> TiedNow(db, m, now)
  }

  /** Every object key holds a row, under an id that is not empty. */
  ghost predicate RowsStored(db: Db, m: Model) {
    forall id: string :: CellAt(db, Obj(m.name, id)).Some? ==> HasRow(db, m, id) && id != ""
  }

  predicate ProperRow(m: Model, id: string, row: Row) {
    m.pk in row && m.IdText(row[m.pk]) == id && id != ""
  }

  /** The ids whose row prints another key than the one it is stored under. */
  ghost function Odd(db: Db, m: Model): iset<string> {
    iset id: string | HasRow(db, m, id) && !ProperRow(m, id, RowAt(db, m, id))
  }

  lemma InvIff(db: Db, m: Model, now: int)
    ensures Inv(db, m, now) <==> Tied(db, m, now) && Odd(db, m) == iset{}
  {
    assert Shown(0);
    assert RowsOk(db, m) <==> RowsStored(db, m) && Odd(db, m) == iset{} by {
      if RowsStored(db, m) && Odd(db, m) == iset{} {
        forall id: string | CellAt(db, Obj(m.name, id)).Some? ensures HasRow(db, m, id) && ProperRow(m, id, RowAt(db, m, id)) {
          assert id !in Odd(db, m);
        }
      }
    }
  }

  lemma OneHolder(db: Db, m: Model, now: int, id1: string, id2: string, k: Key)
    requires HeldOk(db, m, now) && k.Unique?
    requires LiveRow(db, m, id1, now) && Wants(m, RowAt(db, m, id1), k)
    requires LiveRow(db, m, id2, now) && Wants(m, RowAt(db, m, id2), k)
    ensures id1 == id2
  {
    assert Holds(db, k, id1) && Holds(db, k, id2);
  }

  /** Two live rows never share a unique value. */
  lemma UniqueValues(db: Db, m: Model, now: int, id1: string, id2: string, f: string)
    requires Inv(db, m, now) && f in m.uniques
    requires LiveRow(db, m, id1, now) && LiveRow(db, m, id2, now)
    requires f in RowAt(db, m, id1) && f in RowAt(db, m, id2) && RowAt(db, m, id1)[f] == RowAt(db, m, id2)[f]
    ensures id1 == id2
  {
    assert Shown(0);
    OneHolder(db, m, now, id1, id2, Unique(m.name, f, m.Segment(RowAt(db, m, id1)[f])));
  }

  /** Time only shrinks what the invariant speaks about. */
  lemma TickKeepsInv(db: Db, m: Model, now: int, later: int)
    requires Inv(db, m, now) && now <= later
    ensures Inv(db, m, later)
  {
    assert Shown(0);
    assert forall id: string :: LiveRow(db, m, id, later) ==> LiveRow(db, m, id, now);
  }

  // ---- writes, as what every lookup becomes ----

  /** Another id already holds, visibly, a unique key the row wants. */
  ghost predicate Taken(db: Db, m: Model, now: int, row: Row, id: string) {
    exists k: Key :: k.Unique? && Wants(m, row, k) && HeldByOther(db, k, id, now)
  }

  predicate HeldByOther(db: Db, k: Key, id: string, now: int) {
    var d := Read(db, k, now);
    d.Some? && d.value.IdData? && d.value.id != "" && d.value.id != id
  }

  ghost predicate Created(a: Db, b: Db, m: Model, id: string, row: Row, exp: Score) {
    && (forall k: Key :: CellAt(b, k) ==
          if k == Obj(m.name, id) then Some(Cell(RowData(row), exp))
          else if k.Unique? && Wants(m, row, k) then Some(Cell(IdData(id), exp))
          else CellAt(a, k))
    && (forall k: Key, j: string :: ZScore(b, k, j) ==
          if j == id && (k == Ids(m.name) || (k.Index? && Wants(m, row, k))) then Some(exp) else ZScore(a, k, j))
    && (forall k: Key, x: Key :: InSet(b, k, x) <==> (k == Member(m.name, id) && Wants(m, row, x)) || InSet(a, k, x))
  }

  ghost predicate Patched(a: Db, b: Db, m: Model, id: string, o: Row, n: Row, exp: Score) {
    && (forall k: Key :: CellAt(b, k) ==
          if k == Obj(m.name, id) then Some(Cell(RowData(n), exp))
          else if k.Unique? && Wants(m, n, k) && !Wants(m, o, k) then Some(Cell(IdData(id), exp))
          else if k.Unique? && Wants(m, o, k) && !Wants(m, n, k) then None
          else CellAt(a, k))
    && (forall k: Key, j: string :: ZScore(b, k, j) ==
          if j != id then ZScore(a, k, j)
          else if k == Ids(m.name) || (k.Index? && Wants(m, n, k)) then Some(exp)
          else if k.Index? && Wants(m, o, k) then None
          else ZScore(a, k, j))
    && (forall k: Key, x: Key :: InSet(b, k, x) <==>
          if k == Member(m.name, id)
          then (InSet(a, k, x) || (Wants(m, n, x) && !Wants(m, o, x))) && !(Wants(m, o, x) && !Wants(m, n, x))
          else InSet(a, k, x))
  }

  ghost predicate Deleted(a: Db, b: Db, m: Model, id: string) {
    var own := Member(m.name, id);
    && (forall k: Key :: CellAt(b, k) ==
          if k == Obj(m.name, id) || (k.Unique? && InSet(a, own, k)) then None else CellAt(a, k))
    && (forall k: Key, j: string :: ZScore(b, k, j) ==
          if j == id && (k == Ids(m.name) || (k.Index? && InSet(a, own, k))) then None else ZScore(a, k, j))
    && (forall k: Key, x: Key :: InSet(b, k, x) <==> k != own && InSet(a, k, x))
  }

  ghost predicate Retimed(a: Db, b: Db, m: Model, id: string, exp: Score, now: int) {
    var own := Member(m.name, id);
    && (forall k: Key :: CellAt(b, k) ==
          if (k == Obj(m.name, id) || (k.Unique? && InSet(a, own, k))) && Visible(a, k, now)
          then Some(CellAt(a, k).value.(exp := exp)) else CellAt(a, k))
    && (forall k: Key, j: string :: ZScore(b, k, j) ==
          if j == id && (k == Ids(m.name) || (k.Index? && InSet(a, own, k))) then Some(exp) else ZScore(a, k, j))
    && (forall k: Key, x: Key :: InSet(b, k, x) <==> InSet(a, k, x))
  }

  /** Only the model's counter moved. */
  ghost predicate Counted(a: Db, b: Db, m: Model) {
    && (forall k: Key :: k != Seq(m.name) ==> CellAt(b, k) == CellAt(a, k))
    && (forall k: Key, j: string :: ZScore(b, k, j) == ZScore(a, k, j))
    && (forall k: Key, x: Key :: InSet(b, k, x) <==> InSet(a, k, x))
  }

  // ---- each write keeps the invariant ----

  lemma CreateKeepsInv(a: Db, b: Db, m: Model, now: int, id: string, row: Row, exp: Score)
    requires Inv(a, m, now) && Shaped(b) && Created(a, b, m, id, row, exp)
    requires CellAt(a, Obj(m.name, id)).None? && ProperRow(m, id, row) && Alive(exp, now)
    requires !Taken(a, m, now, row, id)
    ensures Inv(b, m, now)
  {
    assert Shown(0);
    CreateRows(a, b, m, id, row, exp);
    assert RowsOk(b, m);
    assert EntriesOk(b, m);
    assert MembersOk(b, m);
    CreateKeepsOwners(a, b, m, id, row, exp);
    CreateKeepsHeld(a, b, m, now, id, row, exp);
  }

  lemma CreateKeepsOwners(a: Db, b: Db, m: Model, id: string, row: Row, exp: Score)
    requires OwnersOk(a, m) && Created(a, b, m, id, row, exp) && CellAt(a, Obj(m.name, id)).None?
    ensures OwnersOk(b, m)
  {
    assert forall i: string :: i != id ==> CellAt(b, Obj(m.name, i)) == CellAt(a, Obj(m.name, i));
    forall k: Key | k.model == m.name && k.Unique? && CellAt(b, k).Some? && !Wants(m, row, k)
      ensures CellAt(b, k) == CellAt(a, k) && CellAt(a, k).value.data.IdData? && CellAt(a, k).value.data.id != id
    {}
  }

  lemma CreateKeepsHeld(a: Db, b: Db, m: Model, now: int, id: string, row: Row, exp: Score)
    requires Inv(a, m, now) && Created(a, b, m, id, row, exp)
    requires CellAt(a, Obj(m.name, id)).None? && !Taken(a, m, now, row, id)
    ensures HeldOk(b, m, now)
  {
    assert Shown(0);
    forall i: string, k: Key | LiveRow(b, m, i, now) && k.Unique? && Wants(m, RowAt(b, m, i), k)
      ensures Holds(b, k, i)
    {
      if i != id {
        assert CellAt(b, Obj(m.name, i)) == CellAt(a, Obj(m.name, i));
        assert LiveRow(a, m, i, now) && Holds(a, k, i);
        if Wants(m, row, k) {
          assert false;
        }
      }
    }
  }

  /** Everything the old row is listed under, the new one is too. */
  ghost predicate Outgrows(m: Model, o: Row, n: Row) {
    forall k: Key | Wants(m, o, k) :: Wants(m, n, k)
  }

  /**
   A create does not check that its id is free.  Over a stored row it keeps the
   invariant if and only if the new row is listed everywhere the old one was.
   */
  lemma CreateOverKeepsInvIff(a: Db, b: Db, m: Model, now: int, id: string, row: Row, exp: Score)
    requires Inv(a, m, now) && Shaped(b) && Created(a, b, m, id, row, exp)
    requires HasRow(a, m, id) && ProperRow(m, id, row) && Alive(exp, now) && !Taken(a, m, now, row, id)
    ensures Inv(b, m, now) <==> Outgrows(m, RowAt(a, m, id), row)
  {
    assert Shown(0);
    CreateRows(a, b, m, id, row, exp);
    var o := RowAt(a, m, id);
    if Outgrows(m, o, row) {
      CreateOverOwners(a, b, m, id, row, exp);
      CreateOverHeld(a, b, m, now, id, row, exp);
      assert RowsOk(b, m) && EntriesOk(b, m) && MembersOk(b, m);
    } else {
      var k: Key :| Wants(m, o, k) && !Wants(m, row, k);
      assert InSet(a, Member(m.name, id), k);
      assert InSet(b, Member(m.name, id), k);
      assert !MembersOk(b, m);
    }
  }

  lemma CreateOverOwners(a: Db, b: Db, m: Model, id: string, row: Row, exp: Score)
    requires OwnersOk(a, m) && Created(a, b, m, id, row, exp)
    requires HasRow(a, m, id) && Outgrows(m, RowAt(a, m, id), row)
    ensures OwnersOk(b, m)
  {
    assert forall i: string :: i != id ==> CellAt(b, Obj(m.name, i)) == CellAt(a, Obj(m.name, i));
    forall k: Key | k.model == m.name && k.Unique? && CellAt(b, k).Some? && !Wants(m, row, k)
      ensures CellAt(b, k) == CellAt(a, k) && CellAt(a, k).value.data.IdData? && CellAt(a, k).value.data.id != id
    {}
  }

  lemma CreateOverHeld(a: Db, b: Db, m: Model, now: int, id: string, row: Row, exp: Score)
    requires HeldOk(a, m, now) && Created(a, b, m, id, row, exp) && !Taken(a, m, now, row, id)
    requires RowsOk(a, m) && OwnersOk(a, m)
    ensures HeldOk(b, m, now)
  {
    forall i: string, k: Key | LiveRow(b, m, i, now) && k.Unique? && Wants(m, RowAt(b, m, i), k)
      ensures Holds(b, k, i)
    {
      if i != id {
        assert CellAt(b, Obj(m.name, i)) == CellAt(a, Obj(m.name, i));
        assert LiveRow(a, m, i, now) && Holds(a, k, i);
        assert CellAt(a, Obj(m.name, i)).Some?;
        assert HeldByOther(a, k, id, now);
      }
    }
  }

  /** The id can take this row: it is not empty, and a row already stored under it is listed nowhere the new one is not. */
  ghost predicate CanHold(db: Db, m: Model, id: string, row: Row) {
    id != "" && (HasRow(db, m, id) ==> Outgrows(m, RowAt(db, m, id), row))
  }

  /** A create whose unique values are free keeps the invariant if and only if its id can take the row. */
  lemma CreateKeepsInvIff(a: Db, b: Db, m: Model, now: int, id: string, row: Row, exp: Score)
    requires Inv(a, m, now) && Shaped(b) && Created(a, b, m, id, row, exp)
    requires m.pk in row && m.IdText(row[m.pk]) == id && Alive(exp, now) && !Taken(a, m, now, row, id)
    ensures Inv(b, m, now) <==> CanHold(a, m, id, row)
  {
    ReadsLiveRow(a, m, now, id);
    if id == "" {
      CreateRows(a, b, m, id, row, exp);
      assert !RowsOk(b, m);
      assert Shown(0);
    } else if HasRow(a, m, id) {
      CreateOverKeepsInvIff(a, b, m, now, id, row, exp);
    } else {
      CreateKeepsInv(a, b, m, now, id, row, exp);
    }
  }

  /** Some unique key is wanted both before and after, so reindexing leaves it alone. */
  ghost predicate SharesUnique(m: Model, o: Row, n: Row) {
    exists k: Key :: k.Unique? && Wants(m, o, k) && Wants(m, n, k)
  }

  lemma PatchKeepsInv(a: Db, b: Db, m: Model, now: int, id: string, n: Row, exp: Score)
    requires Inv(a, m, now) && Shaped(b) && LiveRow(a, m, id, now) && Alive(exp, now)
    requires Patched(a, b, m, id, RowAt(a, m, id), n, exp)
    requires exp == ExpAt(a, m, id) || !SharesUnique(m, RowAt(a, m, id), n)
    requires ProperRow(m, id, n) && !Taken(a, m, now, n, id)
    ensures Inv(b, m, now)
  {
    PatchKeepsInvIff(a, b, m, now, id, n, exp);
  }

  /** Whatever a patch changes, the invariant survives if and only if the row still prints the key it is stored under. */
  lemma PatchKeepsInvIff(a: Db, b: Db, m: Model, now: int, id: string, n: Row, exp: Score)
    requires Inv(a, m, now) && Shaped(b) && LiveRow(a, m, id, now) && Alive(exp, now)
    requires Patched(a, b, m, id, RowAt(a, m, id), n, exp)
    requires exp == ExpAt(a, m, id) || !SharesUnique(m, RowAt(a, m, id), n)
    requires !Taken(a, m, now, n, id)
    ensures Inv(b, m, now) <==> ProperRow(m, id, n)
  {
    InvIff(a, m, now);
    PatchKeepsTied(a, b, m, now, id, n, exp);
    InvIff(b, m, now);
    assert id in OddNext(m, iset{}, id, n) <==> !ProperRow(m, id, n);
  }

  /** The odd ids once the row of `id` is `n`. */
  ghost function OddNext(m: Model, odd: iset<string>, id: string, n: Row): iset<string> {
    if ProperRow(m, id, n) then odd - iset{id} else odd + iset{id}
  }

  /** A patch of any fields keeps every derived structure in step, even among rows that print other keys than their own. */
  lemma PatchKeepsTied(a: Db, b: Db, m: Model, now: int, id: string, n: Row, exp: Score)
    requires Tied(a, m, now) && Shaped(b) && LiveRow(a, m, id, now) && Alive(exp, now)
    requires Patched(a, b, m, id, RowAt(a, m, id), n, exp)
    requires exp == ExpAt(a, m, id) || !SharesUnique(m, RowAt(a, m, id), n)
    requires !Taken(a, m, now, n, id)
    ensures Tied(b, m, now)
    ensures Odd(b, m) == OddNext(m, Odd(a, m), id, n)
  {
    PatchRows(a, b, m, id, n, exp);
    PatchKeepsEntries(a, b, m, now, id, n, exp);
    PatchKeepsOwners(a, b, m, now, id, n, exp);
    PatchKeepsHeld(a, b, m, now, id, n, exp);
  }

  lemma PatchRows(a: Db, b: Db, m: Model, id: string, n: Row, exp: Score)
    requires HasRow(a, m, id) && Patched(a, b, m, id, RowAt(a, m, id), n, exp)
    ensures forall i: string :: i != id ==> CellAt(b, Obj(m.name, i)) == CellAt(a, Obj(m.name, i))
    ensures CellAt(b, Obj(m.name, id)) == Some(Cell(RowData(n), exp))
    ensures forall i: string :: HasRow(b, m, i) <==> HasRow(a, m, i)
    ensures forall i: string | HasRow(a, m, i) ::
              RowAt(b, m, i) == (if i == id then n else RowAt(a, m, i)) &&
              ExpAt(b, m, i) == (if i == id then exp else ExpAt(a, m, i))
  {}

  lemma PatchKeepsEntries(a: Db, b: Db, m: Model, now: int, id: string, n: Row, exp: Score)
    requires Tied(a, m, now) && HasRow(a, m, id) && Patched(a, b, m, id, RowAt(a, m, id), n, exp)
    ensures RowsStored(b, m) && EntriesOk(b, m) && MembersOk(b, m)
  {
    assert Shown(0);
    PatchRows(a, b, m, id, n, exp);
  }

  lemma PatchKeepsOwners(a: Db, b: Db, m: Model, now: int, id: string, n: Row, exp: Score)
    requires Tied(a, m, now) && LiveRow(a, m, id, now)
    requires Patched(a, b, m, id, RowAt(a, m, id), n, exp)
    requires exp == ExpAt(a, m, id) || !SharesUnique(m, RowAt(a, m, id), n)
    ensures OwnersOk(b, m)
  {
    assert Shown(0);
    var o := RowAt(a, m, id);
    PatchRows(a, b, m, id, n, exp);
    forall k: Key | k.model == m.name && k.Unique? && CellAt(b, k).Some?
      ensures var c := CellAt(b, k).value;
              c.data.IdData? && HasRow(b, m, c.data.id) && Wants(m, RowAt(b, m, c.data.id), k) && c.exp == ExpAt(b, m, c.data.id)
    {
      if Wants(m, n, k) && !Wants(m, o, k) {
      } else {
        assert CellAt(b, k) == CellAt(a, k);
        if Wants(m, n, k) {
          assert Holds(a, k, id);
        }
      }
    }
  }

  lemma PatchKeepsHeld(a: Db, b: Db, m: Model, now: int, id: string, n: Row, exp: Score)
    requires Tied(a, m, now) && LiveRow(a, m, id, now)
    requires Patched(a, b, m, id, RowAt(a, m, id), n, exp)
    requires !Taken(a, m, now, n, id)
    ensures HeldOk(b, m, now)
  {
    assert Shown(0);
    var o := RowAt(a, m, id);
    PatchRows(a, b, m, id, n, exp);
    forall i: string, k: Key | LiveRow(b, m, i, now) && k.Unique? && Wants(m, RowAt(b, m, i), k)
      ensures Holds(b, k, i)
    {
      if i != id {
        assert LiveRow(a, m, i, now) && Holds(a, k, i);
        if Wants(m, n, k) && !Wants(m, o, k) {
          assert false;
        } else if Wants(m, o, k) {
          OneHolder(a, m, now, id, i, k);
          assert false;
        }
      } else {
        if Wants(m, o, k) {
          assert Holds(a, k, id);
        }
      }
    }
  }

  /**
   An update given a new ttl keeps the invariant if and only if the row's expiry
   does not actually change or the row keeps none of its unique values: an
   unchanged unique key is never rewritten, so it keeps the old expiry.
   */
  lemma NewTtlKeepsInvIff(a: Db, b: Db, m: Model, now: int, id: string, n: Row, exp: Score)
    requires Inv(a, m, now) && Shaped(b) && LiveRow(a, m, id, now) && Alive(exp, now)
    requires Patched(a, b, m, id, RowAt(a, m, id), n, exp)
    requires ProperRow(m, id, n) && !Taken(a, m, now, n, id)
    ensures Inv(b, m, now) <==> exp == ExpAt(a, m, id) || !SharesUnique(m, RowAt(a, m, id), n)
  {
    assert Shown(0);
    var o := RowAt(a, m, id);
    if exp == ExpAt(a, m, id) || !SharesUnique(m, o, n) {
      PatchKeepsInv(a, b, m, now, id, n, exp);
    } else {
      var k: Key :| k.Unique? && Wants(m, o, k) && Wants(m, n, k);
      PatchRows(a, b, m, id, n, exp);
      assert Holds(a, k, id);
      assert CellAt(b, k) == CellAt(a, k);
      assert CellAt(b, k).value.exp != ExpAt(b, m, id);
    }
  }

  /** No live row holds a unique key listed in `id`'s membership set. */
  ghost predicate Unstolen(db: Db, m: Model, id: string, now: int) {
    forall k: Key, i: string {:trigger InSet(db, Member(m.name, id), k), Holds(db, k, i)} ::
      InSet(db, Member(m.name, id), k) && k.Unique? && i != id && LiveRow(db, m, i, now) ==> !Holds(db, k, i)
  }

  lemma LiveIsUnstolen(db: Db, m: Model, id: string, now: int)
    requires Inv(db, m, now) && LiveRow(db, m, id, now)
    ensures Unstolen(db, m, id, now)
  {
    assert Shown(0);
    forall k: Key, i: string | InSet(db, Member(m.name, id), k) && k.Unique? && i != id && LiveRow(db, m, i, now)
      ensures !Holds(db, k, i)
    {
      assert Holds(db, k, id);
    }
  }

  lemma DeleteKeepsInv(a: Db, b: Db, m: Model, now: int, id: string)
    requires Inv(a, m, now) && Shaped(b) && Deleted(a, b, m, id) && HasRow(a, m, id)
    requires Unstolen(a, m, id, now)
    ensures Inv(b, m, now)
  {
    assert Shown(0);
    DeleteRows(a, b, m, id);
    DeleteKeepsEntries(a, b, m, now, id);
    forall k: Key | k.model == m.name && k.Unique? && CellAt(b, k).Some?
      ensures var c := CellAt(b, k).value;
              c.data.IdData? && HasRow(b, m, c.data.id) && Wants(m, RowAt(b, m, c.data.id), k) && c.exp == ExpAt(b, m, c.data.id)
    {
      assert CellAt(b, k) == CellAt(a, k) && !InSet(a, Member(m.name, id), k);
    }
    forall i: string, k: Key | LiveRow(b, m, i, now) && k.Unique? && Wants(m, RowAt(b, m, i), k)
      ensures Holds(b, k, i)
    {
      assert Holds(a, k, i);
      assert InSet(a, Member(m.name, id), k) ==> false;
    }
  }

  lemma DeleteRows(a: Db, b: Db, m: Model, id: string)
    requires Deleted(a, b, m, id)
    ensures forall i: string :: i != id ==> CellAt(b, Obj(m.name, i)) == CellAt(a, Obj(m.name, i))
    ensures CellAt(b, Obj(m.name, id)).None?
    ensures forall i: string :: HasRow(b, m, i) <==> i != id && HasRow(a, m, i)
    ensures forall i: string | HasRow(b, m, i) :: RowAt(b, m, i) == RowAt(a, m, i) && ExpAt(b, m, i) == ExpAt(a, m, i)
  {}

  lemma DeleteKeepsEntries(a: Db, b: Db, m: Model, now: int, id: string)
    requires Inv(a, m, now) && Deleted(a, b, m, id) && HasRow(a, m, id)
    ensures RowsOk(b, m) && EntriesOk(b, m) && MembersOk(b, m)
  {
    assert Shown(0);
    DeleteRows(a, b, m, id);
    forall k: Key, j: string | k.model == m.name && (k.Ids? || k.Index?)
      ensures ZScore(b, k, j) ==
              if HasRow(b, m, j) && (k.Ids? || Wants(m, RowAt(b, m, j), k)) then Some(ExpAt(b, m, j)) else None
    {
      assert ZScore(a, k, j) ==
             if HasRow(a, m, j) && (k.Ids? || Wants(m, RowAt(a, m, j), k)) then Some(ExpAt(a, m, j)) else None;
      assert InSet(a, Member(m.name, id), k) <==> Wants(m, RowAt(a, m, id), k);
    }
  }

  /**
   Collecting an expired id keeps the invariant if and only if none of its
   recorded unique keys has since been taken over by a live row.
   */
  lemma CollectKeepsInvIff(a: Db, b: Db, m: Model, now: int, id: string)
    requires Inv(a, m, now) && Shaped(b) && Deleted(a, b, m, id)
    requires HasRow(a, m, id) && !LiveRow(a, m, id, now)
    ensures Inv(b, m, now) <==> Unstolen(a, m, id, now)
  {
    assert Shown(0);
    if Unstolen(a, m, id, now) {
      DeleteKeepsInv(a, b, m, now, id);
    } else {
      var k: Key, i: string :| InSet(a, Member(m.name, id), k) && k.Unique? && i != id && LiveRow(a, m, i, now) && Holds(a, k, i);
      DeleteRows(a, b, m, id);
      assert k.model == m.name;
      assert Wants(m, RowAt(a, m, i), k);
      assert LiveRow(b, m, i, now) && !Holds(b, k, i);
    }
  }

  lemma RetimeKeepsInv(a: Db, b: Db, m: Model, now: int, id: string, exp: Score)
    requires Inv(a, m, now) && Shaped(b) && LiveRow(a, m, id, now) && Alive(exp, now)
    requires Retimed(a, b, m, id, exp, now)
    ensures Inv(b, m, now)
    ensures forall i: string :: HasRow(b, m, i) <==> HasRow(a, m, i)
    ensures forall i: string | HasRow(a, m, i) ::
              RowAt(b, m, i) == RowAt(a, m, i) && ExpAt(b, m, i) == if i == id then exp else ExpAt(a, m, i)
  {
    assert Shown(0);
    assert forall i: string :: i != id ==> CellAt(b, Obj(m.name, i)) == CellAt(a, Obj(m.name, i));
    assert Visible(a, Obj(m.name, id), now);
    assert CellAt(b, Obj(m.name, id)).Some?;
    assert RowsOk(b, m);
    RetimeKeepsEntries(a, b, m, now, id, exp);
    assert MembersOk(b, m);
    RetimeKeepsOwners(a, b, m, now, id, exp);
    forall i: string, k: Key | LiveRow(b, m, i, now) && k.Unique? && Wants(m, RowAt(b, m, i), k)
      ensures Holds(b, k, i)
    {
      assert LiveRow(a, m, i, now) && Holds(a, k, i);
    }
  }

  /** Setting an expiry keeps the invariant if and only if the id has a live row: otherwise the id list gains a dangling entry. */
  lemma RetimeKeepsInvIff(a: Db, b: Db, m: Model, now: int, id: string, exp: Score)
    requires Inv(a, m, now) && Shaped(b) && Alive(exp, now) && Retimed(a, b, m, id, exp, now)
    ensures Inv(b, m, now) <==> LiveRow(a, m, id, now)
  {
    assert Shown(0);
    if LiveRow(a, m, id, now) {
      RetimeKeepsInv(a, b, m, now, id, exp);
    } else {
      assert CellAt(b, Obj(m.name, id)) == CellAt(a, Obj(m.name, id));
      assert ZScore(b, Ids(m.name), id) == Some(exp);
      assert CellAt(a, Obj(m.name, id)).Some? ==> HasRow(a, m, id);
      assert !EntriesOk(b, m);
    }
  }

  lemma RetimeKeepsEntries(a: Db, b: Db, m: Model, now: int, id: string, exp: Score)
    requires Inv(a, m, now) && LiveRow(a, m, id, now) && Retimed(a, b, m, id, exp, now)
    ensures EntriesOk(b, m)
  {
    assert Shown(0);
    assert Visible(a, Obj(m.name, id), now);
    forall k: Key, j: string | k.model == m.name && (k.Ids? || k.Index?)
      ensures ZScore(b, k, j) ==
              if HasRow(b, m, j) && (k.Ids? || Wants(m, RowAt(b, m, j), k)) then Some(ExpAt(b, m, j)) else None
    {
      assert CellAt(b, Obj(m.name, j)) == CellAt(b, Obj(m.name, j));
      assert ZScore(a, k, j) ==
             if HasRow(a, m, j) && (k.Ids? || Wants(m, RowAt(a, m, j), k)) then Some(ExpAt(a, m, j)) else None;
      assert InSet(a, Member(m.name, id), k) <==> Wants(m, RowAt(a, m, id), k);
    }
  }

  lemma RetimeKeepsOwners(a: Db, b: Db, m: Model, now: int, id: string, exp: Score)
    requires Inv(a, m, now) && LiveRow(a, m, id, now) && Retimed(a, b, m, id, exp, now)
    ensures OwnersOk(b, m)
  {
    assert Shown(0);
    assert Visible(a, Obj(m.name, id), now);
    assert forall i: string :: i != id ==> CellAt(b, Obj(m.name, i)) == CellAt(a, Obj(m.name, i));
    forall k: Key | k.model == m.name && k.Unique? && CellAt(b, k).Some?
      ensures var c := CellAt(b, k).value;
              c.data.IdData? && HasRow(b, m, c.data.id) && Wants(m, RowAt(b, m, c.data.id), k) && c.exp == ExpAt(b, m, c.data.id)
    {
      assert CellAt(a, k).Some?;
      var owner := CellAt(a, k).value.data.id;
      if InSet(a, Member(m.name, id), k) {
        assert Holds(a, k, id);
        assert owner == id;
      } else {
        assert owner != id;
      }
    }
  }

  lemma CountKeepsInv(a: Db, b: Db, m: Model, counted: Model, now: int)
    requires Inv(a, m, now) && Shaped(b) && Counted(a, b, counted)
    ensures Inv(b, m, now)
  {
    assert Shown(0);
    assert forall i: string :: CellAt(b, Obj(m.name, i)) == CellAt(a, Obj(m.name, i));
    assert forall k: Key, i: string :: k.Unique? ==> (Holds(b, k, i) <==> Holds(a, k, i));
  }

  // ---- frame: writes of one model leave another model's invariant alone ----

  ghost predicate Untouched(a: Db, b: Db, name: string) {
    && (forall k: Key :: k.model == name ==> CellAt(b, k) == CellAt(a, k))
    && (forall k: Key, j: string :: k.model == name ==> ZScore(b, k, j) == ZScore(a, k, j))
    && (forall k: Key, x: Key :: k.model == name ==> (InSet(b, k, x) <==> InSet(a, k, x)))
  }

  lemma UntouchedKeepsInv(a: Db, b: Db, m: Model, now: int)
    requires Inv(a, m, now) && Shaped(b) && Untouched(a, b, m.name)
    ensures Inv(b, m, now)
  {
    assert Shown(0);
    assert forall i: string :: CellAt(b, Obj(m.name, i)) == CellAt(a, Obj(m.name, i));
    forall i: string, k: Key | LiveRow(b, m, i, now) && k.Unique? && Wants(m, RowAt(b, m, i), k)
      ensures Holds(b, k, i)
    {
      assert Holds(a, k, i);
    }
  }

  // ---- what readers can see ----

  /** The rows visible at `now`, with their expiries. */
  ghost function Live(db: Db, m: Model, now: int): map<string, Cell> {
    map k | k in db.strs && k.Obj? && k.model == m.name && LiveRow(db, m, k.id, now) :: k.id := db.strs[k]
  }

  lemma LiveLookup(db: Db, m: Model, now: int)
    ensures forall i: string :: i in Live(db, m, now) <==> LiveRow(db, m, i, now)
    ensures forall i: string | LiveRow(db, m, i, now) ::
              Live(db, m, now)[i] == Cell(RowData(RowAt(db, m, i)), ExpAt(db, m, i))
  {
    forall i: string ensures i in Live(db, m, now) <==> LiveRow(db, m, i, now) {
      if LiveRow(db, m, i, now) {
        assert Obj(m.name, i) in db.strs && Obj(m.name, i).id == i;
      }
    }
  }

  /** No row has expired. */
  ghost predicate Lively(db: Db, m: Model, now: int) {
    forall i: string {:trigger HasRow(db, m, i)} :: HasRow(db, m, i) ==> LiveRow(db, m, i, now)
  }

  lemma TimelessIsLively(db: Db, m: Model, now: int)
    requires Timeless(db)
    ensures Lively(db, m, now)
  {
    forall i: string | HasRow(db, m, i) ensures LiveRow(db, m, i, now) {
      assert Obj(m.name, i) in db.strs;
    }
  }

  lemma CreateRows(a: Db, b: Db, m: Model, id: string, row: Row, exp: Score)
    requires Created(a, b, m, id, row, exp)
    ensures forall i: string :: i != id ==> CellAt(b, Obj(m.name, i)) == CellAt(a, Obj(m.name, i))
    ensures CellAt(b, Obj(m.name, id)) == Some(Cell(RowData(row), exp))
    ensures forall i: string :: HasRow(b, m, i) <==> i == id || HasRow(a, m, i)
    ensures forall i: string | HasRow(b, m, i) ::
              RowAt(b, m, i) == (if i == id then row else RowAt(a, m, i)) &&
              ExpAt(b, m, i) == (if i == id then exp else ExpAt(a, m, i))
  {}

  lemma CreateLive(a: Db, b: Db, m: Model, id: string, row: Row, exp: Score, now: int)
    requires Created(a, b, m, id, row, exp) && Alive(exp, now)
    ensures Live(b, m, now) == Live(a, m, now)[id := Cell(RowData(row), exp)]
  {
    CreateRows(a, b, m, id, row, exp);
    LiveLookup(a, m, now);
    LiveLookup(b, m, now);
  }

  lemma PatchLive(a: Db, b: Db, m: Model, id: string, n: Row, exp: Score, now: int)
    requires HasRow(a, m, id) && Patched(a, b, m, id, RowAt(a, m, id), n, exp) && Alive(exp, now)
    ensures Live(b, m, now) == Live(a, m, now)[id := Cell(RowData(n), exp)]
  {
    PatchRows(a, b, m, id, n, exp);
    LiveLookup(a, m, now);
    LiveLookup(b, m, now);
  }

  lemma CountLive(a: Db, b: Db, m: Model, now: int)
    requires Counted(a, b, m)
    ensures Live(b, m, now) == Live(a, m, now)
  {
    LiveLookup(a, m, now);
    LiveLookup(b, m, now);
    assert forall i: string :: CellAt(b, Obj(m.name, i)) == CellAt(a, Obj(m.name, i));
  }

  /** A live row is listed under its own id; its key is proper. */
  lemma LiveMember(db: Db, m: Model, now: int, id: string)
    requires Inv(db, m, now) && id in Live(db, m, now)
    ensures LiveRow(db, m, id, now) && ProperRow(m, id, RowAt(db, m, id))
    ensures Live(db, m, now)[id] == Cell(RowData(RowAt(db, m, id)), ExpAt(db, m, id))
  {
    assert Shown(0);
    LiveLookup(db, m, now);
    assert CellAt(db, Obj(m.name, id)).Some?;
  }

  /** Reading an object key finds the live row, or nothing. */
  lemma ReadsLiveRow(db: Db, m: Model, now: int, id: string)
    requires Inv(db, m, now)
    ensures Read(db, Obj(m.name, id), now) ==
            if id in Live(db, m, now) then Some(RowData(RowAt(db, m, id))) else None
    ensures CellAt(db, Obj(m.name, id)).Some? <==> HasRow(db, m, id)
  {
    assert Shown(0);
    LiveLookup(db, m, now);
    assert CellAt(db, Obj(m.name, id)).Some? ==> HasRow(db, m, id);
  }

  lemma MembersAreKeys(db: Db, m: Model, now: int, id: string)
    requires Inv(db, m, now)
    ensures forall k: Key | InSet(db, Member(m.name, id), k) :: k.Index? || k.Unique?
  {
    assert Shown(0);
  }

  /** An id list or index entry belongs to a stored row that wants it, under the row's expiry. */
  lemma EntryMeaning(db: Db, m: Model, now: int, k: Key, id: string)
    requires Inv(db, m, now) && (k == Ids(m.name) || (k.Index? && k.model == m.name))
    ensures ZScore(db, k, id) ==
            if HasRow(db, m, id) && (k.Ids? || Wants(m, RowAt(db, m, id), k)) then Some(ExpAt(db, m, id)) else None
  {
    assert Shown(0);
  }

  /** Expired rows whose unique keys were taken over are the one hazard of collecting. */
  ghost predicate GcSafe(db: Db, m: Model, now: int) {
    forall i: string :: HasRow(db, m, i) && !LiveRow(db, m, i, now) ==> Unstolen(db, m, i, now)
  }

  lemma GcSafeWithoutUniques(db: Db, m: Model, now: int)
    requires Inv(db, m, now) && m.uniques == []
    ensures GcSafe(db, m, now)
  {
    assert Shown(0);
  }

  lemma LivelyIsGcSafe(db: Db, m: Model, now: int)
    requires Lively(db, m, now)
    ensures GcSafe(db, m, now)
  {}

  lemma DeleteKeepsGcSafe(a: Db, b: Db, m: Model, now: int, id: string)
    requires Deleted(a, b, m, id) && GcSafe(a, m, now)
    ensures GcSafe(b, m, now)
  {
    DeleteRows(a, b, m, id);
    forall i: string | HasRow(b, m, i) && !LiveRow(b, m, i, now) ensures Unstolen(b, m, i, now) {
      assert Unstolen(a, m, i, now);
      forall k: Key, j: string | InSet(b, Member(m.name, i), k) && k.Unique? && j != i && LiveRow(b, m, j, now)
        ensures !Holds(b, k, j)
      {
        assert InSet(a, Member(m.name, i), k) && LiveRow(a, m, j, now) && !Holds(a, k, j);
      }
    }
  }

  lemma DeleteLive(a: Db, b: Db, m: Model, id: string, later: int)
    requires Deleted(a, b, m, id)
    ensures Live(b, m, later) == Live(a, m, later) - {id}
  {
    DeleteRows(a, b, m, id);
    LiveLookup(a, m, later);
    LiveLookup(b, m, later);
  }

  /**
   Collecting one expired row is invisible: the same rows, under the same
   expiries, are live at every instant from now on, the invariant still holds
   there, and further collecting stays safe.
   */
  lemma CollectIsInvisible(a: Db, b: Db, m: Model, now: int, id: string, later: int)
    requires Inv(a, m, now) && Shaped(b) && Deleted(a, b, m, id) && now <= later
    requires HasRow(a, m, id) && !LiveRow(a, m, id, now) && GcSafe(a, m, now)
    ensures Inv(b, m, later) && GcSafe(b, m, now)
    ensures Live(b, m, later) == Live(a, m, later)
  {
    assert Shown(0);
    DeleteKeepsInv(a, b, m, now, id);
    TickKeepsInv(b, m, now, later);
    DeleteKeepsGcSafe(a, b, m, now, id);
    DeleteLive(a, b, m, id, later);
    LiveLookup(a, m, later);
  }

  /**
   One expiry per row: from now on a live row is visible through its object key,
   the id list, each of its index sets and each of its unique keys together, or
   through none of them.
   */
  lemma OneExpiry(db: Db, m: Model, now: int, later: int, id: string)
    requires Inv(db, m, now) && LiveRow(db, m, id, now) && now <= later
    ensures var row := RowAt(db, m, id);
            var seen := LiveRow(db, m, id, later);
            && (Read(db, Obj(m.name, id), later) == (if seen then Some(RowData(row)) else None))
            && (ZScore(db, Ids(m.name), id).Some? && (Alive(ZScore(db, Ids(m.name), id).value, later) <==> seen))
            && (forall k: Key | k.Index? && Wants(m, row, k) ::
                  ZScore(db, k, id).Some? && (Alive(ZScore(db, k, id).value, later) <==> seen))
            && (forall k: Key | k.Unique? && Wants(m, row, k) ::
                  Read(db, k, later) == (if seen then Some(IdData(id)) else None))
  {
    assert Shown(0);
    var row := RowAt(db, m, id);
    forall k: Key | k.Unique? && Wants(m, row, k)
      ensures Read(db, k, later) == (if LiveRow(db, m, id, later) then Some(IdData(id)) else None)
    {
      assert Holds(db, k, id);
    }
  }

  /**
   The derived structures are a function of the rows: two stores with the same
   rows, all live, agree on every key of the model except its counter.
   */
  lemma RowsDetermineStore(a: Db, b: Db, m: Model, now: int)
    requires Inv(a, m, now) && Inv(b, m, now)
    requires forall i: string :: CellAt(a, Obj(m.name, i)) == CellAt(b, Obj(m.name, i))
    requires forall i: string :: HasRow(a, m, i) ==> LiveRow(a, m, i, now)
    requires CellAt(a, Seq(m.name)) == CellAt(b, Seq(m.name))
    ensures Untouched(a, b, m.name)
  {
    assert Shown(0);
    forall k: Key | k.model == m.name ensures CellAt(b, k) == CellAt(a, k) {
      if k.Unique? {
        if CellAt(a, k).Some? {
          assert Holds(b, k, CellAt(a, k).value.data.id);
        }
        if CellAt(b, k).Some? {
          assert Holds(a, k, CellAt(b, k).value.data.id);
        }
      }
    }
    forall k: Key, j: string | k.model == m.name ensures ZScore(b, k, j) == ZScore(a, k, j) {
      if !(k.Ids? || k.Index?) {
        assert k !in a.zsets && k !in b.zsets;
      }
    }
    forall k: Key, x: Key | k.model == m.name ensures InSet(b, k, x) <==> InSet(a, k, x) {
      if !k.Member? {
        assert k !in a.sets && k !in b.sets;
      }
    }
  }
}
