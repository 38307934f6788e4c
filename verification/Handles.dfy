/**
 Calls for an adapter's handle, when they may overlap.  A call looks whether the
 adapter's transaction is open, waits for one to begin, and only then notes it;
 another call can look in between.  Transactions are numbered, so two of one
 adapter can be told apart.
 */
module Handles {
  /** Open transactions by adapter, how many were begun, those finalised, and the calls waiting for one to begin. */
  datatype Desk = Desk(txs: map<string, nat>, begun: nat, closed: set<nat>, waiting: map<nat, string>)

  datatype Step =
    | Look(call: nat, name: string)
    | Register(call: nat)
    | Finish

  const START: Desk := Desk(map[], 0, {}, map[])

  /** The two halves of a call, and a commit or rollback, which finalises every transaction noted. */
  predicate Next(supporting: set<string>, a: Desk, b: Desk, step: Step) {
    match step
    case Look(call, name) =>
      && call !in a.waiting
      && b == if name in a.txs || name !in supporting then a else a.(waiting := a.waiting[call := name])
    case Register(call) =>
      && call in a.waiting
      && b == a.(txs := a.txs[a.waiting[call] := a.begun], begun := a.begun + 1, waiting := a.waiting - {call})
    case Finish =>
      b == a.(txs := map[], closed := a.closed + a.txs.Values)
  }

  ghost predicate Run(supporting: set<string>, desks: seq<Desk>, steps: seq<Step>) {
    && |desks| == |steps| + 1
    && forall i | 0 <= i < |steps| :: Next(supporting, desks[i], desks[i + 1], steps[i])
  }

  /** Begun, not finalised, and noted nowhere: no commit or rollback will ever reach it. */
  ghost predicate Lost(d: Desk, id: nat) {
    id < d.begun && id !in d.closed && forall name | name in d.txs :: d.txs[name] != id
  }

  /** A call ends by noting its transaction over one already noted. */
  predicate Overwrites(d: Desk, step: Step) {
    step.Register? && step.call in d.waiting && d.waiting[step.call] in d.txs
  }

  /** Noted transactions are distinct, begun and open. */
  ghost predicate Proper(d: Desk) {
    && (forall a, b | a in d.txs && b in d.txs && d.txs[a] == d.txs[b] :: a == b)
    && (forall a | a in d.txs :: d.txs[a] < d.begun && d.txs[a] !in d.closed)
    && (forall id | id in d.closed :: id < d.begun)
  }

  lemma StepProper(supporting: set<string>, a: Desk, b: Desk, step: Step)
    requires Proper(a) && Next(supporting, a, b, step)
    ensures Proper(b)
  {
    if step.Finish? {
      forall id | id in b.closed ensures id < b.begun {
        if id !in a.closed {
          var name :| name in a.txs && a.txs[name] == id;
        }
      }
    }
  }

  /** What is lost stays lost, and a step loses a transaction exactly when it overwrites one. */
  lemma StepLoses(supporting: set<string>, a: Desk, b: Desk, step: Step)
    requires Proper(a) && Next(supporting, a, b, step)
    ensures forall id | Lost(a, id) :: Lost(b, id)
    ensures Overwrites(a, step) ==> Lost(b, a.txs[a.waiting[step.call]])
    ensures !Overwrites(a, step) ==> forall id | Lost(b, id) :: Lost(a, id)
  {
    match step
    case Look(_, _) =>
    case Register(call) =>
      var name := a.waiting[call];
      forall id | Lost(a, id) ensures Lost(b, id) {
        assert forall n | n in b.txs && n != name :: n in a.txs && b.txs[n] == a.txs[n];
      }
      if name !in a.txs {
        forall id | Lost(b, id) ensures Lost(a, id) {
          assert b.txs[name] != id;
          forall n | n in a.txs ensures a.txs[n] != id {
            assert b.txs[n] == a.txs[n];
          }
        }
      }
    case Finish =>
      forall id | Lost(b, id) ensures Lost(a, id) {
        forall n | n in a.txs ensures a.txs[n] != id {
          assert a.txs[n] in a.txs.Values;
        }
      }
  }

  /** In every run, a transaction is lost if and only if some call noted its own over one already noted. */
  lemma {:induction false} LostIff(supporting: set<string>, desks: seq<Desk>, steps: seq<Step>, n: nat)
    requires Run(supporting, desks, steps) && desks[0] == START && n < |desks|
    ensures Proper(desks[n])
    ensures (exists id :: Lost(desks[n], id)) <==> exists i | 0 <= i < n :: Overwrites(desks[i], steps[i])
  {
    if n > 0 {
      LostIff(supporting, desks, steps, n - 1);
      var a, step := desks[n - 1], steps[n - 1];
      StepProper(supporting, a, desks[n], step);
      StepLoses(supporting, a, desks[n], step);
      if Overwrites(a, step) {
        assert Lost(desks[n], a.txs[a.waiting[step.call]]);
      } else if id :| Lost(a, id) {
        assert Lost(desks[n], id);
      }
    }
  }

  /** Two calls waiting for the same adapter at once: both finishing loses the first one's transaction. */
  lemma OverlapLoses(supporting: set<string>, a: Desk, b: Desk, c: Desk, one: nat, other: nat)
    requires Proper(a) && one in a.waiting && other in a.waiting && one != other && a.waiting[one] == a.waiting[other]
    requires Next(supporting, a, b, Register(one)) && Next(supporting, b, c, Register(other))
    ensures Lost(c, a.begun)
  {
    StepProper(supporting, a, b, Register(one));
    StepLoses(supporting, b, c, Register(other));
  }

  /** No call looks for an adapter another call is waiting for. */
  ghost predicate InTurn(desks: seq<Desk>, steps: seq<Step>, n: nat)
    requires n <= |steps| <= |desks|
  {
    forall i | 0 <= i < n && steps[i].Look? :: steps[i].name !in desks[i].waiting.Values
  }

  /** One call per adapter waits, and only while the adapter's transaction is not open. */
  ghost predicate Orderly(d: Desk) {
    && (forall a, b | a in d.waiting && b in d.waiting && d.waiting[a] == d.waiting[b] :: a == b)
    && forall a | a in d.waiting :: d.waiting[a] !in d.txs
  }

  /** Calls for one adapter that take turns lose nothing: every transaction begun is noted or finalised. */
  lemma {:induction false} TurnsLoseNothing(supporting: set<string>, desks: seq<Desk>, steps: seq<Step>, n: nat)
    requires Run(supporting, desks, steps) && desks[0] == START && n < |desks| && InTurn(desks, steps, n)
    ensures Orderly(desks[n])
    ensures !exists id :: Lost(desks[n], id)
  {
    if n > 0 {
      TurnsLoseNothing(supporting, desks, steps, n - 1);
      LostIff(supporting, desks, steps, n - 1);
      StepLoses(supporting, desks[n - 1], desks[n], steps[n - 1]);
    }
  }
}
