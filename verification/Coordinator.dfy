/**
 A unit of work over several adapters: transactions opened lazily, committed in
 opening order, rolled back together, with callbacks after a commit.
 */
module Coordinator {
  import opened Wrappers

  /** What happened at the adapters and to the callbacks, in order. */
  datatype Event =
    | Began(name: string)
    | CommitDone(name: string)
    | CommitFailed(name: string)
    | RolledBack(name: string)
    | Ran(callback: nat)

  // ---- logs ----

  /** What one event does to the open transactions. */
  function OpenNext(open: set<string>, e: Event): set<string> {
    match e
    case Began(name) => open + {name}
    case CommitDone(name) => open - {name}
    case RolledBack(name) => open - {name}
    case CommitFailed(_) => open
    case Ran(_) => open
  }

  /** The adapters whose transaction is open after these events. */
  function OpenAfter(log: seq<Event>): set<string> {
    if log == [] then {} else OpenNext(OpenAfter(log[..|log| - 1]), log[|log| - 1])
  }

  ghost predicate Allowed(log: seq<Event>, e: Event) {
    match e
    case Began(n) => n !in OpenAfter(log)
    case CommitDone(n) => n in OpenAfter(log)
    case CommitFailed(n) => n in OpenAfter(log)
    case RolledBack(n) => n in OpenAfter(log)
    case Ran(c) => Ran(c) !in log
  }

  /** Nothing is begun twice, finalised twice or finalised unopened, and no callback runs twice. */
  ghost predicate Lawful(log: seq<Event>) {
    log == [] || (Lawful(log[..|log| - 1]) && Allowed(log[..|log| - 1], log[|log| - 1]))
  }

  lemma LawfulSnoc(log: seq<Event>, e: Event)
    requires Lawful(log) && Allowed(log, e)
    ensures Lawful(log + [e])
    ensures OpenAfter(log + [e]) == OpenNext(OpenAfter(log), e)
  {
    assert (log + [e])[..|log|] == log;
  }

  function Tally(log: seq<Event>, e: Event): nat {
    if log == [] then 0 else Tally(log[..|log| - 1], e) + if log[|log| - 1] == e then 1 else 0
  }

  lemma {:induction false} TallyMember(log: seq<Event>, e: Event)
    ensures Tally(log, e) > 0 <==> e in log
  {
    if log != [] {
      TallyMember(log[..|log| - 1], e);
      assert log == log[..|log| - 1] + [log[|log| - 1]];
    }
  }

  lemma {:induction false} TallyCounts(log: seq<Event>, e: Event)
    ensures Tally(log, e) == multiset(log)[e]
  {
    if log != [] {
      TallyCounts(log[..|log| - 1], e);
      assert log == log[..|log| - 1] + [log[|log| - 1]];
    }
  }

  /**
   In a lawful log every opened transaction is committed or rolled back exactly
   once, except the one that may still be open; no callback runs twice.
   */
  lemma {:induction false} FinalisedOnce(log: seq<Event>, name: string, callback: nat)
    requires Lawful(log)
    ensures Tally(log, Began(name)) ==
            Tally(log, CommitDone(name)) + Tally(log, RolledBack(name)) + if name in OpenAfter(log) then 1 else 0
    ensures Tally(log, Ran(callback)) <= 1
  {
    if log != [] {
      FinalisedOnce(log[..|log| - 1], name, callback);
      TallyMember(log[..|log| - 1], Ran(callback));
    }
  }

  // ---- the three phases of a finalisation ----

  function Commits(names: seq<string>): seq<Event> {
    if names == [] then [] else Commits(names[..|names| - 1]) + [CommitDone(names[|names| - 1])]
  }

  function Rollbacks(names: seq<string>): seq<Event> {
    if names == [] then [] else Rollbacks(names[..|names| - 1]) + [RolledBack(names[|names| - 1])]
  }

  function Runs(callbacks: seq<nat>): seq<Event> {
    if callbacks == [] then [] else Runs(callbacks[..|callbacks| - 1]) + [Ran(callbacks[|callbacks| - 1])]
  }

  /**
   What a commit does: the first `n` transactions commit; if that is not all, the
   next one fails and it and the rest are rolled back; callbacks run only if
   something committed or nothing was open.
   */
  function CommitTrace(names: seq<string>, callbacks: seq<nat>, n: nat): seq<Event>
    requires n <= |names|
  {
    Commits(names[..n]) +
    (if n < |names| then [CommitFailed(names[n])] + Rollbacks(names[n..]) else []) +
    (if n > 0 || names == [] then Runs(callbacks) else [])
  }

  lemma TraceParts(start: seq<Event>, names: seq<string>, callbacks: seq<nat>, n: nat, log: seq<Event>)
    requires n <= |names|
    requires n == |names| ==> log == start + Commits(names[..n]) + [] + if n > 0 || names == [] then Runs(callbacks) else []
    requires n < |names| ==> log == start + Commits(names[..n]) + [CommitFailed(names[n])] + Rollbacks(names[n..]) +
                                    if n > 0 || names == [] then Runs(callbacks) else []
    ensures log == start + CommitTrace(names, callbacks, n)
  {}

  lemma {:induction false} CommitsAt(names: seq<string>)
    ensures |Commits(names)| == |names| && forall i | 0 <= i < |names| :: Commits(names)[i] == CommitDone(names[i])
  {
    if names != [] {
      CommitsAt(names[..|names| - 1]);
    }
  }

  lemma {:induction false} RollbacksAt(names: seq<string>)
    ensures |Rollbacks(names)| == |names| && forall i | 0 <= i < |names| :: Rollbacks(names)[i] == RolledBack(names[i])
  {
    if names != [] {
      RollbacksAt(names[..|names| - 1]);
    }
  }

  lemma {:induction false} RunsAt(callbacks: seq<nat>)
    ensures |Runs(callbacks)| == |callbacks| && forall i | 0 <= i < |callbacks| :: Runs(callbacks)[i] == Ran(callbacks[i])
  {
    if callbacks != [] {
      RunsAt(callbacks[..|callbacks| - 1]);
    }
  }

  /**
   The log of a commit: the first `n` transactions commit in opening order; if that
   is not all, the next one fails and it and the rest are rolled back; then, if
   something committed or nothing was open, every callback runs, in the order
   enrolled, and otherwise none does.
   */
  ghost predicate Finalised(was: seq<Event>, log: seq<Event>, names: seq<string>, callbacks: seq<nat>, n: nat) {
    && n <= |names|
    && log == was
            + seq(n, i requires 0 <= i < n => CommitDone(names[i]))
            + (if n < |names| then [CommitFailed(names[n])] + seq(|names| - n, i requires 0 <= i < |names| - n => RolledBack(names[n + i])) else [])
            + (if n > 0 || names == [] then seq(|callbacks|, i requires 0 <= i < |callbacks| => Ran(callbacks[i])) else [])
  }

  lemma TraceReads(was: seq<Event>, names: seq<string>, callbacks: seq<nat>, n: nat, log: seq<Event>)
    requires n <= |names| && log == was + CommitTrace(names, callbacks, n)
    ensures Finalised(was, log, names, callbacks, n)
  {
    CommitsAt(names[..n]);
    RollbacksAt(names[n..]);
    RunsAt(callbacks);
    assert Commits(names[..n]) == seq(n, i requires 0 <= i < n => CommitDone(names[i]));
    assert Rollbacks(names[n..]) == seq(|names| - n, i requires 0 <= i < |names| - n => RolledBack(names[n + i]));
    assert Runs(callbacks) == seq(|callbacks|, i requires 0 <= i < |callbacks| => Ran(callbacks[i]));
    var middle := if n < |names| then [CommitFailed(names[n])] + Rollbacks(names[n..]) else [];
    var runs := if n > 0 || names == [] then Runs(callbacks) else [];
    assert log == was + Commits(names[..n]) + middle + runs;
  }

  /** Every callback ran once if they run at all, and none of them otherwise. */
  lemma RunsOnce(was: seq<Event>, log: seq<Event>, names: seq<string>, callbacks: seq<nat>, n: nat)
    requires Finalised(was, log, names, callbacks, n) && Lawful(log)
    requires forall c | c in callbacks :: Ran(c) !in was
    ensures forall c | c in callbacks :: Tally(log, Ran(c)) == if n > 0 || names == [] then 1 else 0
  {
    var ran := seq(|callbacks|, i requires 0 <= i < |callbacks| => Ran(callbacks[i]));
    forall c | c in callbacks ensures Tally(log, Ran(c)) == if n > 0 || names == [] then 1 else 0 {
      TallyMember(log, Ran(c));
      var i :| 0 <= i < |callbacks| && callbacks[i] == c;
      assert ran[i] == Ran(c);
      if n > 0 || names == [] {
        RanOnce(log, c);
      }
    }
  }

  /** In a lawful log whatever ran, ran once. */
  lemma RanOnce(log: seq<Event>, callback: nat)
    requires Lawful(log) && Ran(callback) in log
    ensures Tally(log, Ran(callback)) == 1
  {
    FinalisedOnce(log, "", callback);
    TallyMember(log, Ran(callback));
  }

  ghost predicate Distinct<T(!new)>(s: seq<T>) {
    forall i, j | 0 <= i < j < |s| :: s[i] != s[j]
  }

  /** The log is lawful, exactly `names` are open, and `callbacks` are still to run. */
  ghost predicate Standing(log: seq<Event>, names: seq<string>, callbacks: seq<nat>, next: nat) {
    && Lawful(log)
    && (forall n :: n in OpenAfter(log) <==> n in names)
    && Distinct(names)
    && Distinct(callbacks)
    && (forall c | c in callbacks :: c < next && Ran(c) !in log)
    && (forall c: nat {:trigger Ran(c) in log} | Ran(c) in log :: c < next)
  }

  /** Finalising the first open transaction leaves the rest open. */
  lemma FinaliseFirst(log: seq<Event>, names: seq<string>, callbacks: seq<nat>, next: nat, e: Event)
    requires Standing(log, names, callbacks, next) && names != []
    requires e == CommitDone(names[0]) || e == RolledBack(names[0])
    ensures Standing(log + [e], names[1..], callbacks, next)
  {
    LawfulSnoc(log, e);
    assert forall n :: n in names <==> n == names[0] || n in names[1..];
    assert forall n | n in names[1..] :: n != names[0];
  }

  lemma FailFirst(log: seq<Event>, names: seq<string>, callbacks: seq<nat>, next: nat)
    requires Standing(log, names, callbacks, next) && names != []
    ensures Standing(log + [CommitFailed(names[0])], names, callbacks, next)
  {
    LawfulSnoc(log, CommitFailed(names[0]));
  }

  lemma RunFirst(log: seq<Event>, callbacks: seq<nat>, next: nat)
    requires Standing(log, [], callbacks, next) && callbacks != []
    ensures Standing(log + [Ran(callbacks[0])], [], callbacks[1..], next)
  {
    LawfulSnoc(log, Ran(callbacks[0]));
    assert forall c | c in callbacks[1..] :: c in callbacks && c != callbacks[0];
  }

  /** The adapters: which support transactions, and what was asked of them. */
  class Adapters {
    const supporting: set<string>
    var log: seq<Event>

    constructor (supporting: set<string>)
      ensures this.supporting == supporting && log == []
    {
      this.supporting, log := supporting, [];
    }

    method Record(e: Event)
      modifies this
      ensures log == old(log) + [e]
    {
      log := log + [e];
    }

    /** A commit succeeds or throws; `fails` says which adapters throw this time. */
    method TryCommit(name: string, fails: set<string>) returns (ok: bool)
      modifies this
      ensures ok <==> name !in fails
      ensures log == old(log) + [if ok then CommitDone(name) else CommitFailed(name)]
    {
      ok := name !in fails;
      log := log + [if ok then CommitDone(name) else CommitFailed(name)];
    }
  }

  class OrmizeTransaction {
    const adapters: Adapters
    /** The open transactions, in opening order. */
    var txs: seq<string>
    var committed: seq<nat>
    /** The next callback's identity. */
    var next: nat

    ghost predicate Valid()
      reads this, adapters
    {
      Standing(adapters.log, txs, committed, next)
    }

    constructor (adapters: Adapters)
      requires adapters.log == []
      ensures Valid() && this.adapters == adapters && txs == [] && committed == []
    {
      this.adapters := adapters;
      txs, committed, next := [], [], 0;
    }

    /** The first half of a call: an open transaction's handle, or whether one must begin. */
    method LookUp(name: string) returns (handle: Option<string>, begin: bool)
      ensures handle == if name in txs then Some(name) else None
      ensures begin <==> name !in txs && name in adapters.supporting
    {
      if name in txs {
        return Some(name), false;
      }
      return None, name in adapters.supporting;
    }

    /** The second half: begin a transaction and note it, without looking again; `Handles` is about other calls in between. */
    method Register(name: string)
      requires Valid() && name !in txs
      modifies this, adapters
      ensures Valid() && committed == old(committed)
      ensures txs == old(txs) + [name] && adapters.log == old(adapters.log) + [Began(name)]
    {
      LawfulSnoc(adapters.log, Began(name));
      adapters.Record(Began(name));
      txs := txs + [name];
    }

    /** A whole call, no other in between: the handle, beginning a transaction on first use; none where unsupported. */
    method HandleFor(name: string) returns (handle: Option<string>)
      requires Valid()
      modifies this, adapters
      ensures Valid() && committed == old(committed)
      ensures handle == if name in old(txs) || name in adapters.supporting then Some(name) else None
      ensures txs == if name in old(txs) || name !in adapters.supporting then old(txs) else old(txs) + [name]
      ensures adapters.log ==
              if name in old(txs) || name !in adapters.supporting then old(adapters.log) else old(adapters.log) + [Began(name)]
    {
      var begin: bool;
      handle, begin := LookUp(name);
      if begin {
        Register(name);
        handle := Some(name);
      }
    }

    method AfterCommit() returns (callback: nat)
      requires Valid()
      modifies this
      ensures Valid() && txs == old(txs) && committed == old(committed) + [callback]
    {
      callback := next;
      assert Ran(callback) !in adapters.log;
      assert forall c :: c in committed + [callback] <==> c in committed || c == callback;
      committed := committed + [callback];
      next := next + 1;
    }

    /** Each open transaction finalised, and then the callbacks; each callback enrolled runs once or not at all. */
    method Commit(fails: set<string>) returns (ok: bool, ghost n: nat)
      requires Valid()
      modifies this, adapters
      ensures Valid() && txs == [] && committed == []
      ensures Finalised(old(adapters.log), adapters.log, old(txs), old(committed), n)
      ensures forall i | 0 <= i < n :: old(txs)[i] !in fails
      ensures n < |old(txs)| ==> old(txs)[n] in fails
      ensures ok <==> n == |old(txs)|
      ensures forall c | c in old(committed) :: Tally(adapters.log, Ran(c)) == if n > 0 || old(txs) == [] then 1 else 0
    {
      ok, n := Finalise(fails);
      TraceReads(old(adapters.log), old(txs), old(committed), n, adapters.log);
      RunsOnce(old(adapters.log), adapters.log, old(txs), old(committed), n);
    }

    method Finalise(fails: set<string>) returns (ok: bool, ghost n: nat)
      requires Valid()
      modifies this, adapters
      ensures Valid() && txs == [] && committed == []
      ensures n <= |old(txs)| && adapters.log == old(adapters.log) + CommitTrace(old(txs), old(committed), n)
      ensures forall i | 0 <= i < n :: old(txs)[i] !in fails
      ensures n < |old(txs)| ==> old(txs)[n] in fails
      ensures ok <==> n == |old(txs)|
    {
      var all, callbacks := txs, committed;
      txs := [];
      committed := [];
      ghost var start := adapters.log;
      var done := CommitEach(all, fails, callbacks);
      ok := done == |all|;
      if !ok {
        RollbackEach(all[done..], callbacks);
      }
      n := done;
      if done > 0 || all == [] {
        RunEach(callbacks);
      }
      TraceParts(start, all, callbacks, n, adapters.log);
      assert all[..|all|] == all;
    }

    /** Commit in order until one throws; how many committed. */
    method CommitEach(all: seq<string>, fails: set<string>, ghost callbacks: seq<nat>) returns (done: nat)
      requires Standing(adapters.log, all, callbacks, next)
      modifies adapters
      ensures done <= |all| && Standing(adapters.log, all[done..], callbacks, next)
      ensures forall i | 0 <= i < done :: all[i] !in fails
      ensures done < |all| ==> all[done] in fails
      ensures adapters.log == old(adapters.log) + Commits(all[..done]) + if done < |all| then [CommitFailed(all[done])] else []
    {
      done := 0;
      ghost var start := adapters.log;
      while done < |all|
        invariant 0 <= done <= |all|
        invariant adapters.log == start + Commits(all[..done])
        invariant forall i | 0 <= i < done :: all[i] !in fails
        invariant Standing(adapters.log, all[done..], callbacks, next)
      {
        ghost var was := adapters.log;
        var ok := adapters.TryCommit(all[done], fails);
        if !ok {
          FailFirst(was, all[done..], callbacks, next);
          return;
        }
        FinaliseFirst(was, all[done..], callbacks, next, CommitDone(all[done]));
        assert all[done..][1..] == all[done + 1..];
        assert all[..done + 1][..done] == all[..done];
        done := done + 1;
      }
    }

    method RollbackEach(names: seq<string>, ghost callbacks: seq<nat>)
      requires Standing(adapters.log, names, callbacks, next)
      modifies adapters
      ensures Standing(adapters.log, [], callbacks, next)
      ensures adapters.log == old(adapters.log) + Rollbacks(names)
    {
      ghost var start := adapters.log;
      for i := 0 to |names|
        invariant adapters.log == start + Rollbacks(names[..i])
        invariant Standing(adapters.log, names[i..], callbacks, next)
      {
        FinaliseFirst(adapters.log, names[i..], callbacks, next, RolledBack(names[i]));
        assert names[i..][1..] == names[i + 1..];
        assert names[..i + 1][..i] == names[..i];
        adapters.Record(RolledBack(names[i]));
      }
      assert names[..|names|] == names && names[|names|..] == [];
    }

    method RunEach(callbacks: seq<nat>)
      requires Standing(adapters.log, [], callbacks, next)
      modifies adapters
      ensures Standing(adapters.log, [], [], next)
      ensures adapters.log == old(adapters.log) + Runs(callbacks)
    {
      ghost var start := adapters.log;
      for i := 0 to |callbacks|
        invariant adapters.log == start + Runs(callbacks[..i])
        invariant Standing(adapters.log, [], callbacks[i..], next)
      {
        RunFirst(adapters.log, callbacks[i..], next);
        assert callbacks[i..][1..] == callbacks[i + 1..];
        assert callbacks[..i + 1][..i] == callbacks[..i];
        adapters.Record(Ran(callbacks[i]));
      }
      assert callbacks[..|callbacks|] == callbacks && callbacks[|callbacks|..] == [];
    }

    /** Roll every open transaction back; no callback runs, now or later. */
    method Rollback()
      requires Valid()
      modifies this, adapters
      ensures Valid() && txs == [] && committed == []
      ensures adapters.log == old(adapters.log) + Rollbacks(old(txs))
      ensures |adapters.log| == |old(adapters.log)| + |old(txs)| && adapters.log[..|old(adapters.log)|] == old(adapters.log)
      ensures forall i | 0 <= i < |old(txs)| :: adapters.log[|old(adapters.log)| + i] == RolledBack(old(txs)[i])
    {
      RollbacksAt(txs);
      committed := [];
      var all := txs;
      txs := [];
      RollbackEach(all, []);
    }
  }
}
