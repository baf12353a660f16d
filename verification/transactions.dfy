/** Transaction begin, end and snapshots (src/transaction/mod.rs), over whole runs. */
module Transactions {
  import opened Wrappers
  import opened ByteCodec
  import opened Visibility

  datatype IsolationLevel = ReadUncommitted | ReadCommitted | RepeatableRead | Serializable

  /** A run: transactions begin and end, and write new versions of one row. */
  datatype Event = Begin | End(xid: nat) | Write(xid: nat)

  /** The manager's counter and active set, and the writers of the row's versions, oldest first. */
  datatype State = State(next: nat, active: set<nat>, chain: seq<nat>)

  const INITIAL := State(1, {}, [])

  /** A new version is written by a running transaction, once the writer of the last one has ended. */
  predicate MayWrite(s: State, xid: nat) {
    xid in s.active && (s.chain == [] || s.chain[|s.chain| - 1] !in s.active)
  }

  function Step(s: State, e: Event): State {
    match e
    case Begin => s.(next := s.next + 1, active := s.active + {s.next})
    case End(xid) => s.(active := s.active - {xid})
    case Write(xid) => if MayWrite(s, xid) then s.(chain := s.chain + [xid]) else s
  }

  function After(trace: seq<Event>): State {
    if trace == [] then INITIAL else Step(After(trace[..|trace| - 1]), trace[|trace| - 1])
  }

  // ---- histories ------------------------------------------------------------

  /** Transaction `y` was handed out by some begin of the run. */
  ghost predicate Begun(trace: seq<Event>, y: nat) {
    exists i :: 0 <= i < |trace| && trace[i] == Begin && After(trace[..i]).next == y
  }

  /** Transaction `y` was committed or rolled back while running. */
  ghost predicate Ended(trace: seq<Event>, y: nat) {
    exists i :: 0 <= i < |trace| && trace[i] == End(y) && y in After(trace[..i]).active
  }

  lemma BegunSnoc(trace: seq<Event>, e: Event, y: nat)
    ensures Begun(trace + [e], y) <==> Begun(trace, y) || (e == Begin && After(trace).next == y)
  {
    var longer := trace + [e];
    assert longer[..|trace|] == trace;
    assert forall i :: 0 <= i < |trace| ==> longer[..i] == trace[..i] && longer[i] == trace[i];
    if Begun(trace, y) {
      var i :| 0 <= i < |trace| && trace[i] == Begin && After(trace[..i]).next == y;
      assert longer[i] == Begin && After(longer[..i]).next == y;
    }
    if e == Begin && After(trace).next == y {
      assert longer[|trace|] == Begin && After(longer[..|trace|]).next == y;
    }
  }

  lemma EndedSnoc(trace: seq<Event>, e: Event, y: nat)
    ensures Ended(trace + [e], y) <==> Ended(trace, y) || (e == End(y) && y in After(trace).active)
  {
    var longer := trace + [e];
    assert longer[..|trace|] == trace;
    assert forall i :: 0 <= i < |trace| ==> longer[..i] == trace[..i] && longer[i] == trace[i];
    if Ended(trace, y) {
      var i :| 0 <= i < |trace| && trace[i] == End(y) && y in After(trace[..i]).active;
      assert longer[i] == End(y) && y in After(longer[..i]).active;
    }
    if e == End(y) && y in After(trace).active {
      assert longer[|trace|] == End(y) && y in After(longer[..|trace|]).active;
    }
  }

  /** The counter and the active set record exactly who has begun and who is still running. */
  lemma {:induction false} StateReflectsHistory(trace: seq<Event>, y: nat)
    ensures After(trace).next >= 1
    ensures Begun(trace, y) <==> 1 <= y < After(trace).next
    ensures y in After(trace).active <==> Begun(trace, y) && !Ended(trace, y)
    ensures Ended(trace, y) ==> Begun(trace, y)
  {
    if trace == [] {
    } else {
      var shorter, e := trace[..|trace| - 1], trace[|trace| - 1];
      assert trace == shorter + [e];
      StateReflectsHistory(shorter, y);
      BegunSnoc(shorter, e, y);
      EndedSnoc(shorter, e, y);
      hide Begun, Ended;
      assert After(trace) == Step(After(shorter), e);
    }
  }

  // ---- snapshots ------------------------------------------------------------

  /** The snapshot `begin` takes: the new transaction's number and everyone running before it. */
  ghost predicate TakenAtBegin(s: Snapshot, trace: seq<Event>) {
    s.xid == After(trace).next && forall y :: y in s.active <==> y in After(trace).active
  }

  /** Such a snapshot counts a transaction as past exactly when it had begun and ended by then. */
  lemma SnapshotSeparates(trace: seq<Event>, s: Snapshot, y: nat)
    requires TakenAtBegin(s, trace) && y >= 1
    ensures Past(y, s) <==> Begun(trace, y) && Ended(trace, y)
  {
    hide Begun, Ended;
    StateReflectsHistory(trace, y);
  }

  /** A statement snapshot keeps the transaction's own number as its bound, so transactions that
      began later stay out of sight even after they have ended. */
  lemma StatementSnapshot(trace: seq<Event>, s: Snapshot, own: nat, y: nat)
    requires y >= 1 && 1 <= own < After(trace).next
    requires s.xid == own && forall x :: x in s.active <==> x in After(trace).active
    ensures Past(y, s) <==> y < own && Ended(trace, y)
  {
    hide Begun, Ended;
    StateReflectsHistory(trace, y);
  }

  // ---- version chains -------------------------------------------------------

  /** Writers have begun, and all but the last have ended. */
  ghost predicate WellFormed(s: State) {
    && s.next >= 1
    && (forall y :: y in s.active ==> 1 <= y < s.next)
    && (forall i :: 0 <= i < |s.chain| ==> 1 <= s.chain[i] < s.next)
    && (forall i :: 0 <= i < |s.chain| - 1 ==> s.chain[i] !in s.active)
  }

  predicate Finished(s: State, y: nat) {
    1 <= y < s.next && y !in s.active
  }

  /** `late` comes after `early`: the chain only grows, what is finished stays finished, and whoever
      was finished writes no more. */
  ghost predicate Extends(early: State, late: State) {
    && early.next <= late.next
    && early.chain <= late.chain
    && (forall y :: Finished(early, y) ==> Finished(late, y))
    && (forall i :: |early.chain| <= i < |late.chain| ==> !Finished(early, late.chain[i]))
  }

  lemma StepKeepsWellFormed(s: State, e: Event)
    requires WellFormed(s)
    ensures WellFormed(Step(s, e))
  {}

  lemma StepExtends(early: State, s: State, e: Event)
    requires WellFormed(s) && Extends(early, s)
    ensures Extends(early, Step(s, e))
  {}

  lemma {:induction false} RunIsWellFormed(trace: seq<Event>)
    ensures WellFormed(After(trace))
  {
    hide WellFormed, Step;
    if trace == [] {
      InitialIsWellFormed();
    } else {
      RunIsWellFormed(trace[..|trace| - 1]);
      StepKeepsWellFormed(After(trace[..|trace| - 1]), trace[|trace| - 1]);
    }
  }

  lemma InitialIsWellFormed()
    ensures WellFormed(INITIAL)
  {}

  lemma {:induction false} RunExtends(trace: seq<Event>, n: nat)
    requires n <= |trace|
    ensures Extends(After(trace[..n]), After(trace))
  {
    hide WellFormed, Step;
    if n == |trace| {
      assert trace[..n] == trace;
    } else {
      var shorter := trace[..|trace| - 1];
      assert shorter[..n] == trace[..n];
      RunExtends(shorter, n);
      RunIsWellFormed(shorter);
      StepExtends(After(trace[..n]), After(shorter), trace[|trace| - 1]);
    }
  }

  /** The row's versions as heap tuples: each is deleted by the next writer. */
  function Version(chain: seq<nat>, i: nat): HeapTuple
    requires i < |chain|
  {
    HeapTuple([], [], chain[i], if i + 1 < |chain| then chain[i + 1] else 0, 0, 0, 0)
  }

  /** If a snapshot takes a writer as past, it takes the writer before it as past. */
  lemma PastIsDownwardClosed(trace: seq<Event>, n: nat, s: Snapshot, i: nat)
    requires n <= |trace| && TakenAtBegin(s, trace[..n])
    requires i + 1 < |After(trace).chain| && Past(After(trace).chain[i + 1], s)
    ensures Past(After(trace).chain[i], s)
  {
    hide After;
    RunExtends(trace, n);
    RunIsWellFormed(trace);
    RunIsWellFormed(trace[..n]);
    var early, late := After(trace[..n]), After(trace);
    assert Finished(early, late.chain[i + 1]);
    assert early.chain[i] == late.chain[i];
  }

  /** A snapshot taken at any point of a run sees at most one version of the row, at any later point. */
  lemma {:induction false} AtMostOneVisible(trace: seq<Event>, n: nat, s: Snapshot, i: nat, j: nat)
    requires n <= |trace| && TakenAtBegin(s, trace[..n]) && After(trace).next <= U32
    requires i < j < |After(trace).chain|
    ensures !(IsVisible(Version(After(trace).chain, i), s) && IsVisible(Version(After(trace).chain, j), s))
    decreases j
  {
    RunIsWellFormed(trace);
    var chain := After(trace).chain;
    if Past(chain[j], s) {
      PastBelow(trace, n, s, i + 1, j);
    }
  }

  lemma {:induction false} PastBelow(trace: seq<Event>, n: nat, s: Snapshot, i: nat, j: nat)
    requires n <= |trace| && TakenAtBegin(s, trace[..n])
    requires i <= j < |After(trace).chain| && Past(After(trace).chain[j], s)
    ensures Past(After(trace).chain[i], s)
    decreases j
  {
    if i < j {
      PastIsDownwardClosed(trace, n, s, j - 1);
      PastBelow(trace, n, s, i, j - 1);
    }
  }

  /** It sees exactly one when the first writer had ended by then: the one of the last writer that had. */
  lemma {:induction false} VisibleVersion(trace: seq<Event>, n: nat, s: Snapshot, i: nat) returns (k: nat)
    requires n <= |trace| && TakenAtBegin(s, trace[..n]) && After(trace).next <= U32
    requires i < |After(trace).chain| && Past(After(trace).chain[i], s)
    ensures i <= k < |After(trace).chain| && IsVisible(Version(After(trace).chain, k), s)
    ensures forall j :: 0 <= j < |After(trace).chain| && j != k ==> !IsVisible(Version(After(trace).chain, j), s)
    ensures forall j :: 0 <= j < |After(trace).chain| ==> (Past(After(trace).chain[j], s) <==> j <= k)
    decreases |After(trace).chain| - i
  {
    RunIsWellFormed(trace);
    var chain := After(trace).chain;
    if i + 1 < |chain| && Past(chain[i + 1], s) {
      k := VisibleVersion(trace, n, s, i + 1);
    } else {
      k := i;
      forall j | 0 <= j < |chain|
        ensures Past(chain[j], s) <==> j <= k
      {
        if j <= k {
          PastBelow(trace, n, s, j, k);
        } else if Past(chain[j], s) {
          PastBelow(trace, n, s, k + 1, j);
        }
      }
      forall j | 0 <= j < |chain| && j != k
        ensures !IsVisible(Version(chain, j), s)
      {
        if j < k {
          AtMostOneVisible(trace, n, s, j, k);
        } else {
          AtMostOneVisible(trace, n, s, k, j);
        }
      }
    }
  }

  lemma AfterSnoc(trace: seq<Event>, e: Event)
    ensures After(trace + [e]) == Step(After(trace), e)
  {
    assert (trace + [e])[..|trace|] == trace;
  }

  lemma BeginSnapshot(trace: seq<Event>, s: Snapshot, state: State, active: set<nat>)
    requires state == After(trace) && s.xid == state.next && active == state.active
    requires forall y :: y in s.active <==> y in active
    ensures TakenAtBegin(s, trace)
  {}

  // ---- the manager ----------------------------------------------------------

  datatype Transaction = Transaction(xid: nat, isolation: IsolationLevel, snapshot: Option<Snapshot>)

  class TransactionManager {
    var nextXid: nat
    var active: map<nat, Transaction>
    ghost var trace: seq<Event>

    /** Counter and active map are those of the events so far. */
    ghost predicate Valid()
      reads this
    {
      nextXid == After(trace).next && active.Keys == After(trace).active
    }

    constructor ()
      ensures Valid() && trace == []
    {
      nextXid, active, trace := 1, map[], [];
    }

    method CreateSnapshot(xid: nat) returns (s: Snapshot)
      ensures s.xid == xid && forall y :: y in s.active <==> y in active
      ensures forall i, j :: 0 <= i < j < |s.active| ==> s.active[i] != s.active[j]
    {
      var listed: seq<nat> := [];
      var todo := active.Keys;
      while todo != {}
        invariant todo <= active.Keys && forall y :: y in listed <==> y in active && y !in todo
        invariant forall i, j :: 0 <= i < j < |listed| ==> listed[i] != listed[j]
        decreases todo
      {
        var y :| y in todo;
        todo := todo - {y};
        listed := listed + [y];
      }
      s := Snapshot(xid, listed);
    }

    /** `begin`, as one step.  Repeatable-read and serializable transactions keep the snapshot. */
    method Begin(isolation: IsolationLevel) returns (xid: nat)
      requires Valid()
      modifies this
      ensures Valid() && trace == old(trace) + [Event.Begin] && xid == After(old(trace)).next
      ensures xid == old(nextXid) && nextXid == old(nextXid) + 1
      ensures xid in active && active[xid].xid == xid && active[xid].isolation == isolation
      ensures active[xid].snapshot.Some? <==> isolation == RepeatableRead || isolation == Serializable
      ensures active[xid].snapshot.Some? ==> TakenAtBegin(active[xid].snapshot.value, old(trace))
      ensures active.Keys == old(active).Keys + {xid}
      ensures forall y :: y in old(active) && y != xid ==> active[y] == old(active)[y]
    {
      hide TakenAtBegin;
      ghost var before := After(trace);
      xid := nextXid;
      nextXid := nextXid + 1;
      var s := CreateSnapshot(xid);
      var kept := if isolation == RepeatableRead || isolation == Serializable then Some(s) else None;
      assert TakenAtBegin(s, trace) by {
        BeginSnapshot(trace, s, before, active.Keys);
      }
      active := active[xid := Transaction(xid, isolation, kept)];
      AfterSnoc(trace, Event.Begin);
      trace := trace + [Event.Begin];
    }

    /** `commit` and `rollback` both drop the transaction from the active map. */
    method Finish(xid: nat) returns (ok: bool)
      requires Valid()
      modifies this
      ensures Valid()
      ensures ok <==> xid in old(active)
      ensures ok ==> trace == old(trace) + [End(xid)] && active == old(active) - {xid}
      ensures !ok ==> trace == old(trace) && active == old(active)
    {
      ok := xid in active;
      if ok {
        active := active - {xid};
        AfterSnoc(trace, End(xid));
        trace := trace + [End(xid)];
      }
    }
  }
}
