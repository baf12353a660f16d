/** The lock manager object: its fields and its methods, each proved to take the lock state
    through the corresponding operation. */
module LockManagers {
  import opened Wrappers
  import opened Locks
  import Deadlocks

  method FindConflict(locks: seq<LockEntry>, xid: Xid, mode: LockMode) returns (conflict: bool)
    ensures conflict <==> Blocked(locks, xid, mode)
  {
    hide ConflictsWith;
    for i := 0 to |locks|
      invariant forall k :: 0 <= k < i ==> !(locks[k].holder != xid && ConflictsWith(mode, locks[k].mode))
    {
      if locks[i].holder != xid && ConflictsWith(mode, locks[i].mode) {
        return true;
      }
    }
    return false;
  }

  class LockManager {
    var tableLocks: map<Oid, seq<LockEntry>>
    var rowLocks: map<(Oid, nat, nat), seq<LockEntry>>
    var waitQueue: seq<LockRequest>
    var advisoryLocks: map<int, seq<AdvisoryEntry>>

    ghost function State(): LockState
      reads this
    {
      LockState(tableLocks, rowLocks, waitQueue, advisoryLocks)
    }

    constructor ()
      ensures State() == UNLOCKED
    {
      tableLocks, rowLocks, waitQueue, advisoryLocks := map[], map[], [], map[];
    }

    method AcquireTableLock(xid: Xid, rel: Oid, mode: LockMode) returns (granted: bool)
      modifies this
      ensures State() == Acquire(old(State()), xid, mode, Relation(rel))
      ensures granted <==> !exists e :: e in old(Lookup(tableLocks, rel)) && e.holder != xid && ConflictsWith(mode, e.mode)
    {
      hide ConflictsWith;
      BlockedWhen(Lookup(tableLocks, rel), xid, mode);
      var locks := Lookup(tableLocks, rel);
      var conflict := FindConflict(locks, xid, mode);
      if conflict {
        waitQueue := waitQueue + [LockRequest(xid, mode, Relation(rel))];
        return false;
      }
      tableLocks := tableLocks[rel := locks + [LockEntry(xid, mode)]];
      return true;
    }

    method AcquireRowLock(xid: Xid, rel: Oid, page: nat, offset: nat, mode: LockMode) returns (granted: bool)
      modifies this
      ensures State() == Acquire(old(State()), xid, mode, Tuple(rel, page, offset))
      ensures granted <==>
        !exists e :: e in old(Lookup(rowLocks, (rel, page, offset))) && e.holder != xid && ConflictsWith(mode, e.mode)
    {
      hide ConflictsWith;
      BlockedWhen(Lookup(rowLocks, (rel, page, offset)), xid, mode);
      var locks := Lookup(rowLocks, (rel, page, offset));
      var conflict := FindConflict(locks, xid, mode);
      if conflict {
        waitQueue := waitQueue + [LockRequest(xid, mode, Tuple(rel, page, offset))];
        return false;
      }
      rowLocks := rowLocks[(rel, page, offset) := locks + [LockEntry(xid, mode)]];
      return true;
    }

    method ReleaseTableLock(xid: Xid, rel: Oid)
      modifies this`tableLocks
      ensures State() == Release(old(State()), xid, Relation(rel))
      ensures OthersRemain(Lookup(tableLocks, rel), old(Lookup(tableLocks, rel)), xid)
      ensures forall r :: r != rel ==> SameAt(tableLocks, old(tableLocks), r)
    {
      hide Without, OthersRemain;
      ReleaseLeaves(State(), xid, Relation(rel));
      if rel in tableLocks {
        var kept := Retain(tableLocks[rel], xid);
        tableLocks := tableLocks[rel := kept];
        if kept == [] {
          tableLocks := tableLocks - {rel};
        }
      } else {
        assert tableLocks - {rel} == tableLocks;
      }
    }

    method ReleaseRowLock(xid: Xid, rel: Oid, page: nat, offset: nat)
      modifies this`rowLocks
      ensures State() == Release(old(State()), xid, Tuple(rel, page, offset))
      ensures OthersRemain(Lookup(rowLocks, (rel, page, offset)), old(Lookup(rowLocks, (rel, page, offset))), xid)
      ensures forall k :: k != (rel, page, offset) ==> SameAt(rowLocks, old(rowLocks), k)
    {
      hide Without, OthersRemain;
      ReleaseLeaves(State(), xid, Tuple(rel, page, offset));
      var key := (rel, page, offset);
      if key in rowLocks {
        var kept := Retain(rowLocks[key], xid);
        rowLocks := rowLocks[key := kept];
        if kept == [] {
          rowLocks := rowLocks - {key};
        }
      } else {
        assert rowLocks - {key} == rowLocks;
      }
    }

    method ReleaseAllLocks(xid: Xid)
      modifies this`tableLocks, this`rowLocks
      ensures State() == ReleaseAll(old(State()), xid)
    {
      tableLocks := RetainEverywhere(tableLocks, xid);
      rowLocks := RetainEverywhere(rowLocks, xid);
    }

    method AcquireAdvisoryLock(xid: Xid, key: int, mode: AdvisoryMode) returns (granted: bool)
      modifies this`advisoryLocks
      ensures State() == AcquireAdvisory(old(State()), xid, key, mode)
      ensures granted <==> !exists e :: e in old(Lookup(advisoryLocks, key)) && e.holder != xid
                                   && (mode == AdvisoryExclusive || e.mode == AdvisoryExclusive)
    {
      AdvisoryBlockedWhen(Lookup(advisoryLocks, key), xid, mode);
      var entries := Lookup(advisoryLocks, key);
      for i := 0 to |entries|
        invariant State() == old(State())
        invariant forall k :: 0 <= k < i ==> !(entries[k].holder != xid && AdvisoryConflict(mode, entries[k].mode))
      {
        if entries[i].holder != xid && AdvisoryConflict(mode, entries[i].mode) {
          return false;
        }
      }
      advisoryLocks := advisoryLocks[key := entries + [AdvisoryEntry(xid, mode)]];
      return true;
    }

    method ReleaseAdvisoryLock(xid: Xid, key: int) returns (found: bool)
      modifies this`advisoryLocks
      ensures State() == ReleaseAdvisory(old(State()), xid, key)
      ensures found <==> exists e :: e in old(Lookup(advisoryLocks, key)) && e.holder == xid
    {
      var entries := Lookup(advisoryLocks, key);
      var i := FirstHeld(entries, xid);
      if i == |entries| {
        return false;
      }
      assert entries[i] in entries;
      var kept := entries[..i] + entries[i + 1..];
      advisoryLocks := advisoryLocks[key := kept];
      if kept == [] {
        advisoryLocks := advisoryLocks - {key};
      }
      return true;
    }

    method ReleaseAllAdvisoryLocks(xid: Xid)
      modifies this`advisoryLocks
      ensures State() == ReleaseAllAdvisory(old(State()), xid)
    {
      advisoryLocks := map k | k in advisoryLocks && WithoutAdvisory(advisoryLocks[k], xid) != []
                        :: WithoutAdvisory(advisoryLocks[k], xid);
    }

    /** What the lock manager reports is exactly what its tables and queue imply. */
    method DetectDeadlock() returns (r: Option<seq<Xid>>)
      ensures r.Some? <==> Deadlocked(State())
      ensures r.Some? ==> |r.value| == 2 && WaitsFor(State(), r.value[0], r.value[1])
                          && Deadlocks.WaitsThrough(State(), r.value[1], r.value[0])
    {
      var s := LockState(tableLocks, rowLocks, waitQueue, advisoryLocks);
      assert s == State();
      r := Deadlocks.DetectDeadlock(s);
    }
  }

  method Retain(entries: seq<LockEntry>, xid: Xid) returns (kept: seq<LockEntry>)
    ensures kept == Without(entries, xid)
  {
    kept := [];
    for i := 0 to |entries|
      invariant kept == Without(entries[..i], xid)
    {
      assert entries[..i + 1][..i] == entries[..i];
      if entries[i].holder != xid {
        kept := kept + [entries[i]];
      }
    }
    assert entries[..|entries|] == entries;
  }

  /** `values_mut` in any order, then dropping the lists left empty. */
  method RetainEverywhere<K>(m: map<K, seq<LockEntry>>, xid: Xid) returns (kept: map<K, seq<LockEntry>>)
    ensures kept == KeepOthers(m, xid)
  {
    kept := map[];
    var todo := m.Keys;
    while todo != {}
      invariant todo <= m.Keys
      invariant forall k :: k in kept <==> k in m && k !in todo && Without(m[k], xid) != []
      invariant forall k :: k in kept ==> kept[k] == Without(m[k], xid)
      decreases todo
    {
      var k :| k in todo;
      todo := todo - {k};
      var entries := Retain(m[k], xid);
      if entries != [] {
        kept := kept[k := entries];
      }
    }
  }
}
