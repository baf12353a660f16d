/** The lock tables of src/transaction/locks.rs as a state machine, and the lock manager object. */
module Locks {
  import opened Selections

  type Xid = nat
  type Oid = nat

  datatype LockMode =
    | AccessShare | RowShare | RowExclusive | ShareUpdateExclusive
    | Share | ShareRowExclusive | Exclusive | AccessExclusive
    | ForUpdate | ForShare | ForNoKeyUpdate | ForKeyShare

  predicate IsTableLock(m: LockMode) {
    !(m.ForUpdate? || m.ForShare? || m.ForNoKeyUpdate? || m.ForKeyShare?)
  }

  /** The pairs as the source lists them. */
  predicate ConflictsWith(a: LockMode, b: LockMode) {
    match (a, b)
    case (AccessShare, Exclusive) => true
    case (Exclusive, AccessShare) => true
    case (AccessShare, AccessExclusive) => true
    case (AccessExclusive, AccessShare) => true
    case (RowShare, RowExclusive) => true
    case (RowExclusive, RowShare) => true
    case (RowShare, ShareUpdateExclusive) => true
    case (ShareUpdateExclusive, RowShare) => true
    case (RowShare, Exclusive) => true
    case (Exclusive, RowShare) => true
    case (RowShare, AccessExclusive) => true
    case (AccessExclusive, RowShare) => true
    case (RowExclusive, ShareUpdateExclusive) => true
    case (ShareUpdateExclusive, RowExclusive) => true
    case (RowExclusive, Share) => true
    case (Share, RowExclusive) => true
    case (RowExclusive, ShareRowExclusive) => true
    case (ShareRowExclusive, RowExclusive) => true
    case (RowExclusive, Exclusive) => true
    case (Exclusive, RowExclusive) => true
    case (RowExclusive, AccessExclusive) => true
    case (AccessExclusive, RowExclusive) => true
    case (ShareUpdateExclusive, Share) => true
    case (Share, ShareUpdateExclusive) => true
    case (ShareUpdateExclusive, ShareRowExclusive) => true
    case (ShareRowExclusive, ShareUpdateExclusive) => true
    case (ShareUpdateExclusive, Exclusive) => true
    case (Exclusive, ShareUpdateExclusive) => true
    case (ShareUpdateExclusive, AccessExclusive) => true
    case (AccessExclusive, ShareUpdateExclusive) => true
    case (Share, ShareRowExclusive) => true
    case (ShareRowExclusive, Share) => true
    case (Share, Exclusive) => true
    case (Exclusive, Share) => true
    case (Share, AccessExclusive) => true
    case (AccessExclusive, Share) => true
    case (ShareRowExclusive, Exclusive) => true
    case (Exclusive, ShareRowExclusive) => true
    case (ShareRowExclusive, AccessExclusive) => true
    case (AccessExclusive, ShareRowExclusive) => true
    case (Exclusive, AccessExclusive) => true
    case (AccessExclusive, Exclusive) => true
    case (ForUpdate, ForUpdate) => true
    case (ForUpdate, ForShare) => true
    case (ForShare, ForUpdate) => true
    case (ForUpdate, ForNoKeyUpdate) => true
    case (ForNoKeyUpdate, ForUpdate) => true
    case (ForUpdate, ForKeyShare) => true
    case (ForKeyShare, ForUpdate) => true
    case (ForShare, ForNoKeyUpdate) => true
    case (ForNoKeyUpdate, ForShare) => true
    case (ForShare, ForKeyShare) => true
    case (ForKeyShare, ForShare) => true
    case (ForNoKeyUpdate, ForNoKeyUpdate) => true
    case _ => false
  }

  /** Symmetric, and a table mode never conflicts with a row mode. */
  lemma ConflictShape(a: LockMode, b: LockMode)
    ensures ConflictsWith(a, b) == ConflictsWith(b, a)
    ensures ConflictsWith(a, b) ==> IsTableLock(a) == IsTableLock(b)
    ensures ConflictsWith(a, a) <==> a == ForUpdate || a == ForNoKeyUpdate
  {
    // one goal per first mode keeps the case analysis small
    match a {
      case AccessShare =>
      case RowShare =>
      case RowExclusive =>
      case ShareUpdateExclusive =>
      case Share =>
      case ShareRowExclusive =>
      case Exclusive =>
      case AccessExclusive =>
      case ForUpdate =>
      case ForShare =>
      case ForNoKeyUpdate =>
      case ForKeyShare =>
    }
  }

  /** The whole matrix, said shortly. Different table modes conflict, except AccessShare with all but the
      two exclusive ones and RowShare with the two share ones; row modes conflict, except the share
      modes with themselves and ForKeyShare with ForNoKeyUpdate; a table mode and a row mode do not. */
  lemma ConflictMatrix(a: LockMode, b: LockMode)
    ensures var row := {ForUpdate, ForShare, ForNoKeyUpdate, ForKeyShare};
      && (a !in row && b !in row ==> (ConflictsWith(a, b) <==>
            && a != b
            && (a == AccessShare ==> b == Exclusive || b == AccessExclusive)
            && (b == AccessShare ==> a == Exclusive || a == AccessExclusive)
            && !(a == RowShare && (b == Share || b == ShareRowExclusive))
            && !(b == RowShare && (a == Share || a == ShareRowExclusive))))
      && (a in row && b in row ==> (ConflictsWith(a, b) <==>
            && !(a == b && (a == ForShare || a == ForKeyShare))
            && !(a == ForNoKeyUpdate && b == ForKeyShare) && !(a == ForKeyShare && b == ForNoKeyUpdate)))
      && ((a in row) != (b in row) ==> !ConflictsWith(a, b))
  {
    match a {
      case AccessShare =>
      case RowShare =>
      case RowExclusive =>
      case ShareUpdateExclusive =>
      case Share =>
      case ShareRowExclusive =>
      case Exclusive =>
      case AccessExclusive =>
      case ForUpdate =>
      case ForShare =>
      case ForNoKeyUpdate =>
      case ForKeyShare =>
    }
  }

  datatype LockEntry = LockEntry(holder: Xid, mode: LockMode)

  datatype Target = Relation(rel: Oid) | Tuple(rel: Oid, page: nat, offset: nat)

  datatype LockRequest = LockRequest(xid: Xid, mode: LockMode, target: Target)

  datatype AdvisoryMode = AdvisoryExclusive | AdvisoryShared

  datatype AdvisoryEntry = AdvisoryEntry(holder: Xid, mode: AdvisoryMode)

  datatype LockState = LockState(
    tables: map<Oid, seq<LockEntry>>,
    rows: map<(Oid, nat, nat), seq<LockEntry>>,
    queue: seq<LockRequest>,
    advisory: map<int, seq<AdvisoryEntry>>)

  const UNLOCKED := LockState(map[], map[], [], map[])

  // ---- reading and writing one target ---------------------------------------

  function Lookup<K, V>(m: map<K, seq<V>>, k: K): seq<V> {
    if k in m then m[k] else []
  }

  /** An empty list is removed from its map. */
  function Store<K, V>(m: map<K, seq<V>>, k: K, entries: seq<V>): map<K, seq<V>> {
    if entries == [] then m - {k} else m[k := entries]
  }

  function Entries(s: LockState, t: Target): seq<LockEntry> {
    match t
    case Relation(rel) => Lookup(s.tables, rel)
    case Tuple(rel, page, offset) => Lookup(s.rows, (rel, page, offset))
  }

  function WithEntries(s: LockState, t: Target, entries: seq<LockEntry>): LockState {
    match t
    case Relation(rel) => s.(tables := Store(s.tables, rel, entries))
    case Tuple(rel, page, offset) => s.(rows := Store(s.rows, (rel, page, offset), entries))
  }

  lemma EntriesAfterWrite(s: LockState, t: Target, entries: seq<LockEntry>, u: Target)
    ensures Entries(WithEntries(s, t, entries), u) == if u == t then entries else Entries(s, u)
  {}

  /** `retain` of the entries of other holders. */
  function Without(entries: seq<LockEntry>, xid: Xid): seq<LockEntry> {
    if entries == [] then []
    else
      var n := |entries| - 1;
      Without(entries[..n], xid) + if entries[n].holder != xid then [entries[n]] else []
  }

  lemma {:induction false} WithoutMembers(entries: seq<LockEntry>, xid: Xid)
    ensures forall e :: e in Without(entries, xid) <==> e in entries && e.holder != xid
  {
    if entries != [] {
      var n := |entries| - 1;
      WithoutMembers(entries[..n], xid);
      assert entries == entries[..n] + [entries[n]];
    }
  }

  lemma {:induction false} WithoutKeeps(entries: seq<LockEntry>, xid: Xid) returns (ps: seq<nat>)
    ensures Increasing(ps) && Taken(Without(entries, xid), entries, ps)
    ensures forall i: nat :: i in ps <==> i < |entries| && entries[i].holder != xid
  {
    if entries == [] {
      ps := [];
    } else {
      var n := |entries| - 1;
      ps := WithoutKeeps(entries[..n], xid);
      TakenSnoc(Without(entries[..n], xid), entries[..n], ps, entries[n]);
      assert entries == entries[..n] + [entries[n]];
      if entries[n].holder != xid {
        ps := ps + [n];
      }
    }
  }

  function WithoutAdvisory(entries: seq<AdvisoryEntry>, xid: Xid): seq<AdvisoryEntry> {
    if entries == [] then []
    else
      var n := |entries| - 1;
      WithoutAdvisory(entries[..n], xid) + if entries[n].holder != xid then [entries[n]] else []
  }

  lemma {:induction false} WithoutAdvisoryMembers(entries: seq<AdvisoryEntry>, xid: Xid)
    ensures forall e :: e in WithoutAdvisory(entries, xid) <==> e in entries && e.holder != xid
  {
    if entries != [] {
      var n := |entries| - 1;
      WithoutAdvisoryMembers(entries[..n], xid);
      assert entries == entries[..n] + [entries[n]];
    }
  }

  lemma {:induction false} WithoutAdvisoryKeeps(entries: seq<AdvisoryEntry>, xid: Xid) returns (ps: seq<nat>)
    ensures Increasing(ps) && Taken(WithoutAdvisory(entries, xid), entries, ps)
    ensures forall i: nat :: i in ps <==> i < |entries| && entries[i].holder != xid
  {
    if entries == [] {
      ps := [];
    } else {
      var n := |entries| - 1;
      ps := WithoutAdvisoryKeeps(entries[..n], xid);
      TakenSnoc(WithoutAdvisory(entries[..n], xid), entries[..n], ps, entries[n]);
      assert entries == entries[..n] + [entries[n]];
      if entries[n].holder != xid {
        ps := ps + [n];
      }
    }
  }

  // ---- the operations -------------------------------------------------------

  /** Is a request by `xid` for `mode` refused by these entries? */
  predicate Blocked(entries: seq<LockEntry>, xid: Xid, mode: LockMode) {
    exists i :: 0 <= i < |entries| && entries[i].holder != xid && ConflictsWith(mode, entries[i].mode)
  }

  function Acquire(s: LockState, xid: Xid, mode: LockMode, t: Target): LockState {
    if Blocked(Entries(s, t), xid, mode) then s.(queue := s.queue + [LockRequest(xid, mode, t)])
    else WithEntries(s, t, Entries(s, t) + [LockEntry(xid, mode)])
  }

  function Release(s: LockState, xid: Xid, t: Target): LockState {
    WithEntries(s, t, Without(Entries(s, t), xid))
  }

  function KeepOthers<K>(m: map<K, seq<LockEntry>>, xid: Xid): map<K, seq<LockEntry>> {
    map k | k in m && Without(m[k], xid) != [] :: Without(m[k], xid)
  }

  function ReleaseAll(s: LockState, xid: Xid): LockState {
    s.(tables := KeepOthers(s.tables, xid), rows := KeepOthers(s.rows, xid))
  }

  lemma EntriesAfterReleaseAll(s: LockState, xid: Xid, t: Target)
    ensures Entries(ReleaseAll(s, xid), t) == Without(Entries(s, t), xid)
  {}

  predicate AdvisoryConflict(wanted: AdvisoryMode, held: AdvisoryMode) {
    wanted == AdvisoryExclusive || held == AdvisoryExclusive
  }

  predicate AdvisoryBlocked(entries: seq<AdvisoryEntry>, xid: Xid, mode: AdvisoryMode) {
    exists i :: 0 <= i < |entries| && entries[i].holder != xid && AdvisoryConflict(mode, entries[i].mode)
  }

  function AcquireAdvisory(s: LockState, xid: Xid, key: int, mode: AdvisoryMode): LockState {
    if AdvisoryBlocked(Lookup(s.advisory, key), xid, mode) then s
    else s.(advisory := s.advisory[key := Lookup(s.advisory, key) + [AdvisoryEntry(xid, mode)]])
  }

  /** Position of the holder's first entry, or the length if there is none. */
  function FirstHeld(entries: seq<AdvisoryEntry>, xid: Xid): (i: nat)
    ensures i <= |entries|
    ensures i < |entries| ==> entries[i].holder == xid
    ensures forall k :: 0 <= k < i ==> entries[k].holder != xid
  {
    if entries == [] then 0 else if entries[0].holder == xid then 0 else 1 + FirstHeld(entries[1..], xid)
  }

  /** One entry of the holder is removed, its first. */
  function ReleaseAdvisory(s: LockState, xid: Xid, key: int): LockState {
    var entries := Lookup(s.advisory, key);
    var i := FirstHeld(entries, xid);
    if i == |entries| then s else s.(advisory := Store(s.advisory, key, entries[..i] + entries[i + 1..]))
  }

  function ReleaseAllAdvisory(s: LockState, xid: Xid): LockState {
    s.(advisory := map k | k in s.advisory && WithoutAdvisory(s.advisory[k], xid) != []
                     :: WithoutAdvisory(s.advisory[k], xid))
  }

  datatype Op =
    | AcquireOp(xid: Xid, mode: LockMode, target: Target)
    | ReleaseOp(xid: Xid, target: Target)
    | ReleaseAllOp(xid: Xid)
    | AcquireAdvisoryOp(xid: Xid, key: int, amode: AdvisoryMode)
    | ReleaseAdvisoryOp(xid: Xid, key: int)
    | ReleaseAllAdvisoryOp(xid: Xid)

  function Step(s: LockState, op: Op): LockState {
    match op
    case AcquireOp(xid, mode, t) => Acquire(s, xid, mode, t)
    case ReleaseOp(xid, t) => Release(s, xid, t)
    case ReleaseAllOp(xid) => ReleaseAll(s, xid)
    case AcquireAdvisoryOp(xid, key, mode) => AcquireAdvisory(s, xid, key, mode)
    case ReleaseAdvisoryOp(xid, key) => ReleaseAdvisory(s, xid, key)
    case ReleaseAllAdvisoryOp(xid) => ReleaseAllAdvisory(s, xid)
  }

  function Run(s: LockState, ops: seq<Op>): LockState {
    if ops == [] then s else Step(Run(s, ops[..|ops| - 1]), ops[|ops| - 1])
  }

  // ---- safety ---------------------------------------------------------------

  /** No two transactions hold conflicting modes. */
  ghost predicate Compatible(entries: seq<LockEntry>) {
    forall e, f :: e in entries && f in entries && e.holder != f.holder ==> !ConflictsWith(e.mode, f.mode)
  }

  /** Nobody holds an entry beside another transaction's exclusive one. */
  ghost predicate AdvisoryCompatible(entries: seq<AdvisoryEntry>) {
    forall e, f :: e in entries && f in entries && e.holder != f.holder ==> e.mode != AdvisoryExclusive
  }

  ghost predicate Safe(s: LockState) {
    && (forall t :: Compatible(Entries(s, t)))
    && (forall k :: AdvisoryCompatible(Lookup(s.advisory, k)))
  }

  lemma GrantKeepsCompatible(entries: seq<LockEntry>, xid: Xid, mode: LockMode)
    requires Compatible(entries) && !Blocked(entries, xid, mode)
    ensures Compatible(entries + [LockEntry(xid, mode)])
  {
    hide ConflictsWith;
    var all := entries + [LockEntry(xid, mode)];
    forall e, f | e in all && f in all && e.holder != f.holder
      ensures !ConflictsWith(e.mode, f.mode)
    {
      ConflictShape(e.mode, f.mode);
    }
  }

  lemma {:induction false} StepKeepsTablesSafe(s: LockState, op: Op, t: Target)
    requires Safe(s)
    ensures Compatible(Entries(Step(s, op), t))
  {
    hide ConflictsWith, Blocked;
    assert Compatible(Entries(s, t));
    match op {
      case AcquireOp(xid, mode, target) =>
        if !Blocked(Entries(s, target), xid, mode) {
          GrantKeepsCompatible(Entries(s, target), xid, mode);
          EntriesAfterWrite(s, target, Entries(s, target) + [LockEntry(xid, mode)], t);
        }
      case ReleaseOp(xid, target) =>
        WithoutMembers(Entries(s, t), xid);
        EntriesAfterWrite(s, target, Without(Entries(s, target), xid), t);
      case ReleaseAllOp(xid) =>
        WithoutMembers(Entries(s, t), xid);
        EntriesAfterReleaseAll(s, xid, t);
      case _ =>
        assert Entries(Step(s, op), t) == Entries(s, t);
    }
  }

  lemma {:induction false} StepKeepsAdvisorySafe(s: LockState, op: Op, k: int)
    requires Safe(s)
    ensures AdvisoryCompatible(Lookup(Step(s, op).advisory, k))
  {
    hide ConflictsWith, Blocked;
    assert AdvisoryCompatible(Lookup(s.advisory, k));
    match op {
      case ReleaseAdvisoryOp(xid, key) =>
        var entries := Lookup(s.advisory, key);
        var i := FirstHeld(entries, xid);
        if i < |entries| {
          assert forall e :: e in entries[..i] + entries[i + 1..] ==> e in entries;
        }
      case ReleaseAllAdvisoryOp(xid) =>
        WithoutAdvisoryMembers(Lookup(s.advisory, k), xid);
      case _ =>
    }
  }

  /** In every state reached from the empty lock tables, no conflicting locks are held. */
  lemma {:induction false} RunIsSafe(ops: seq<Op>)
    ensures Safe(Run(UNLOCKED, ops))
  {
    if ops == [] {
    } else {
      var s := Run(UNLOCKED, ops[..|ops| - 1]);
      RunIsSafe(ops[..|ops| - 1]);
      var op := ops[|ops| - 1];
      var s' := Step(s, op);
      forall t
        ensures Compatible(Entries(s', t))
      {
        StepKeepsTablesSafe(s, op, t);
      }
      forall k
        ensures AdvisoryCompatible(Lookup(s'.advisory, k))
      {
        StepKeepsAdvisorySafe(s, op, k);
      }
    }
  }

  lemma BlockedWhen(entries: seq<LockEntry>, xid: Xid, mode: LockMode)
    ensures Blocked(entries, xid, mode) <==> exists e :: e in entries && e.holder != xid && ConflictsWith(mode, e.mode)
  {
    hide ConflictsWith;
    if Blocked(entries, xid, mode) {
      var i :| 0 <= i < |entries| && entries[i].holder != xid && ConflictsWith(mode, entries[i].mode);
      assert entries[i] in entries;
    }
  }

  /** An acquisition is refused exactly when another holder's mode conflicts; a refusal only
      queues the request, a grant only adds the entry. */
  lemma AcquireOutcome(s: LockState, xid: Xid, mode: LockMode, t: Target)
    ensures var s' := Acquire(s, xid, mode, t);
      if exists e :: e in Entries(s, t) && e.holder != xid && ConflictsWith(mode, e.mode) then
        s' == s.(queue := s.queue + [LockRequest(xid, mode, t)])
      else
        && s'.queue == s.queue && s'.advisory == s.advisory
        && forall u :: Entries(s', u) == if u == t then Entries(s, t) + [LockEntry(xid, mode)] else Entries(s, u)
  {
    hide ConflictsWith;
    if exists e :: e in Entries(s, t) && e.holder != xid && ConflictsWith(mode, e.mode) {
      var e :| e in Entries(s, t) && e.holder != xid && ConflictsWith(mode, e.mode);
      var i :| 0 <= i < |Entries(s, t)| && Entries(s, t)[i] == e;
      assert Blocked(Entries(s, t), xid, mode);
    } else {
      forall i | 0 <= i < |Entries(s, t)|
        ensures !(Entries(s, t)[i].holder != xid && ConflictsWith(mode, Entries(s, t)[i].mode))
      {
        assert Entries(s, t)[i] in Entries(s, t);
      }
      forall u {
        EntriesAfterWrite(s, t, Entries(s, t) + [LockEntry(xid, mode)], u);
      }
    }
  }

  // ---- what releasing leaves ------------------------------------------------

  /** The entries of the others, each as often as before and in the old order. */
  ghost predicate OthersRemain(after: seq<LockEntry>, before: seq<LockEntry>, xid: Xid) {
    exists ps: seq<nat> :: Increasing(ps) && Taken(after, before, ps)
      && forall i: nat :: i in ps <==> i < |before| && before[i].holder != xid
  }

  ghost predicate OtherAdvisoryRemain(after: seq<AdvisoryEntry>, before: seq<AdvisoryEntry>, xid: Xid) {
    exists ps: seq<nat> :: Increasing(ps) && Taken(after, before, ps)
      && forall i: nat :: i in ps <==> i < |before| && before[i].holder != xid
  }

  /** Two maps agree on a key. */
  ghost predicate SameAt<K, V>(m: map<K, V>, n: map<K, V>, k: K) {
    (k in m <==> k in n) && (k in m ==> m[k] == n[k])
  }

  /** Releasing one target: of its entries exactly those of other holders remain, in their order; a
      target without entries is dropped from its table; nothing else changes. */
  lemma ReleaseLeaves(s: LockState, xid: Xid, t: Target)
    ensures var s' := Release(s, xid, t);
      && OthersRemain(Entries(s', t), Entries(s, t), xid)
      && s'.queue == s.queue && s'.advisory == s.advisory
      && (forall rel :: Relation(rel) != t ==> SameAt(s'.tables, s.tables, rel))
      && (forall k: (Oid, nat, nat) :: Tuple(k.0, k.1, k.2) != t ==> SameAt(s'.rows, s.rows, k))
      && (t.Relation? ==> (t.rel in s'.tables <==> exists e :: e in Entries(s, t) && e.holder != xid))
      && (t.Tuple? ==> ((t.rel, t.page, t.offset) in s'.rows <==> exists e :: e in Entries(s, t) && e.holder != xid))
  {
    hide Without, OthersRemain;
    WithoutRemain(Entries(s, t), xid);
    EntriesAfterWrite(s, t, Without(Entries(s, t), xid), t);
    SomeRemain(Entries(s, t), xid);
  }

  lemma WithoutRemain(entries: seq<LockEntry>, xid: Xid)
    ensures OthersRemain(Without(entries, xid), entries, xid)
  {
    var ps := WithoutKeeps(entries, xid);
  }

  lemma SomeRemain(entries: seq<LockEntry>, xid: Xid)
    ensures Without(entries, xid) != [] <==> exists e :: e in entries && e.holder != xid
  {
    WithoutMembers(entries, xid);
    if Without(entries, xid) != [] {
      assert Without(entries, xid)[0] in Without(entries, xid);
    }
  }

  /** Releasing all: the same at every relation and every row. */
  lemma ReleaseAllLeaves(s: LockState, xid: Xid)
    ensures var s' := ReleaseAll(s, xid);
      && s'.queue == s.queue && s'.advisory == s.advisory
      && (forall t :: OthersRemain(Entries(s', t), Entries(s, t), xid))
      && (forall rel :: rel in s'.tables <==> exists e :: e in Entries(s, Relation(rel)) && e.holder != xid)
      && forall k: (Oid, nat, nat) :: k in s'.rows <==> exists e :: e in Entries(s, Tuple(k.0, k.1, k.2)) && e.holder != xid
  {
    hide Without, OthersRemain;
    forall t
      ensures OthersRemain(Entries(ReleaseAll(s, xid), t), Entries(s, t), xid)
    {
      EntriesAfterReleaseAll(s, xid, t);
      WithoutRemain(Entries(s, t), xid);
    }
    forall rel
      ensures rel in ReleaseAll(s, xid).tables <==> exists e :: e in Entries(s, Relation(rel)) && e.holder != xid
    {
      SomeRemain(Entries(s, Relation(rel)), xid);
    }
    forall k: (Oid, nat, nat)
      ensures k in ReleaseAll(s, xid).rows <==> exists e :: e in Entries(s, Tuple(k.0, k.1, k.2)) && e.holder != xid
    {
      SomeRemain(Entries(s, Tuple(k.0, k.1, k.2)), xid);
    }
  }

  /** An advisory lock is refused, and nothing changes, exactly when another holds one and either of
      the two is exclusive; a grant only adds the entry. */
  lemma AdvisoryOutcome(s: LockState, xid: Xid, key: int, mode: AdvisoryMode)
    ensures var s' := AcquireAdvisory(s, xid, key, mode);
      if exists e :: e in Lookup(s.advisory, key) && e.holder != xid && (mode == AdvisoryExclusive || e.mode == AdvisoryExclusive) then
        s' == s
      else
        && s'.tables == s.tables && s'.rows == s.rows && s'.queue == s.queue
        && key in s'.advisory && s'.advisory[key] == Lookup(s.advisory, key) + [AdvisoryEntry(xid, mode)]
        && forall k :: k != key ==> SameAt(s'.advisory, s.advisory, k)
  {
    AdvisoryBlockedWhen(Lookup(s.advisory, key), xid, mode);
  }

  lemma AdvisoryBlockedWhen(entries: seq<AdvisoryEntry>, xid: Xid, mode: AdvisoryMode)
    ensures AdvisoryBlocked(entries, xid, mode)
       <==> exists e :: e in entries && e.holder != xid && (mode == AdvisoryExclusive || e.mode == AdvisoryExclusive)
  {
    if AdvisoryBlocked(entries, xid, mode) {
      var i :| 0 <= i < |entries| && entries[i].holder != xid && AdvisoryConflict(mode, entries[i].mode);
      assert entries[i] in entries;
    }
  }

  /** One entry goes: the holder's first one, if it has any. */
  lemma ReleaseAdvisoryLeaves(s: LockState, xid: Xid, key: int)
    ensures var (s', entries) := (ReleaseAdvisory(s, xid, key), Lookup(s.advisory, key));
      && s'.tables == s.tables && s'.rows == s.rows && s'.queue == s.queue
      && (forall k :: k != key ==> SameAt(s'.advisory, s.advisory, k))
      && ((forall e :: e in entries ==> e.holder != xid) ==> s' == s)
      && (forall i :: 0 <= i < |entries| && entries[i].holder == xid && (forall k :: 0 <= k < i ==> entries[k].holder != xid) ==>
          && Lookup(s'.advisory, key) == entries[..i] + entries[i + 1..]
          && (key in s'.advisory <==> |entries| > 1))
  {
    var entries := Lookup(s.advisory, key);
    var first := FirstHeld(entries, xid);
    assert first < |entries| ==> entries[first] in entries;
    assert first < |entries| ==> |entries[..first] + entries[first + 1..]| == |entries| - 1;
  }

  lemma ReleaseAllAdvisoryLeaves(s: LockState, xid: Xid)
    ensures var s' := ReleaseAllAdvisory(s, xid);
      && s'.tables == s.tables && s'.rows == s.rows && s'.queue == s.queue
      && (forall key :: OtherAdvisoryRemain(Lookup(s'.advisory, key), Lookup(s.advisory, key), xid))
      && forall key :: key in s'.advisory <==> exists e :: e in Lookup(s.advisory, key) && e.holder != xid
  {
    hide WithoutAdvisory;
    forall key
      ensures OtherAdvisoryRemain(Lookup(ReleaseAllAdvisory(s, xid).advisory, key), Lookup(s.advisory, key), xid)
      ensures key in ReleaseAllAdvisory(s, xid).advisory <==> exists e :: e in Lookup(s.advisory, key) && e.holder != xid
    {
      var entries := Lookup(s.advisory, key);
      var ps := WithoutAdvisoryKeeps(entries, xid);
      WithoutAdvisoryMembers(entries, xid);
      NothingWithout(xid);
      if WithoutAdvisory(entries, xid) != [] {
        assert WithoutAdvisory(entries, xid)[0] in WithoutAdvisory(entries, xid);
      }
    }
  }

  lemma NothingWithout(xid: Xid)
    ensures WithoutAdvisory([], xid) == []
  {}

  // ---- the wait-for graph ---------------------------------------------------

  /** `b` holds a lock that a queued request of `x` conflicts with. */
  ghost predicate WaitsFor(s: LockState, x: Xid, b: Xid) {
    exists i, e :: 0 <= i < |s.queue| && s.queue[i].xid == x
      && e in Entries(s, s.queue[i].target) && e.holder == b && b != x && ConflictsWith(s.queue[i].mode, e.mode)
  }

  ghost predicate Holds(s: LockState, x: Xid) {
    exists t, e :: e in Entries(s, t) && e.holder == x
  }

  /** A closed walk of the wait-for relation: each waits for the next, the last for the first. */
  ghost predicate DeadlockCycle(s: LockState, p: seq<Xid>) {
    && |p| >= 2 && p[0] == p[|p| - 1]
    && forall i :: 0 <= i < |p| - 1 ==> WaitsFor(s, p[i], p[i + 1])
  }

  ghost predicate Deadlocked(s: LockState) {
    exists p :: DeadlockCycle(s, p)
  }

  lemma StepKeepsIdle(s: LockState, op: Op, x: Xid)
    requires !Holds(s, x) && !(op.AcquireOp? && op.xid == x)
    ensures !Holds(Step(s, op), x)
  {
    hide ConflictsWith, Blocked;
    forall t, e | e in Entries(Step(s, op), t) && e.holder == x
      ensures false
    {
      assert forall u: LockEntry :: u in Entries(s, t) ==> u.holder != x;
      match op {
        case AcquireOp(xid, mode, target) =>
          EntriesAfterWrite(s, target, Entries(s, target) + [LockEntry(xid, mode)], t);
        case ReleaseOp(xid, target) =>
          EntriesAfterWrite(s, target, Without(Entries(s, target), xid), t);
          WithoutMembers(Entries(s, t), xid);
        case ReleaseAllOp(xid) =>
          EntriesAfterReleaseAll(s, xid, t);
          WithoutMembers(Entries(s, t), xid);
        case _ =>
      }
    }
  }

  lemma {:induction false} StaysIdle(s: LockState, ops: seq<Op>, x: Xid)
    requires !Holds(s, x)
    requires forall i :: 0 <= i < |ops| ==> !(ops[i].AcquireOp? && ops[i].xid == x)
    ensures !Holds(Run(s, ops), x)
  {
    if ops != [] {
      StaysIdle(s, ops[..|ops| - 1], x);
      StepKeepsIdle(Run(s, ops[..|ops| - 1]), ops[|ops| - 1], x);
    }
  }

  /** Once a transaction has released everything and acquires nothing more, it is on no wait-for
      cycle, whatever the others do and although its queued requests stay queued. */
  lemma {:induction false} ReleasedIsOnNoCycle(s: LockState, x: Xid, ops: seq<Op>, p: seq<Xid>)
    requires forall i :: 0 <= i < |ops| ==> !(ops[i].AcquireOp? && ops[i].xid == x)
    requires DeadlockCycle(Run(ReleaseAll(s, x), ops), p)
    ensures x !in p
  {
    hide ConflictsWith;
    forall t, e | e in Entries(ReleaseAll(s, x), t)
      ensures e.holder != x
    {
      EntriesAfterReleaseAll(s, x, t);
      WithoutMembers(Entries(s, t), x);
    }
    StaysIdle(ReleaseAll(s, x), ops, x);
    forall i | 0 <= i < |p|
      ensures p[i] != x
    {
      var j := if i == 0 then |p| - 1 else i;
      assert WaitsFor(Run(ReleaseAll(s, x), ops), p[j - 1], p[j - 1 + 1]);
    }
  }
}
