/** What VACUUM takes and what it leaves (src/executor/heap.rs), slot by slot. */
module VacuumEffects {
  import opened Wrappers
  import opened ByteCodec
  import opened HeapPages
  import opened HeapPageCodec
  import opened HeapPageOps
  import opened Visibility
  import opened Selections
  import opened Vacuums

  /** A normal slot whose tuple was deleted by a transaction below the horizon. */
  predicate Expired(p: Page, i: nat, decode: TupleCodec, oldest: nat) {
    && i < |p.pointers| && i < |p.tuples| && p.pointers[i].flags == 0
    && decode(p.tuples[i]).Some? && 0 < decode(p.tuples[i]).value.xmax < oldest
  }

  /** Exactly the expired slots are marked. */
  lemma MarkDeadEffect(p: Page, decode: TupleCodec, oldest: nat)
    ensures var q := MarkDead(p, decode, oldest);
      && q.header == p.header && q.tuples == p.tuples && |q.pointers| == |p.pointers|
      && forall i :: 0 <= i < |p.pointers| ==>
           q.pointers[i] == if Expired(p, i, decode, oldest) then LinePointer(p.pointers[i].offset, 2) else p.pointers[i]
  {}

  lemma CountStep(p: Page, n: nat, decode: TupleCodec, oldest: nat)
    requires n < |p.pointers|
    ensures CountReclaimed(p, n + 1, decode, oldest) == CountReclaimed(p, n, decode, oldest) + if Expired(p, n, decode, oldest) then 1 else 0
  {}

  /** The number reported for a page is the number of its expired slots. */
  lemma {:induction false} CountIsExpired(p: Page, n: nat, decode: TupleCodec, oldest: nat)
    requires n <= |p.pointers|
    ensures CountReclaimed(p, n, decode, oldest) == |set i: nat | i < n && Expired(p, i, decode, oldest)|
  {
    hide Expired;
    var taken := set i: nat | i < n && Expired(p, i, decode, oldest);
    if n == 0 {
      assert taken == {};
    } else {
      CountIsExpired(p, n - 1, decode, oldest);
      CountStep(p, n - 1, decode, oldest);
      hide CountReclaimed;
      var before := set i: nat | i < n - 1 && Expired(p, i, decode, oldest);
      assert taken == if Expired(p, n - 1, decode, oldest) then before + {n - 1} else before;
    }
  }

  lemma NothingExpired(p: Page, decode: TupleCodec, oldest: nat)
    ensures CountReclaimed(p, |p.pointers|, decode, oldest) == 0 <==> forall i: nat :: !Expired(p, i, decode, oldest)
  {
    CountIsExpired(p, |p.pointers|, decode, oldest);
    var taken := set i: nat | i < |p.pointers| && Expired(p, i, decode, oldest);
    if taken == {} {
      forall i: nat
        ensures !Expired(p, i, decode, oldest)
      {
        assert i !in taken;
      }
    } else {
      var i :| i in taken;
      assert |taken| > 0;
    }
  }

  /** A page without expired slots stays as it is. From any other exactly the expired slots and those
      dead before are gone; the rest keep their order, line pointers and bytes. */
  lemma VacuumPageEffect(p: Page, decode: TupleCodec, oldest: nat) returns (ks: seq<nat>)
    requires Valid(p)
    ensures var q := VacuumPage(p, decode, oldest);
      if forall i: nat :: !Expired(p, i, decode, oldest) then q == p
      else
        && Increasing(ks)
        && (forall i: nat :: i in ks <==> i < |p.pointers| && p.pointers[i].flags != 2 && !Expired(p, i, decode, oldest))
        && Taken(q.pointers, p.pointers, ks) && Taken(q.tuples, p.tuples, ks)
        && q.header == p.header.(lower := 26 + 4 * |ks|, upper := q.header.upper)
        && q.header.upper + NormalBytes(q.pointers, q.tuples) == 8192
  {
    hide Expired, StoredBytes, NormalBytes, MarkDead, CountReclaimed;
    NothingExpired(p, decode, oldest);
    MarkDeadKeepsValid(p, decode, oldest);
    MarkDeadEffect(p, decode, oldest);
    var m := MarkDead(p, decode, oldest);
    ks := CompactEffect(m);
    forall i: nat
      ensures i in ks <==> i < |p.pointers| && p.pointers[i].flags != 2 && !Expired(p, i, decode, oldest)
    {
      ExpiredIsNormal(p, i, decode, oldest);
    }
    forall k | 0 <= k < |ks|
      ensures ks[k] < |p.pointers| && m.pointers[ks[k]] == p.pointers[ks[k]]
    {
      assert ks[k] in ks;
    }
  }

  lemma ExpiredIsNormal(p: Page, i: nat, decode: TupleCodec, oldest: nat)
    ensures Expired(p, i, decode, oldest) ==> i < |p.pointers| && p.pointers[i].flags == 0
  {}

  /** The expired slots of all pages. */
  ghost function ExpiredSlots(storage: Storage, pages: seq<nat>, decode: TupleCodec, oldest: nat): set<(nat, nat)>
    requires Readable(storage, pages) && forall i :: 0 <= i < |pages| ==> Decodable(storage[pages[i]])
  {
    set i: nat, j: nat | i < |pages| && j < |Decode(storage[pages[i]]).pointers|
      && Expired(Decode(storage[pages[i]]), j, decode, oldest) :: (i, j)
  }

  lemma ReadableDecodes(storage: Storage, pages: seq<nat>)
    requires Readable(storage, pages)
    ensures forall i :: 0 <= i < |pages| ==> Decodable(storage[pages[i]]) && Valid(Decode(storage[pages[i]]))
  {
    hide Decodable, Decode, Serialized;
    forall i | 0 <= i < |pages|
      ensures Decodable(storage[pages[i]]) && Valid(Decode(storage[pages[i]]))
    {
      SerializedDecodes(storage[pages[i]]);
    }
  }

  /** Each page of the relation, once visited, holds what vacuuming it leaves; the number reported is the
      number of expired slots. */
  lemma {:induction false} VacuumRelationEffect(storage: Storage, pages: seq<nat>, decode: TupleCodec, oldest: nat)
    requires Readable(storage, pages) && decode([]).None? && oldest <= U32
    requires forall a, b :: 0 <= a < b < |pages| ==> pages[a] != pages[b]
    ensures forall i :: 0 <= i < |pages| ==> Decodable(storage[pages[i]]) && Valid(Decode(storage[pages[i]]))
    ensures var v := VacuumRelation(storage, pages, decode, oldest);
      && v.reclaimed == |ExpiredSlots(storage, pages, decode, oldest)|
      && forall i :: 0 <= i < |pages| ==> PageAfter(storage[pages[i]], v.storage[pages[i]], decode, oldest)
  {
    hide Decodable, Decode, Serialized, Expired, CountReclaimed, PageAfter, VacuumBytes, Valid;
    ReadableDecodes(storage, pages);
    if pages == [] {
      assert ExpiredSlots(storage, pages, decode, oldest) == {};
    } else {
      var n := |pages| - 1;
      VacuumRelationEffect(storage, pages[..n], decode, oldest);
      var before := VacuumRelation(storage, pages[..n], decode, oldest);
      assert pages[n] !in pages[..n];
      assert before.storage[pages[n]] == storage[pages[n]];
      OnePageAfter(storage[pages[n]], decode, oldest);
      ExpiredSlotsSnoc(storage, pages, decode, oldest);
      forall i | 0 <= i < n
        ensures pages[..n][i] == pages[i] && pages[i] != pages[n]
      {}
    }
  }

  ghost predicate PageAfter(data: Bytes, after: Bytes, decode: TupleCodec, oldest: nat)
    requires Decodable(data) && Valid(Decode(data))
  {
    if forall j: nat :: !Expired(Decode(data), j, decode, oldest) then after == data
    else
      VacuumPageKeepsValid(Decode(data), decode, oldest);
      after == Encode(VacuumPage(Decode(data), decode, oldest))
  }

  lemma OnePageAfter(data: Bytes, decode: TupleCodec, oldest: nat)
    requires Decodable(data) && Valid(Decode(data))
    ensures PageAfter(data, VacuumBytes(data, decode, oldest), decode, oldest)
    ensures CountReclaimed(Decode(data), |Decode(data).pointers|, decode, oldest)
         == |set j: nat | j < |Decode(data).pointers| && Expired(Decode(data), j, decode, oldest)|
  {
    hide Decodable, Decode, Expired, CountReclaimed, VacuumPage, Encode;
    NothingExpired(Decode(data), decode, oldest);
    CountIsExpired(Decode(data), |Decode(data).pointers|, decode, oldest);
  }

  lemma ExpiredSlotsSnoc(storage: Storage, pages: seq<nat>, decode: TupleCodec, oldest: nat)
    requires Readable(storage, pages) && pages != [] && forall i :: 0 <= i < |pages| ==> Decodable(storage[pages[i]])
    ensures var n := |pages| - 1; var p := Decode(storage[pages[n]]);
      |ExpiredSlots(storage, pages, decode, oldest)|
      == |ExpiredSlots(storage, pages[..n], decode, oldest)| + |set j: nat | j < |p.pointers| && Expired(p, j, decode, oldest)|
  {
    hide Decodable, Decode, Expired, Serialized;
    var n := |pages| - 1;
    var p := Decode(storage[pages[n]]);
    var (all, fewer) := (ExpiredSlots(storage, pages, decode, oldest), ExpiredSlots(storage, pages[..n], decode, oldest));
    var js := set j: nat | j < |p.pointers| && Expired(p, j, decode, oldest);
    var last := Pairs(n, js);
    assert forall i :: 0 <= i < n ==> pages[..n][i] == pages[i];
    assert all == fewer + last;
    PairsSize(n, js);
  }

  function Pairs(n: nat, js: set<nat>): set<(nat, nat)> {
    set j | j in js :: (n, j)
  }

  lemma {:induction false} PairsSize(n: nat, js: set<nat>)
    ensures |Pairs(n, js)| == |js|
    decreases js
  {
    if js == {} {
      assert Pairs(n, js) == {};
    } else {
      var j :| j in js;
      PairsSize(n, js - {j});
      assert Pairs(n, js) == Pairs(n, js - {j}) + {(n, j)};
    }
  }
}
