/** Adding, updating and compacting tuples in a slotted page. */
module HeapPageOps {
  import opened Wrappers
  import opened ByteCodec
  import opened HeapPages
  import opened Selections

  // ---- stored bytes ---------------------------------------------------------

  lemma {:induction false} StoredBytesLocal(p: Page, q: Page, n: nat)
    requires n <= |p.pointers| && n <= |q.pointers|
    requires forall i :: 0 <= i < n ==>
      Stored(p, i) == Stored(q, i) && (Stored(p, i) ==> |p.tuples[i]| == |q.tuples[i]|)
    ensures StoredBytes(p, n) == StoredBytes(q, n)
  {
    if n > 0 {
      StoredBytesLocal(p, q, n - 1);
    }
  }

  /** Putting `size` bytes into a slot that stored nothing adds exactly `size`. */
  lemma {:induction false} StoredBytesReplace(p: Page, q: Page, slot: nat, size: nat, n: nat)
    requires slot < n <= |p.pointers| && n <= |q.pointers|
    requires !Stored(p, slot) && Stored(q, slot) && |q.tuples[slot]| == size
    requires forall i :: 0 <= i < n && i != slot ==>
      Stored(p, i) == Stored(q, i) && (Stored(p, i) ==> |p.tuples[i]| == |q.tuples[i]|)
    ensures StoredBytes(q, n) == StoredBytes(p, n) + size
  {
    if slot == n - 1 {
      StoredBytesLocal(p, q, n - 1);
    } else {
      StoredBytesReplace(p, q, slot, size, n - 1);
    }
  }

  lemma {:induction false} StoredBytesFewer(p: Page, q: Page, n: nat)
    requires n <= |p.pointers| && n <= |q.pointers|
    requires forall i :: 0 <= i < n && Stored(q, i) ==> Stored(p, i) && |p.tuples[i]| == |q.tuples[i]|
    ensures StoredBytes(q, n) <= StoredBytes(p, n)
  {
    if n > 0 {
      StoredBytesFewer(p, q, n - 1);
    }
  }

  // ---- add_tuple ------------------------------------------------------------

  /** The first dead slot, or the number of slots if there is none. */
  function FirstDead(pointers: seq<LinePointer>): (i: nat)
    ensures i <= |pointers|
    ensures i < |pointers| ==> pointers[i].flags == DEAD
    ensures forall k :: 0 <= k < i ==> pointers[k].flags != DEAD
  {
    if pointers == [] then 0 else if pointers[0].flags == DEAD then 0 else 1 + FirstDead(pointers[1..])
  }

  /** A dead slot is reused, else a slot is appended; `None` when the page has no room. */
  function AddTuple(p: Page, data: Bytes): (Page, Option<nat>)
    requires |data| <= p.header.upper
  {
    var slot := FirstDead(p.pointers);
    var reuse := slot < |p.pointers|;
    var lower := if reuse then p.header.lower else p.header.lower + POINTER_SIZE;
    var upper := p.header.upper - |data|;
    if lower > upper then (p, None)
    else if reuse then
      (Page(p.header.(upper := upper), p.pointers[slot := LinePointer(upper, NORMAL)],
            if slot < |p.tuples| then p.tuples[slot := data] else p.tuples), Some(slot))
    else
      (Page(p.header.(lower := lower, upper := upper), p.pointers + [LinePointer(upper, NORMAL)],
            p.tuples + [data]), Some(slot))
  }

  /** A tuple is refused, and nothing changes, exactly when the free space cannot take its bytes and,
      unless a dead slot is there, a line pointer. Else it goes to the first dead slot, or to a new one,
      at the end of the free space, and every other slot is as it was. */
  lemma AddTupleEffect(p: Page, data: Bytes)
    requires |data| <= p.header.upper && |p.tuples| == |p.pointers|
    ensures var (q, slot) := AddTuple(p, data);
      var grows := if exists i :: 0 <= i < |p.pointers| && p.pointers[i].flags == 2 then 0 else 4;
      var upper := p.header.upper - |data|;
      && (slot == None <==> p.header.lower + grows > upper)
      && match slot
        case None => q == p
        case Some(s) =>
          && q.header == p.header.(lower := p.header.lower + grows, upper := upper)
          && s <= |p.pointers| && s < |q.pointers| == |q.tuples|
          && q.pointers[s] == LinePointer(upper, 0) && q.tuples[s] == data
          && (s < |p.pointers| ==> p.pointers[s].flags == 2 && |q.pointers| == |p.pointers|)
          && (forall i :: 0 <= i < s ==> p.pointers[i].flags != 2)
          && (s == |p.pointers| ==> |q.pointers| == |p.pointers| + 1)
          && forall i :: 0 <= i < |p.pointers| && i != s ==> q.pointers[i] == p.pointers[i] && q.tuples[i] == p.tuples[i]
  {}

  lemma AddTupleKeepsValid(p: Page, data: Bytes)
    requires Valid(p) && |data| <= p.header.upper && data != []
    ensures Valid(AddTuple(p, data).0)
  {
    hide StoredBytes;
    var (q, slot) := AddTuple(p, data);
    if slot.Some? {
      var n := |p.pointers|;
      if slot.value < n {
        StoredBytesReplace(p, q, slot.value, |data|, n);
      } else {
        StoredBytesLocal(p, q, n);
        StoredBytesSnoc(q, n);
      }
    }
  }

  lemma StoredBytesSnoc(p: Page, n: nat)
    requires n < |p.pointers|
    ensures StoredBytes(p, n + 1) == StoredBytes(p, n) + if Stored(p, n) then |p.tuples[n]| else 0
  {}

  // ---- hot_update -----------------------------------------------------------

  /** The new version goes into a new slot and the old slot becomes a redirect to it. */
  function HotUpdate(p: Page, oldSlot: nat, data: Bytes): (Page, Option<nat>)
    requires |data| <= p.header.upper
  {
    if oldSlot >= |p.pointers| || p.pointers[oldSlot].flags != NORMAL then (p, None)
    else
      var lower, upper := p.header.lower + POINTER_SIZE, p.header.upper - |data|;
      if lower > upper then (p, None)
      else
        var slot := |p.pointers|;
        (Page(p.header.(lower := lower, upper := upper),
              (p.pointers + [LinePointer(upper, NORMAL)])[oldSlot := LinePointer(slot, REDIRECT)],
              p.tuples + [data]), Some(slot))
  }

  /** An update is refused, and nothing changes, exactly when the old slot is not a normal one or the free
      space cannot take the bytes and a line pointer. Else the new version has a new slot, the old slot
      leads to it, and every other slot is as it was. */
  lemma HotUpdateEffect(p: Page, oldSlot: nat, data: Bytes)
    requires |data| <= p.header.upper && |p.tuples| == |p.pointers|
    ensures var (q, slot) := HotUpdate(p, oldSlot, data);
      var (n, upper) := (|p.pointers|, p.header.upper - |data|);
      && (slot == None <==> oldSlot >= n || p.pointers[oldSlot].flags != 0 || p.header.lower + 4 > upper)
      && match slot
        case None => q == p
        case Some(s) =>
          && s == n && |q.pointers| == n + 1 && q.tuples == p.tuples + [data]
          && q.header == p.header.(lower := p.header.lower + 4, upper := upper)
          && q.pointers[n] == LinePointer(upper, 0) && q.pointers[oldSlot] == LinePointer(n, 1)
          && forall i :: 0 <= i < n && i != oldSlot ==> q.pointers[i] == p.pointers[i]
  {}

  lemma HotUpdateKeepsValid(p: Page, oldSlot: nat, data: Bytes)
    requires Valid(p) && |data| <= p.header.upper && data != []
    ensures Valid(HotUpdate(p, oldSlot, data).0)
  {
    hide StoredBytes;
    var (q, slot) := HotUpdate(p, oldSlot, data);
    if slot.Some? {
      StoredBytesFewer(p, q, |p.pointers|);
      StoredBytesSnoc(q, |p.pointers|);
    }
  }

  // ---- compact --------------------------------------------------------------

  /** Line pointers of the first `n` slots that are not dead. */
  function LivePointers(p: Page, n: nat): seq<LinePointer>
    requires n <= |p.pointers|
  {
    if n == 0 then []
    else LivePointers(p, n - 1) + if p.pointers[n - 1].flags != DEAD then [p.pointers[n - 1]] else []
  }

  function TupleOf(p: Page, i: nat): Bytes {
    if i < |p.tuples| then p.tuples[i] else []
  }

  function LiveTuples(p: Page, n: nat): seq<Bytes>
    requires n <= |p.pointers|
  {
    if n == 0 then []
    else LiveTuples(p, n - 1) + if p.pointers[n - 1].flags == DEAD then [] else [TupleOf(p, n - 1)]
  }

  /** Dead slots are dropped, the rest close up; the bounds of the free space are recomputed. */
  function Compact(p: Page): Page
    requires StoredBytes(p, |p.pointers|) <= PAGE_SIZE
  {
    var n := |p.pointers|;
    Page(p.header.(lower := HEADER_SIZE + POINTER_SIZE * |LivePointers(p, n)|, upper := TupleStart(p, n)),
         LivePointers(p, n), LiveTuples(p, n))
  }

  /** The live slots of the first `n`, as a page of their own, for reasoning about prefixes. */
  function LivePrefix(p: Page, n: nat): Page
    requires n <= |p.pointers|
  {
    Page(p.header, LivePointers(p, n), LiveTuples(p, n))
  }

  lemma {:induction false} LivePrefixProperties(p: Page, n: nat)
    requires Valid(p) && n <= |p.pointers|
    ensures var q := LivePrefix(p, n);
      && |q.tuples| == |q.pointers| <= n
      && StoredBytes(q, |q.pointers|) == StoredBytes(p, n)
      && (forall i :: 0 <= i < |q.pointers| ==> q.pointers[i].flags < 0x1_0000 && q.pointers[i].offset < 0x1_0000)
      && (forall i :: 0 <= i < |q.pointers| && q.pointers[i].flags == NORMAL ==> q.tuples[i] != [])
      && (forall i :: 0 <= i < |q.pointers| ==> q.pointers[i].flags != DEAD)
  {
    if n > 0 {
      LivePrefixProperties(p, n - 1);
      var before, after := LivePrefix(p, n - 1), LivePrefix(p, n);
      StoredBytesLocal(before, after, |before.pointers|);
    }
  }

  lemma CompactKeepsValid(p: Page)
    requires Valid(p)
    ensures StoredBytes(p, |p.pointers|) <= PAGE_SIZE
    ensures Valid(Compact(p))
  {
    hide StoredBytes, LivePointers, LiveTuples;
    LivePrefixProperties(p, |p.pointers|);
    StoredBytesLocal(LivePrefix(p, |p.pointers|), Compact(p), |LivePointers(p, |p.pointers|)|);
  }

  lemma {:induction false} LiveSlots(p: Page, n: nat) returns (ks: seq<nat>)
    requires n <= |p.pointers|
    ensures Increasing(ks) && |ks| == |LivePointers(p, n)| == |LiveTuples(p, n)|
    ensures forall i: nat :: i in ks <==> i < n && p.pointers[i].flags != 2
    ensures forall k :: 0 <= k < |ks| ==> ks[k] < n && LivePointers(p, n)[k] == p.pointers[ks[k]]
    ensures forall k :: 0 <= k < |ks| ==> LiveTuples(p, n)[k] == if ks[k] < |p.tuples| then p.tuples[ks[k]] else []
  {
    if n == 0 {
      ks := [];
    } else {
      ks := LiveSlots(p, n - 1);
      if p.pointers[n - 1].flags != 2 {
        ks := ks + [n - 1];
      }
    }
  }

  /** The bytes of the normal slots. */
  function NormalBytes(pointers: seq<LinePointer>, tuples: seq<Bytes>): nat
    requires |tuples| == |pointers|
    decreases |pointers|
  {
    if pointers == [] then 0
    else
      var n := |pointers| - 1;
      NormalBytes(pointers[..n], tuples[..n]) + if pointers[n].flags == 0 then |tuples[n]| else 0
  }

  lemma {:induction false} NormalBytesStored(p: Page, n: nat)
    requires n <= |p.pointers| == |p.tuples|
    ensures StoredBytes(p, n) == NormalBytes(p.pointers[..n], p.tuples[..n])
  {
    if n > 0 {
      NormalBytesStored(p, n - 1);
      assert p.pointers[..n][..n - 1] == p.pointers[..n - 1] && p.tuples[..n][..n - 1] == p.tuples[..n - 1];
    }
  }

  /** Exactly the slots that are not dead remain, in their order and with their line pointers; a missing
      tuple counts as empty; the free space lies between the line pointers and what the normal slots take. */
  lemma {:induction false} CompactEffect(p: Page) returns (ks: seq<nat>)
    requires StoredBytes(p, |p.pointers|) <= PAGE_SIZE
    ensures var q := Compact(p);
      && Increasing(ks) && (forall i: nat :: i in ks <==> i < |p.pointers| && p.pointers[i].flags != 2)
      && Taken(q.pointers, p.pointers, ks) && |q.tuples| == |ks|
      && (forall k :: 0 <= k < |ks| ==> q.tuples[k] == if ks[k] < |p.tuples| then p.tuples[ks[k]] else [])
      && q.header == p.header.(lower := 26 + 4 * |ks|, upper := q.header.upper)
      && q.header.upper + NormalBytes(q.pointers, q.tuples) == 8192
  {
    hide StoredBytes, LivePointers, LiveTuples;
    var n := |p.pointers|;
    ks := LiveSlots(p, n);
    var q := LivePrefix(p, n);
    LiveBytes(p, n);
    NormalBytesStored(q, |q.pointers|);
    assert q.pointers[..|q.pointers|] == q.pointers && q.tuples[..|q.pointers|] == q.tuples;
  }

  /** The live slots of a page store what the page stored. */
  lemma {:induction false} LiveBytes(p: Page, n: nat)
    requires n <= |p.pointers|
    ensures |LiveTuples(p, n)| == |LivePointers(p, n)|
    ensures StoredBytes(LivePrefix(p, n), |LivePointers(p, n)|) == StoredBytes(p, n)
  {
    if n > 0 {
      LiveBytes(p, n - 1);
      StoredBytesLocal(LivePrefix(p, n - 1), LivePrefix(p, n), |LivePointers(p, n - 1)|);
    }
  }
}
