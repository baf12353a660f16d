/** The clock sweep of src/buffer_cache/mod.rs, hand by hand, and what a fetch changes. */
module ClockReference {
  import opened BufferPools
  import opened ByteCodec

  // ---- one tick after another -------------------------------------------------

  /** The slot found, if any, the buffers as the hand left them, and where the hand rests. */
  datatype Found = Found(slot: nat, pool: seq<Buffer>, hand: nat)

  /** The hand looks at one buffer: a pinned one is passed, a used one loses one use, an unused one is
      taken and the hand moves behind it.  When its time is up, the first unpinned buffer is taken, or
      the first of all, with the hand back where the sweep began. */
  function Sweep(pool: seq<Buffer>, hand: nat, start: nat, left: nat): Found
    requires hand < |pool|
    decreases left
  {
    var b := pool[hand];
    var next := (hand + 1) % |pool|;
    if left == 0 then
      if exists i :: 0 <= i < |pool| && pool[i].pinCount == 0 then
        var i := LowestFree(pool, 0);
        Found(i, pool, (i + 1) % |pool|)
      else Found(0, pool, start)
    else if b.pinCount > 0 then Sweep(pool, next, start, left - 1)
    else if b.usageCount > 0 then Sweep(pool[hand := b.(usageCount := b.usageCount - 1)], next, start, left - 1)
    else Found(hand, pool, next)
  }

  function LowestFree(pool: seq<Buffer>, i: nat): (r: nat)
    requires i < |pool| && exists k :: i <= k < |pool| && pool[k].pinCount == 0
    ensures r < |pool|
    decreases |pool| - i
  {
    if pool[i].pinCount == 0 then i else LowestFree(pool, i + 1)
  }

  lemma {:induction false} LowestFreeIs(pool: seq<Buffer>, i: nat)
    requires i < |pool| && exists k :: i <= k < |pool| && pool[k].pinCount == 0
    ensures LowestFree(pool, i) == FirstUnpinned(pool, i)
    decreases |pool| - i
  {
    if pool[i].pinCount != 0 {
      LowestFreeIs(pool, i + 1);
    }
  }

  lemma TimeUp(before: seq<Buffer>, start: nat)
    requires start < |before| && Steps(before, start) == 2 * |before|
    ensures Sweep(Swept(before, start), start, start, 0) == Found(Victim(before, start), Swept(before, start), HandAfter(before, start))
  {
    var pool := Swept(before, start);
    SweptOut(before, start);
    hide Swept, Steps, Victim, HandAfter, AllPinned;
    SamePins(before, pool, 0);
    var i := FirstUnpinned(before, 0);
    LowestUnpinned(before, start, i);
    if i < |before| {
      assert pool[i].pinCount == 0;
      LowestFreeIs(pool, 0);
    }
  }

  lemma {:induction false} SamePins(a: seq<Buffer>, b: seq<Buffer>, i: nat)
    requires |a| == |b| && (forall k :: 0 <= k < |a| ==> a[k].pinCount == b[k].pinCount) && i <= |a|
    ensures FirstUnpinned(a, i) == FirstUnpinned(b, i)
    decreases |a| - i
  {
    if i < |a| && a[i].pinCount != 0 {
      SamePins(a, b, i + 1);
    }
  }

  lemma {:induction false} SweepFrom(before: seq<Buffer>, start: nat, k: nat)
    requires start < |before| && k <= Steps(before, start)
    ensures Sweep(SweptAfter(before, start, k), SlotAfter(|before|, start, k), start, 2 * |before| - k)
         == Found(Victim(before, start), Swept(before, start), HandAfter(before, start))
    decreases 2 * |before| - k
  {
    hide Steps, SweptAfter, Victim, HandAfter, AllPinned, Slot, FirstUnpinned, Aged, Place, Passes;
    if k == 2 * |before| {
      TimeUp(before, start);
      LastSlot(|before|, start);
    } else {
      SweepMeets(before, start, k);
      NextSlot(|before|, start, k);
      if k < Steps(before, start) {
        SweepStep(before, start, k);
        SweepFrom(before, start, k + 1);
      }
    }
  }

  lemma LastSlot(n: nat, start: nat)
    requires start < n
    ensures SlotAfter(n, start, 2 * n) == start
  {}

  /** The closed form of the victim, the buffers and the hand is what sweeping twice around gives. */
  lemma SweepIs(pool: seq<Buffer>, hand: nat)
    requires hand < |pool|
    ensures Sweep(pool, hand, hand, 2 * |pool|) == Found(Victim(pool, hand), Swept(pool, hand), HandAfter(pool, hand))
  {
    SweepStarts(pool, hand);
    SweepFrom(pool, hand, 0);
  }

  // ---- what a fetch changes -----------------------------------------------------

  /** A page in the pool gets one more use and one more pin; nothing else changes. */
  lemma FetchHits(p: Pool, page: nat, data: Bytes)
    requires WellFormed(p) && page in p.mapping
    ensures var (q, slot) := Fetch(p, page, data);
      && slot == p.mapping[page] && q.mapping == p.mapping && q.hand == p.hand && |q.buffers| == |p.buffers|
      && (forall i :: 0 <= i < |p.buffers| && i != slot ==> q.buffers[i] == p.buffers[i])
      && (var (a, b) := (p.buffers[slot], q.buffers[slot]);
          b.pageId == a.pageId && b.data == a.data && b.isDirty == a.isDirty
          && b.usageCount == a.usageCount + 1 && b.pinCount == a.pinCount + 1)
  {}

  /** A page that is not takes the slot the sweep finds, clean, used once and pinned once.  The page it
      replaces is forgotten only if it was dirty and unpinned. */
  lemma FetchMisses(p: Pool, page: nat, data: Bytes)
    requires WellFormed(p) && page !in p.mapping
    ensures var (q, slot) := Fetch(p, page, data);
      var found := Sweep(p.buffers, p.hand, p.hand, 2 * |p.buffers|);
      var evicted := p.buffers[slot];
      && slot == found.slot && q.hand == found.hand && |q.buffers| == |found.pool|
      && q.buffers[slot] == Buffer(page, data, false, 1, 1)
      && (forall i :: 0 <= i < |q.buffers| && i != slot ==> q.buffers[i] == found.pool[i])
      && (forall other :: other in q.mapping <==>
            other == page || (other in p.mapping && !(other == evicted.pageId && evicted.isDirty && evicted.pinCount == 0)))
      && q.mapping[page] == slot
      && (forall other :: other in q.mapping && other != page ==> q.mapping[other] == p.mapping[other])
  {
    hide Victim, Swept, HandAfter, Sweep;
    SweepIs(p.buffers, p.hand);
  }
}
