/** The buffer pool's clock sweep and page fetch (src/buffer_cache/mod.rs). */
module BufferPools {
  import opened ByteCodec
  import opened PageStores

  datatype Buffer = Buffer(pageId: nat, data: Bytes, isDirty: bool, usageCount: nat, pinCount: nat)

  datatype Pool = Pool(buffers: seq<Buffer>, mapping: map<nat, nat>, hand: nat)

  // ---- the clock, in closed form --------------------------------------------

  /** The slot `k` places after the hand. */
  function Slot(n: nat, hand: nat, k: nat): (slot: nat)
    requires hand < n && k < n
    ensures slot < n
  {
    if hand + k < n then hand + k else hand + k - n
  }

  /** How many places after the hand a slot is. */
  function Place(n: nat, hand: nat, slot: nat): (k: nat)
    requires hand < n && slot < n
    ensures k < n && Slot(n, hand, k) == slot
  {
    if slot >= hand then slot - hand else slot + n - hand
  }

  predicate Unpinned(b: Buffer, usage: nat) {
    b.pinCount == 0 && b.usageCount == usage
  }

  /** The first place at or after `k` with an unpinned buffer of that usage, or the pool size. */
  function FirstPlace(pool: seq<Buffer>, hand: nat, usage: nat, k: nat): (r: nat)
    requires hand < |pool| && k <= |pool|
    ensures k <= r <= |pool|
    ensures r < |pool| ==> Unpinned(pool[Slot(|pool|, hand, r)], usage)
    ensures forall j :: k <= j < r ==> !Unpinned(pool[Slot(|pool|, hand, j)], usage)
    decreases |pool| - k
  {
    if k == |pool| || Unpinned(pool[Slot(|pool|, hand, k)], usage) then k else FirstPlace(pool, hand, usage, k + 1)
  }

  function FirstUnpinned(pool: seq<Buffer>, i: nat): (r: nat)
    requires i <= |pool|
    ensures i <= r <= |pool|
    ensures r < |pool| ==> pool[r].pinCount == 0
    ensures forall j :: i <= j < r ==> pool[j].pinCount != 0
    decreases |pool| - i
  {
    if i == |pool| || pool[i].pinCount == 0 then i else FirstUnpinned(pool, i + 1)
  }

  /** How many steps the sweep makes before it stops: at the first unused buffer, else one round
      later at the first buffer that was used once, else after two rounds. */
  function Steps(pool: seq<Buffer>, hand: nat): (steps: nat)
    requires hand < |pool|
    ensures steps <= 2 * |pool|
  {
    var n := |pool|;
    var idle := FirstPlace(pool, hand, 0, 0);
    if idle < n then idle else n + FirstPlace(pool, hand, 1, 0)
  }

  function Victim(pool: seq<Buffer>, hand: nat): (slot: nat)
    requires hand < |pool|
    ensures slot < |pool|
  {
    var n := |pool|;
    var steps := Steps(pool, hand);
    if steps < 2 * n then Slot(n, hand, if steps < n then steps else steps - n)
    else
      var lowest := FirstUnpinned(pool, 0);
      if lowest < n then lowest else 0
  }

  /** How often the first `steps` steps of the sweep pass a place. */
  function Passes(n: nat, steps: nat, place: nat): nat {
    (if place < steps then 1 else 0) + (if n + place < steps then 1 else 0)
  }

  function Aged(b: Buffer, passes: nat): Buffer {
    if b.pinCount > 0 || b.usageCount < passes then b else b.(usageCount := b.usageCount - passes)
  }

  function SweptAfter(pool: seq<Buffer>, hand: nat, steps: nat): (swept: seq<Buffer>)
    requires hand < |pool|
    ensures |swept| == |pool|
  {
    seq(|pool|, i requires 0 <= i < |pool| => Aged(pool[i], Passes(|pool|, steps, Place(|pool|, hand, i))))
  }

  function Swept(pool: seq<Buffer>, hand: nat): (swept: seq<Buffer>)
    requires hand < |pool|
    ensures |swept| == |pool|
  {
    SweptAfter(pool, hand, Steps(pool, hand))
  }

  predicate AllPinned(pool: seq<Buffer>) {
    forall i :: 0 <= i < |pool| ==> pool[i].pinCount > 0
  }

  /** The hand moves past the victim, but stays where it is when every buffer is pinned. */
  function HandAfter(pool: seq<Buffer>, hand: nat): (next: nat)
    requires hand < |pool|
    ensures next < |pool|
  {
    if AllPinned(pool) then hand else (Victim(pool, hand) + 1) % |pool|
  }

  /** No unpinned buffer runs out of usage before the sweep stops. */
  lemma EnoughUsage(pool: seq<Buffer>, hand: nat, i: nat)
    requires hand < |pool| && i < |pool| && pool[i].pinCount == 0
    ensures Passes(|pool|, Steps(pool, hand), Place(|pool|, hand, i)) <= pool[i].usageCount
  {
    var place := Place(|pool|, hand, i);
    var idle := FirstPlace(pool, hand, 0, 0);
    assert place < idle ==> !Unpinned(pool[Slot(|pool|, hand, place)], 0);
    if idle == |pool| {
      var once := FirstPlace(pool, hand, 1, 0);
      assert place < once ==> !Unpinned(pool[Slot(|pool|, hand, place)], 1);
    }
  }

  lemma SweepStep(pool: seq<Buffer>, hand: nat, k: nat)
    requires hand < |pool| && k < Steps(pool, hand)
    ensures var slot := Slot(|pool|, hand, if k < |pool| then k else k - |pool|);
      var now := SweptAfter(pool, hand, k);
      SweptAfter(pool, hand, k + 1) ==
        if now[slot].pinCount > 0 then now else now[slot := now[slot].(usageCount := now[slot].usageCount - 1)]
  {
    var n := |pool|;
    var place := if k < n then k else k - n;
    var slot := Slot(n, hand, place);
    var now, next := SweptAfter(pool, hand, k), SweptAfter(pool, hand, k + 1);
    forall i | 0 <= i < n && i != slot
      ensures next[i] == now[i]
    {
      assert Place(n, hand, i) != place;
    }
    assert Place(n, hand, slot) == place;
    if pool[slot].pinCount == 0 {
      EnoughUsage(pool, hand, slot);
    }
    assert now[slot := next[slot]] == next;
  }

  lemma NextSlot(n: nat, hand: nat, k: nat)
    requires hand < n && k < 2 * n
    ensures (Slot(n, hand, if k < n then k else k - n) + 1) % n == SlotAfter(n, hand, k + 1)
  {}

  /** Where the hand points after `k` steps. */
  function SlotAfter(n: nat, hand: nat, k: nat): (slot: nat)
    requires hand < n && k <= 2 * n
    ensures slot < n
  {
    Slot(n, hand, if k < n then k else if k < 2 * n then k - n else 0)
  }

  lemma SweepStarts(pool: seq<Buffer>, hand: nat)
    requires hand < |pool|
    ensures SweptAfter(pool, hand, 0) == pool && SlotAfter(|pool|, hand, 0) == hand
  {}

  lemma SweptOut(pool: seq<Buffer>, hand: nat)
    requires hand < |pool| && Steps(pool, hand) == 2 * |pool|
    ensures forall i :: 0 <= i < |pool| ==> Swept(pool, hand)[i].pinCount == pool[i].pinCount
  {}

  /** What is left after two rounds without a victim. */
  lemma LowestUnpinned(pool: seq<Buffer>, hand: nat, i: nat)
    requires hand < |pool| && Steps(pool, hand) == 2 * |pool| && i == FirstUnpinned(pool, 0)
    ensures i < |pool| ==> Victim(pool, hand) == i && HandAfter(pool, hand) == (i + 1) % |pool|
    ensures i == |pool| ==> Victim(pool, hand) == 0 && HandAfter(pool, hand) == hand
  {}

  lemma FirstUnpinnedAt(pool: seq<Buffer>, i: nat)
    requires i < |pool| && pool[i].pinCount == 0 && FirstUnpinned(pool, 0) >= i
    ensures FirstUnpinned(pool, 0) == i
  {}

  /** Where the sweep is after `k` steps, it stops now or there is something to take off. */
  lemma SweepMeets(pool: seq<Buffer>, hand: nat, k: nat)
    requires hand < |pool| && k <= Steps(pool, hand) && k < 2 * |pool|
    ensures var slot := Slot(|pool|, hand, if k < |pool| then k else k - |pool|);
      var b := SweptAfter(pool, hand, k)[slot];
      && b.pinCount == pool[slot].pinCount
      && (Unpinned(b, 0) <==> k == Steps(pool, hand))
      && (k == Steps(pool, hand) ==> slot == Victim(pool, hand) && HandAfter(pool, hand) == (slot + 1) % |pool|)
  {
    var place := if k < |pool| then k else k - |pool|;
    var slot := Slot(|pool|, hand, place);
    assert Place(|pool|, hand, slot) == place;
    if pool[slot].pinCount == 0 {
      EnoughUsage(pool, hand, slot);
    }
  }

  /** A victim is unpinned whenever some buffer is; one found by sweeping has no usage left; if the
      sweep finds none, every unpinned buffer had been used at least twice and has lost exactly two. */
  lemma VictimIsFree(pool: seq<Buffer>, hand: nat)
    requires hand < |pool|
    ensures pool[Victim(pool, hand)].pinCount == 0 <==> !AllPinned(pool)
    ensures Steps(pool, hand) < 2 * |pool| ==> Unpinned(Swept(pool, hand)[Victim(pool, hand)], 0)
    ensures Steps(pool, hand) == 2 * |pool| ==>
      forall i :: 0 <= i < |pool| && pool[i].pinCount == 0 ==>
        2 <= pool[i].usageCount && Swept(pool, hand)[i] == pool[i].(usageCount := pool[i].usageCount - 2)
    ensures forall i :: 0 <= i < |pool| && pool[i].pinCount > 0 ==> Swept(pool, hand)[i] == pool[i]
  {
    var n, steps, victim := |pool|, Steps(pool, hand), Victim(pool, hand);
    if steps < 2 * n {
      EnoughUsage(pool, hand, victim);
    } else {
      forall i | 0 <= i < n && pool[i].pinCount == 0
        ensures 2 <= pool[i].usageCount && Swept(pool, hand)[i] == pool[i].(usageCount := pool[i].usageCount - 2)
      {
        EnoughUsage(pool, hand, i);
      }
    }
  }

  /** Second chance: no unpinned buffer used fewer than two times is passed over for one used more. */
  lemma UsedBuffersGoLast(pool: seq<Buffer>, hand: nat, i: nat)
    requires hand < |pool| && i < |pool| && pool[i].pinCount == 0
    ensures pool[i].usageCount < 2 ==> pool[Victim(pool, hand)].usageCount <= pool[i].usageCount
  {
    var place := Place(|pool|, hand, i);
    var idle := FirstPlace(pool, hand, 0, 0);
    if pool[i].usageCount == 0 {
      assert Unpinned(pool[Slot(|pool|, hand, place)], 0);
      assert idle <= place;
    } else if pool[i].usageCount == 1 {
      assert Unpinned(pool[Slot(|pool|, hand, place)], 1);
      assert idle < |pool| || FirstPlace(pool, hand, 1, 0) <= place;
    }
  }

  // ---- fetching -------------------------------------------------------------

  predicate WellFormed(p: Pool) {
    p.hand < |p.buffers| && forall page :: page in p.mapping ==> p.mapping[page] < |p.buffers|
  }

  /** The buffer is written back, and its page forgotten, before it is reused. */
  predicate WritesBack(b: Buffer) {
    b.isDirty && b.pinCount == 0
  }

  function Fetch(p: Pool, page: nat, data: Bytes): (r: (Pool, nat))
    requires WellFormed(p)
    ensures WellFormed(r.0) && r.1 < |p.buffers| == |r.0.buffers|
  {
    if page in p.mapping then
      var slot := p.mapping[page];
      var b := p.buffers[slot];
      (p.(buffers := p.buffers[slot := b.(usageCount := b.usageCount + 1, pinCount := b.pinCount + 1)]), slot)
    else
      var slot := Victim(p.buffers, p.hand);
      var b := p.buffers[slot];
      var kept := if WritesBack(b) then p.mapping - {b.pageId} else p.mapping;
      var buffers := Swept(p.buffers, p.hand)[slot := Buffer(page, data, false, 1, 1)];
      (Pool(buffers, kept[page := slot], HandAfter(p.buffers, p.hand)), slot)
  }

  /** Every mapped page is in the slot it is mapped to. */
  ghost predicate Coherent(p: Pool) {
    WellFormed(p) && forall page :: page in p.mapping ==> p.buffers[p.mapping[page]].pageId == page
  }

  /** What a miss leaves behind is coherent exactly when its victim was written back or was not the
      mapped copy of its page: evicting a clean mapped page leaves a stale entry. */
  lemma FetchStaysCoherentIff(p: Pool, page: nat, data: Bytes)
    requires Coherent(p)
    ensures Coherent(Fetch(p, page, data).0) <==>
      || page in p.mapping
      || (var slot := Victim(p.buffers, p.hand);
          var b := p.buffers[slot];
          WritesBack(b) || b.pageId !in p.mapping || p.mapping[b.pageId] != slot)
  {
    hide Victim, Steps, HandAfter, AllPinned;
    var q := Fetch(p, page, data).0;
    if page !in p.mapping {
      var slot := Victim(p.buffers, p.hand);
      var b := p.buffers[slot];
      assert forall i :: 0 <= i < |p.buffers| && i != slot ==> q.buffers[i].pageId == p.buffers[i].pageId;
      if !WritesBack(b) && b.pageId in p.mapping && p.mapping[b.pageId] == slot {
        assert b.pageId in q.mapping && q.mapping[b.pageId] == slot && q.buffers[slot].pageId == page;
      }
    }
  }

  /** From a coherent pool, a fetch returns a slot that holds the page; a miss reads it from storage. */
  lemma FetchReturnsPage(p: Pool, page: nat, data: Bytes)
    requires Coherent(p)
    ensures var (q, slot) := Fetch(p, page, data);
      && q.buffers[slot].pageId == page && q.buffers[slot].pinCount > 0 && page in q.mapping && q.mapping[page] == slot
      && (page !in p.mapping ==> q.buffers[slot].data == data)
      && (page in p.mapping ==> q.buffers[slot].data == p.buffers[slot].data)
  {
    hide Victim, Swept, HandAfter;
  }

  /** Unless a miss finds every buffer pinned, a fetch keeps the contents and the pins of all pinned
      buffers. */
  lemma PinnedBuffersSurvive(p: Pool, page: nat, data: Bytes, i: nat)
    requires WellFormed(p) && (page in p.mapping || !AllPinned(p.buffers))
    requires i < |p.buffers| && p.buffers[i].pinCount > 0
    ensures var b := Fetch(p, page, data).0.buffers[i];
      && b.pageId == p.buffers[i].pageId && b.data == p.buffers[i].data && b.isDirty == p.buffers[i].isDirty
      && b.pinCount >= p.buffers[i].pinCount
  {
    hide Victim, Steps, Passes, Place;
    VictimIsFree(p.buffers, p.hand);
  }

  /** A miss that does find every buffer pinned overwrites the first one, whoever holds it. */
  lemma AllPinnedIsOverwritten(p: Pool, page: nat, data: Bytes)
    requires WellFormed(p) && page !in p.mapping && AllPinned(p.buffers)
    ensures Fetch(p, page, data) ==
      (Pool(p.buffers[0 := Buffer(page, data, false, 1, 1)], p.mapping[page := 0], p.hand), 0)
  {
    var pool := p.buffers;
    assert Swept(pool, p.hand) == pool;
    if Steps(pool, p.hand) < 2 * |pool| {
      VictimIsFree(pool, p.hand);
    }
  }

  /** A pool of one buffer: fetch page 1, unpin it, fetch page 2, unpin it; page 1 is still mapped,
      and fetching it again returns the buffer that holds page 2. */
  lemma StaleFetch(one: Bytes, two: Bytes)
    ensures var clean := Buffer(1, one, false, 1, 0);
      var p := Pool([clean], map[1 := 0], 0);
      Coherent(p) &&
      var q := Fetch(p, 2, two).0;
      1 in q.mapping && Fetch(q, 1, one).1 == 0 && Fetch(q, 1, one).0.buffers[0].pageId == 2
  {
    var p := Pool([Buffer(1, one, false, 1, 0)], map[1 := 0], 0);
    assert Victim(p.buffers, p.hand) == 0;
  }

  // ---- the pool object ------------------------------------------------------

  class BufferPool {
    const buffers: array<Buffer>
    var pageMap: map<nat, nat>
    var nextVictim: nat

    function View(): Pool
      reads this, buffers
    {
      Pool(buffers[..], pageMap, nextVictim)
    }

    constructor (poolSize: nat)
      requires poolSize > 0
      ensures WellFormed(View()) && fresh(buffers)
      ensures View() == Pool(seq(poolSize, _ => Buffer(0, Zeros(8192), false, 0, 0)), map[], 0)
    {
      hide Zeros;
      var empty := Zeros(8192);
      buffers := new Buffer[poolSize](_ => Buffer(0, empty, false, 0, 0));
      pageMap, nextVictim := map[], 0;
      new;
      assert buffers[..] == seq(poolSize, _ => Buffer(0, Zeros(8192), false, 0, 0));
    }

    method FindVictim() returns (slot: nat)
      requires WellFormed(View())
      modifies this`nextVictim, buffers
      ensures slot == Victim(old(buffers[..]), old(nextVictim))
      ensures View() == old(View()).(
        buffers := Swept(old(buffers[..]), old(nextVictim)), hand := HandAfter(old(buffers[..]), old(nextVictim)))
    {
      hide Steps, SweptAfter, Victim, HandAfter, AllPinned, Slot, FirstUnpinned, Aged, Place, Passes;
      ghost var before, start := buffers[..], nextVictim;
      SweepStarts(before, start);
      var n := buffers.Length;
      var hand := nextVictim;
      for k := 0 to n * 2
        invariant hand == SlotAfter(n, start, k)
        invariant k <= Steps(before, start)
        invariant nextVictim == start
        invariant buffers[..] == SweptAfter(before, start, k)
      {
        SweepMeets(before, start, k);
        NextSlot(n, start, k);
        if k < Steps(before, start) {
          SweepStep(before, start, k);
        }
        var b := buffers[hand];
        if b.pinCount == 0 {
          if b.usageCount > 0 {
            buffers[hand] := b.(usageCount := b.usageCount - 1);
          } else {
            nextVictim := (hand + 1) % n;
            return hand;
          }
        }
        hand := (hand + 1) % n;
      }
      SweptOut(before, start);
      for i := 0 to n
        invariant FirstUnpinned(before, 0) >= i
      {
        if buffers[i].pinCount == 0 {
          FirstUnpinnedAt(before, i);
          LowestUnpinned(before, start, i);
          nextVictim := (i + 1) % n;
          return i;
        }
      }
      LowestUnpinned(before, start, n);
      slot := 0;
    }

    method FetchPage(storage: PageStore, page: nat) returns (slot: nat)
      requires WellFormed(View())
      modifies this, buffers, storage
      ensures (View(), slot) == Fetch(old(View()), page, PageBytes(old(storage.pages), page))
      ensures storage.pages ==
        var b := old(buffers[..])[Victim(old(buffers[..]), old(nextVictim))];
        if page !in old(pageMap) && WritesBack(b) then old(storage.pages)[b.pageId := b.data] else old(storage.pages)
    {
      if page in pageMap {
        slot := pageMap[page];
        var b := buffers[slot];
        buffers[slot] := b.(usageCount := b.usageCount + 1, pinCount := b.pinCount + 1);
      } else {
        slot := FindVictim();
        var data := storage.ReadPage(page);
        var b := buffers[slot];
        if b.isDirty && b.pinCount == 0 {
          storage.WritePage(b.pageId, b.data);
          pageMap := pageMap - {b.pageId};
        }
        buffers[slot] := Buffer(page, data, false, 1, 1);
        pageMap := pageMap[page := slot];
      }
    }
  }
}
