/** HOT update chains in a page (src/storage/heap_page.rs): an updated slot redirects to the slot
    of its newer version. */
module HotChains {
  import opened Wrappers
  import opened ByteCodec
  import opened HeapPages
  import opened HeapPageOps

  /** The loop of `follow_chain`, with its hop counter. */
  function Follow(p: Page, current: nat, visited: nat): Option<nat>
    decreases |p.pointers| + 1 - visited
  {
    if current >= |p.pointers| then None
    else
      var lp := p.pointers[current];
      if lp.flags == NORMAL then Some(current)
      else if lp.flags != REDIRECT || visited + 1 > |p.pointers| then None
      else Follow(p, lp.offset, visited + 1)
  }

  function FollowChain(p: Page, start: nat): Option<nat> {
    Follow(p, start, 0)
  }

  // ---- runs -----------------------------------------------------------------

  datatype PageOp = Add(data: Bytes) | Update(slot: nat, data: Bytes)

  /** A page together with what was put into it: for each slot, the slot its tuple was first put in
      and the newest version of that tuple. */
  datatype History = History(page: Page, origin: seq<nat>, newest: seq<Bytes>)

  const START := History(EMPTY_PAGE, [], [])

  /** The source demands room below the free space's upper bound. */
  predicate Room(p: Page, op: PageOp) {
    |op.data| <= p.header.upper
  }

  function NewestAfter(h: History, first: nat, data: Bytes): seq<Bytes>
    requires |h.newest| == |h.origin|
  {
    seq(|h.newest|, i requires 0 <= i < |h.newest| => if h.origin[i] == first then data else h.newest[i]) + [data]
  }

  function Step(h: History, op: PageOp): History
    requires Room(h.page, op) && |h.newest| == |h.origin| == |h.page.pointers|
  {
    match op
    case Add(data) =>
      var (q, slot) := AddTuple(h.page, data);
      if slot.None? then h else History(q, h.origin + [|h.origin|], h.newest + [data])
    case Update(oldSlot, data) =>
      var (q, slot) := HotUpdate(h.page, oldSlot, data);
      if slot.None? then h
      else History(q, h.origin + [h.origin[oldSlot]], NewestAfter(h, h.origin[oldSlot], data))
  }

  /** Operations that do not have room are refused before they start. */
  function Run(ops: seq<PageOp>): (h: History)
    ensures |h.newest| == |h.origin| == |h.page.pointers| == |h.page.tuples|
    ensures NoDeadSlots(h.page)
  {
    if ops == [] then START
    else
      var h := Run(ops[..|ops| - 1]);
      var op := ops[|ops| - 1];
      if !Room(h.page, op) then h
      else
        NoDeadSlotIsFound(h.page);
        Step(h, op)
  }

  predicate NoDeadSlots(p: Page) {
    forall i :: 0 <= i < |p.pointers| ==> p.pointers[i].flags == NORMAL || p.pointers[i].flags == REDIRECT
  }

  lemma NoDeadSlotIsFound(p: Page)
    requires NoDeadSlots(p)
    ensures FirstDead(p.pointers) == |p.pointers|
  {}

  // ---- the chain invariant --------------------------------------------------

  /** Normal slots are the last of their tuple; a redirect points to a later slot of the same tuple;
      the bytes in a normal slot are the newest version. */
  ghost predicate ChainsWellFormed(h: History) {
    && |h.newest| == |h.origin| == |h.page.pointers| == |h.page.tuples| && NoDeadSlots(h.page)
    && (forall i :: 0 <= i < |h.origin| ==> h.origin[i] <= i)
    && (forall i, k :: 0 <= i < k < |h.origin| && h.page.pointers[i].flags == NORMAL ==> h.origin[k] != h.origin[i])
    && (forall i :: 0 <= i < |h.origin| && h.page.pointers[i].flags == REDIRECT ==>
          i < h.page.pointers[i].offset < |h.origin| && h.origin[h.page.pointers[i].offset] == h.origin[i])
    && (forall i, k :: 0 <= i < |h.origin| && 0 <= k < |h.origin| ==>
          h.origin[i] == h.origin[k] && h.page.pointers[i].flags == NORMAL ==> h.page.tuples[i] == h.newest[k])
  }

  lemma {:induction false} StepKeepsChains(h: History, op: PageOp)
    requires ChainsWellFormed(h) && Room(h.page, op)
    ensures ChainsWellFormed(Step(h, op))
  {
    NoDeadSlotIsFound(h.page);
    match op {
      case Add(data) => AddKeepsChains(h, data);
      case Update(oldSlot, data) => UpdateKeepsChains(h, oldSlot, data);
    }
  }

  lemma AddKeepsChains(h: History, data: Bytes)
    requires ChainsWellFormed(h) && |data| <= h.page.header.upper
    requires FirstDead(h.page.pointers) == |h.page.pointers|
    ensures ChainsWellFormed(Step(h, Add(data)))
  {
    hide FirstDead;
    var h', n := Step(h, Add(data)), |h.origin|;
    if AddTuple(h.page, data).1.Some? {
      assert h'.origin == h.origin + [n] && h'.newest == h.newest + [data];
      assert h'.page.tuples == h.page.tuples + [data];
      assert |h'.page.pointers| == n + 1 && h'.page.pointers[..n] == h.page.pointers && h'.page.pointers[n].flags == NORMAL;
      hide Step, AddTuple;
      forall i | 0 <= i < n
        ensures h'.page.pointers[i] == h.page.pointers[i]
      {
        assert h'.page.pointers[..n][i] == h.page.pointers[i];
      }
    }
  }

  lemma {:induction false} UpdateKeepsChains(h: History, oldSlot: nat, data: Bytes)
    requires ChainsWellFormed(h) && |data| <= h.page.header.upper
    ensures ChainsWellFormed(Step(h, Update(oldSlot, data)))
  {
    var h', n := Step(h, Update(oldSlot, data)), |h.origin|;
    if HotUpdate(h.page, oldSlot, data).1.Some? {
      assert h'.origin == h.origin + [h.origin[oldSlot]] && h'.newest == NewestAfter(h, h.origin[oldSlot], data);
      assert h'.page.tuples == h.page.tuples + [data];
      assert |h'.page.pointers| == n + 1 && h'.page.pointers[n].flags == NORMAL;
      assert h'.page.pointers[oldSlot] == LinePointer(n, REDIRECT);
      assert forall i :: 0 <= i < n && i != oldSlot ==> h'.page.pointers[i] == h.page.pointers[i];
      hide Step, HotUpdate;
    }
  }

  lemma {:induction false} RunChains(ops: seq<PageOp>)
    ensures ChainsWellFormed(Run(ops))
  {
    if ops != [] {
      var h := Run(ops[..|ops| - 1]);
      RunChains(ops[..|ops| - 1]);
      if Room(h.page, ops[|ops| - 1]) {
        StepKeepsChains(h, ops[|ops| - 1]);
      }
    }
  }

  /** Following a chain ends at the last slot of the same tuple before the hop cap is reached. */
  lemma {:induction false} FollowEnds(h: History, current: nat, visited: nat)
    requires ChainsWellFormed(h) && current < |h.origin| && visited <= current
    ensures var r := Follow(h.page, current, visited);
      && r.Some? && current <= r.value < |h.origin|
      && h.page.pointers[r.value].flags == NORMAL
      && h.origin[r.value] == h.origin[current]
    decreases |h.origin| - current
  {
    var lp := h.page.pointers[current];
    if lp.flags == REDIRECT {
      FollowEnds(h, lp.offset, visited + 1);
    }
  }

  /** In every page reached from the empty one by additions and updates, each allocated slot leads to
      the normal slot of the newest version of the tuple that was first put there. */
  lemma ChainLeadsToNewest(ops: seq<PageOp>, slot: nat)
    requires slot < |Run(ops).page.pointers|
    ensures var h := Run(ops); var r := FollowChain(h.page, slot);
      && r.Some? && slot <= r.value < |h.page.pointers|
      && h.page.pointers[r.value].flags == NORMAL && h.origin[r.value] == h.origin[slot]
      && h.page.tuples[r.value] == h.newest[slot]
      && forall k :: r.value < k < |h.origin| ==> h.origin[k] != h.origin[slot]
  {
    RunChains(ops);
    FollowEnds(Run(ops), slot, 0);
  }

  /** Two slots end in the same place exactly when they hold versions of the same tuple. */
  lemma ChainsMeetIff(ops: seq<PageOp>, s: nat, t: nat)
    requires s < |Run(ops).page.pointers| && t < |Run(ops).page.pointers|
    ensures var h := Run(ops);
      FollowChain(h.page, s) == FollowChain(h.page, t) <==> h.origin[s] == h.origin[t]
  {
    hide Run, FollowChain;
    ChainLeadsToNewest(ops, s);
    ChainLeadsToNewest(ops, t);
  }

  /** Redirects only ever point forward. */
  lemma RedirectsPointForward(ops: seq<PageOp>, slot: nat)
    requires slot < |Run(ops).page.pointers| && Run(ops).page.pointers[slot].flags == REDIRECT
    ensures slot < Run(ops).page.pointers[slot].offset < |Run(ops).page.pointers|
  {
    RunChains(ops);
  }

  // ---- any page ---------------------------------------------------------------

  /** Redirects from slot to slot, down to a normal one. */
  predicate Chain(p: Page, path: seq<nat>) {
    && path != []
    && (forall i :: 0 <= i < |path| ==> path[i] < |p.pointers|)
    && (forall i :: 0 <= i < |path| - 1 ==> p.pointers[path[i]].flags == REDIRECT && p.pointers[path[i]].offset == path[i + 1])
    && p.pointers[path[|path| - 1]].flags == NORMAL
  }

  ghost predicate Reaches(p: Page, start: nat, slot: nat, hops: nat) {
    exists path: seq<nat> :: Chain(p, path) && path[0] == start && path[|path| - 1] == slot && |path| <= hops + 1
  }

  lemma {:induction false} FollowReaches(p: Page, current: nat, visited: nat, slot: nat)
    requires visited <= |p.pointers|
    ensures Follow(p, current, visited) == Some(slot) <==> Reaches(p, current, slot, |p.pointers| - visited)
    decreases |p.pointers| + 1 - visited
  {
    var left := |p.pointers| - visited;
    ReachesFirst(p, current, slot, left);
    if current < |p.pointers| {
      var lp := p.pointers[current];
      if lp.flags == NORMAL {
        assert Chain(p, [current]);
      } else if lp.flags == REDIRECT && left > 0 {
        FollowReaches(p, lp.offset, visited + 1, slot);
        ReachesOn(p, current, slot, left);
      }
    }
  }

  lemma ReachesFirst(p: Page, current: nat, slot: nat, hops: nat)
    ensures Reaches(p, current, slot, hops) ==>
      && current < |p.pointers|
      && ((p.pointers[current].flags == NORMAL && slot == current) || (p.pointers[current].flags == REDIRECT && hops > 0))
  {
    if Reaches(p, current, slot, hops) {
      var path: seq<nat> :| Chain(p, path) && path[0] == current && path[|path| - 1] == slot && |path| <= hops + 1;
      if |path| > 1 {
        assert p.pointers[path[0]].flags == REDIRECT;
      }
    }
  }

  lemma ReachesOn(p: Page, current: nat, slot: nat, left: nat)
    requires current < |p.pointers| && p.pointers[current].flags == REDIRECT && left > 0
    ensures Reaches(p, current, slot, left) <==> Reaches(p, p.pointers[current].offset, slot, left - 1)
  {
    if Reaches(p, current, slot, left) {
      var path: seq<nat> :| Chain(p, path) && path[0] == current && path[|path| - 1] == slot && |path| <= left + 1;
      assert |path| > 1;
      assert Chain(p, path[1..]);
    }
    if Reaches(p, p.pointers[current].offset, slot, left - 1) {
      var path: seq<nat> :| Chain(p, path) && path[0] == p.pointers[current].offset && path[|path| - 1] == slot && |path| <= left;
      var longer := [current] + path;
      assert longer[|longer| - 1] == slot && Chain(p, longer);
    }
  }

  /** On any page, following a chain ends in a slot exactly if redirects, no more of them than there are
      slots, lead from the start to that slot and it is a normal one. */
  lemma FollowIs(p: Page, start: nat, slot: nat)
    ensures FollowChain(p, start) == Some(slot) <==> Reaches(p, start, slot, |p.pointers|)
  {
    FollowReaches(p, start, 0, slot);
  }
}
