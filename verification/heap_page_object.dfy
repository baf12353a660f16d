/** The page object of src/storage/heap_page.rs: fields updated in place, byte buffers filled in
    loops; each method is proved to compute the corresponding page function. */
module HeapPageObjects {
  import opened Wrappers
  import opened ByteCodec
  import opened HeapPages
  import opened HeapPageCodec
  import opened HeapPageOps
  import opened HotChains

  class HeapPage {
    var header: Header
    var linePointers: seq<LinePointer>
    var tuples: seq<Bytes>

    ghost function View(): Page
      reads this
    {
      Page(header, linePointers, tuples)
    }

    constructor ()
      ensures View() == EMPTY_PAGE
    {
      header := Header(0, 0, 0, HEADER_SIZE, PAGE_SIZE, PAGE_SIZE, 0x0802, 0);
      linePointers, tuples := [], [];
    }

    /** `deserialize`. */
    constructor Deserialize(data: Bytes)
      requires Decodable(data)
      ensures View() == Decode(data)
    {
      hide DecodeHeader, TupleAt, PointerAt;
      var h := DecodeHeader(data);
      var n := PointerCount(data);
      var pointers: seq<LinePointer> := [];
      for i := 0 to n
        invariant |pointers| == i
        invariant forall k :: 0 <= k < i ==> pointers[k] == PointerAt(data, k)
      {
        pointers := pointers + [PointerAt(data, i)];
      }
      var contents: seq<Bytes> := [];
      for i := 0 to n
        invariant |contents| == i
        invariant forall k :: 0 <= k < i ==> contents[k] == TupleAt(data, pointers, k, h.special)
      {
        var t := ReadTuple(data, pointers, i, h.special);
        contents := contents + [t];
      }
      header, linePointers, tuples := h, pointers, contents;
      assert pointers == Decode(data).pointers;
    }

    /** `serialize`. */
    method Serialize() returns (page: array<byte>)
      requires Fits(View())
      ensures fresh(page) && page[..] == Encode(View())
    {
      hide EncodeHeader, StoredBytes, TupleArea, PointerBytes, Encode;
      ghost var p := View();
      var n := |linePointers|;
      page := new byte[PAGE_SIZE](i => 0);
      var pointers: seq<LinePointer> := [];
      var tupleOffset := PAGE_SIZE;
      TupleAreaNil(p);
      for i := 0 to n
        invariant tupleOffset == TupleStart(p, i) && 0 <= tupleOffset <= PAGE_SIZE
        invariant |pointers| == i && forall k :: 0 <= k < i ==> pointers[k] == WrittenPointers(p)[k]
        invariant page[tupleOffset..] == TupleArea(p, i)
        invariant forall k :: 0 <= k < tupleOffset ==> page[k] == 0
      {
        var lp := linePointers[i];
        TupleAreaSnoc(p, i);
        StoredBytesMonotone(p, i + 1, n);
        if lp.flags == NORMAL {
          if i < |tuples| && tuples[i] != [] {
            var bytes := tuples[i];
            ghost var below := page[tupleOffset..];
            ghost var was := tupleOffset;
            tupleOffset := tupleOffset - |bytes|;
            lp := lp.(offset := tupleOffset);
            CopyInto(page, tupleOffset, bytes);
            assert page[was..] == below;
            assert page[tupleOffset..] == bytes + below by {
              assert page[tupleOffset..] == page[tupleOffset..was] + page[was..];
            }
          }
        } else {
          lp := lp.(offset := 0);
        }
        pointers := pointers + [lp];
      }
      assert pointers == WrittenPointers(p);
      var h := header.(lower := HEADER_SIZE + POINTER_SIZE * n, upper := tupleOffset);
      WriteFront(p, page, h, pointers, tupleOffset);
    }

    /** `add_tuple`. */
    method AddTuple(data: Bytes) returns (slot: Option<nat>)
      requires |data| <= header.upper
      modifies this
      ensures (View(), slot) == HeapPageOps.AddTuple(old(View()), data)
    {
      var found := |linePointers|;
      for i := 0 to |linePointers|
        invariant found == |linePointers| && View() == old(View())
        invariant forall k :: 0 <= k < i ==> linePointers[k].flags != DEAD
      {
        if linePointers[i].flags == DEAD {
          found := i;
          break;
        }
      }
      FirstDeadUnique(linePointers, found);
      var reuse := found < |linePointers|;
      var newLower := if reuse then header.lower else header.lower + POINTER_SIZE;
      var newUpper := header.upper - |data|;
      if newLower > newUpper {
        return None;
      }
      if reuse {
        linePointers := linePointers[found := LinePointer(newUpper, NORMAL)];
        if found < |tuples| {
          tuples := tuples[found := data];
        }
      } else {
        linePointers := linePointers + [LinePointer(newUpper, NORMAL)];
        tuples := tuples + [data];
        header := header.(lower := newLower);
      }
      header := header.(upper := newUpper);
      return Some(found);
    }

    /** `hot_update`. */
    method HotUpdate(oldSlot: nat, data: Bytes) returns (slot: Option<nat>)
      requires |data| <= header.upper
      modifies this
      ensures (View(), slot) == HeapPageOps.HotUpdate(old(View()), oldSlot, data)
    {
      if oldSlot >= |linePointers| {
        return None;
      }
      if linePointers[oldSlot].flags != NORMAL {
        return None;
      }
      var newLower := header.lower + POINTER_SIZE;
      var newUpper := header.upper - |data|;
      if newLower > newUpper {
        return None;
      }
      var newSlot := |linePointers|;
      linePointers := linePointers + [LinePointer(newUpper, NORMAL)];
      tuples := tuples + [data];
      linePointers := linePointers[oldSlot := linePointers[oldSlot].(flags := REDIRECT)];
      linePointers := linePointers[oldSlot := linePointers[oldSlot].(offset := newSlot)];
      assert linePointers == (old(linePointers) + [LinePointer(newUpper, NORMAL)])[oldSlot := LinePointer(newSlot, REDIRECT)];
      header := header.(lower := newLower, upper := newUpper);
      return Some(newSlot);
    }

    /** `compact`. */
    method Compact()
      requires StoredBytes(View(), |linePointers|) <= PAGE_SIZE
      modifies this
      ensures View() == HeapPageOps.Compact(old(View()))
    {
      hide StoredBytes;
      ghost var p := View();
      var n := |linePointers|;
      var livePointers: seq<LinePointer> := [];
      var liveTuples: seq<Bytes> := [];
      var total := 0;
      StoredBytesNil(p);
      for i := 0 to n
        invariant View() == p
        invariant livePointers == LivePointers(p, i) && liveTuples == LiveTuples(p, i)
      {
        if linePointers[i].flags != DEAD {
          livePointers := livePointers + [linePointers[i]];
          liveTuples := liveTuples + [if i < |tuples| then tuples[i] else []];
        }
      }
      linePointers, tuples := livePointers, liveTuples;
      ghost var q := Page(p.header, livePointers, liveTuples);
      LiveBytes(p, n);
      StoredBytesNil(q);
      for i := 0 to |linePointers|
        invariant linePointers == livePointers && tuples == liveTuples && header == p.header
        invariant total == StoredBytes(q, i)
      {
        StoredBytesSnoc(q, i);
        if linePointers[i].flags == NORMAL && i < |tuples| {
          total := total + |tuples[i]|;
        }
      }
      header := header.(lower := HEADER_SIZE + POINTER_SIZE * |linePointers|, upper := PAGE_SIZE - total);
    }

    /** `follow_chain`. */
    method FollowChain(start: nat) returns (slot: Option<nat>)
      ensures slot == HotChains.FollowChain(View(), start)
    {
      var current: nat, visited: nat := start, 0;
      while true
        invariant visited <= |linePointers|
        invariant HotChains.FollowChain(View(), start) == Follow(View(), current, visited)
        decreases |linePointers| - visited
      {
        if current >= |linePointers| {
          return None;
        }
        var lp := linePointers[current];
        if lp.flags == NORMAL {
          return Some(current);
        }
        if lp.flags != REDIRECT {
          return None;
        }
        current := lp.offset;
        visited := visited + 1;
        if visited > |linePointers| {
          return None;
        }
      }
      assert false;
    }
  }

  /** The backward scan of `deserialize` for the end of one tuple. */
  method ReadTuple(data: Bytes, pointers: seq<LinePointer>, i: nat, special: nat) returns (t: Bytes)
    requires i < |pointers| && |data| >= PAGE_SIZE
    ensures t == TupleAt(data, pointers, i, special)
  {
    t := [];
    if pointers[i].flags == NORMAL {
      var end, j := special, i;
      while j > 0
        invariant j <= i && end == special
        invariant TupleEnd(pointers, i, special) == TupleEnd(pointers, j, special)
      {
        j := j - 1;
        if pointers[j].flags == NORMAL {
          end := pointers[j].offset;
          break;
        }
      }
      assert end == TupleEnd(pointers, i, special);
      if pointers[i].offset < end && end <= PAGE_SIZE {
        t := data[pointers[i].offset..end];
      }
    }
  }

  lemma TupleAreaNil(p: Page)
    ensures TupleStart(p, 0) == PAGE_SIZE && TupleArea(p, 0) == []
  {}

  lemma StoredBytesNil(p: Page)
    ensures StoredBytes(p, 0) == 0
  {}

  lemma TupleAreaSnoc(p: Page, i: nat)
    requires i < |p.pointers|
    ensures TupleArea(p, i + 1) == (if Stored(p, i) then p.tuples[i] else []) + TupleArea(p, i)
    ensures TupleStart(p, i + 1) == TupleStart(p, i) - if Stored(p, i) then |p.tuples[i]| else 0
  {}

  lemma FirstDeadUnique(pointers: seq<LinePointer>, i: nat)
    requires i <= |pointers| && (i < |pointers| ==> pointers[i].flags == DEAD)
    requires forall k :: 0 <= k < i ==> pointers[k].flags != DEAD
    ensures i == FirstDead(pointers)
  {
    var d := FirstDead(pointers);
    assert !(d < i) && !(i < d);
  }

  /** The header and the line pointers, written in front of the free space. */
  method WriteFront(ghost p: Page, page: array<byte>, h: Header, pointers: seq<LinePointer>, tupleOffset: nat)
    requires Fits(p) && page.Length == PAGE_SIZE && h == WrittenHeader(p) && pointers == WrittenPointers(p)
    requires tupleOffset == TupleStart(p, |p.pointers|) && page[tupleOffset..] == TupleArea(p, |p.pointers|)
    requires forall k :: 0 <= k < tupleOffset ==> page[k] == 0
    modifies page
    ensures page[..] == Encode(p)
  {
    hide EncodeHeader, StoredBytes, TupleArea, PointerBytes, WrittenPointer;
    ghost var area := page[tupleOffset..];
    CopyInto(page, 0, EncodeHeader(h));
    assert page[..HEADER_SIZE] == EncodeHeader(h) && page[tupleOffset..] == area;
    WritePointers(p, page, pointers, tupleOffset);
    var offset := HEADER_SIZE + POINTER_SIZE * |pointers|;
    assert page[offset..tupleOffset] == Zeros(tupleOffset - offset);
    assert page[..] == page[..HEADER_SIZE] + page[HEADER_SIZE..offset] + page[offset..tupleOffset] + page[tupleOffset..];
  }

  method WritePointers(ghost p: Page, page: array<byte>, pointers: seq<LinePointer>, ghost tupleOffset: nat)
    requires Fits(p) && page.Length == PAGE_SIZE && pointers == WrittenPointers(p)
    requires tupleOffset == TupleStart(p, |p.pointers|)
    requires forall k :: HEADER_SIZE <= k < tupleOffset ==> page[k] == 0
    modifies page
    ensures page[..HEADER_SIZE] == old(page[..HEADER_SIZE]) && page[tupleOffset..] == old(page[tupleOffset..])
    ensures StoredBytes(p, |p.pointers|) <= PAGE_SIZE
    ensures page[HEADER_SIZE..HEADER_SIZE + POINTER_SIZE * |pointers|] == PointerBytes(p, |p.pointers|)
    ensures forall k :: HEADER_SIZE + POINTER_SIZE * |pointers| <= k < tupleOffset ==> page[k] == 0
  {
    hide StoredBytes, PointerBytes, WrittenPointer, EncodePointer;
    PointerBytesNil(p);
    var offset := HEADER_SIZE;
    for i := 0 to |pointers|
      invariant offset == HEADER_SIZE + POINTER_SIZE * i
      invariant StoredBytes(p, i) <= PAGE_SIZE && page[HEADER_SIZE..offset] == PointerBytes(p, i)
      invariant forall k :: offset <= k < tupleOffset ==> page[k] == 0
      invariant page[..HEADER_SIZE] == old(page[..HEADER_SIZE]) && page[tupleOffset..] == old(page[tupleOffset..])
    {
      ghost var done := page[HEADER_SIZE..offset];
      PointerBytesSnoc(p, i);
      CopyInto(page, offset, EncodePointer(pointers[i]));
      assert page[HEADER_SIZE..offset] == done;
      assert page[HEADER_SIZE..offset + POINTER_SIZE] == page[HEADER_SIZE..offset] + page[offset..offset + POINTER_SIZE];
      offset := offset + POINTER_SIZE;
    }
  }

  lemma PointerBytesNil(p: Page)
    ensures StoredBytes(p, 0) == 0 && PointerBytes(p, 0) == []
  {}

  lemma PointerBytesSnoc(p: Page, i: nat)
    requires Fits(p) && i < |p.pointers|
    ensures StoredBytes(p, i + 1) <= PAGE_SIZE && StoredBytes(p, i) <= PAGE_SIZE
    ensures PointerBytes(p, i + 1) == PointerBytes(p, i) + EncodePointer(WrittenPointers(p)[i])
  {
    StoredBytesMonotone(p, i + 1, |p.pointers|);
    StoredBytesMonotone(p, i, |p.pointers|);
  }
}
