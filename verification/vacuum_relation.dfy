/** The loops of `vacuum_relation` and of the heap scan (src/executor/heap.rs) over stored pages. */
module VacuumLoops {
  import opened ByteCodec
  import opened PageStores
  import opened HeapPages
  import opened HeapPageOps
  import opened HeapPageObjects
  import opened Visibility
  import opened Vacuums
  import opened Selections

  /** Marks one page's removable tuples dead, in place. */
  method MarkPage(heap: HeapPage, decode: TupleCodec, oldest: nat) returns (reclaimed: nat)
    requires |heap.tuples| == |heap.linePointers|
    modifies heap
    ensures heap.View() == MarkDead(old(heap.View()), decode, oldest)
    ensures reclaimed == CountReclaimed(old(heap.View()), |old(heap.View()).pointers|, decode, oldest)
  {
    hide Removable;
    ghost var p := heap.View();
    reclaimed := 0;
    for i := 0 to |heap.linePointers|
      invariant |heap.linePointers| == |p.pointers| && heap.tuples == p.tuples && heap.header == p.header
      invariant forall k :: 0 <= k < i ==> heap.linePointers[k] == MarkDead(p, decode, oldest).pointers[k]
      invariant forall k :: i <= k < |p.pointers| ==> heap.linePointers[k] == p.pointers[k]
      invariant reclaimed == CountReclaimed(p, i, decode, oldest)
    {
      if heap.linePointers[i].flags == NORMAL && i < |heap.tuples| {
        if Removable(heap.tuples[i], decode, oldest) {
          heap.linePointers := heap.linePointers[i := heap.linePointers[i].(flags := DEAD)];
          reclaimed := reclaimed + 1;
        }
      }
    }
    assert heap.linePointers == MarkDead(p, decode, oldest).pointers;
  }

  /** One iteration of the page loop. */
  method VacuumStoredPage(store: PageStore, page: nat, decode: TupleCodec, oldest: nat) returns (reclaimed: nat)
    requires page in store.pages && Serialized(store.pages[page])
    modifies store
    ensures Decodable(old(store.pages[page])) && Valid(Decode(old(store.pages[page])))
    ensures store.pages == old(store.pages)[page := VacuumBytes(old(store.pages[page]), decode, oldest)]
    ensures reclaimed == CountReclaimed(Decode(old(store.pages[page])), |Decode(old(store.pages[page])).pointers|, decode, oldest)
  {
    hide Encode, Decode, Decodable, StoredBytes, MarkDead, CountReclaimed, Serialized, Compact;
    SerializedDecodes(store.pages[page]);
    var data := store.ReadPage(page);
    var heap := new HeapPage.Deserialize(data);
    ghost var p := Decode(data);
    reclaimed := MarkPage(heap, decode, oldest);
    if reclaimed > 0 {
      MarkDeadKeepsValid(p, decode, oldest);
      MarkDeadLength(p, decode, oldest);
      CompactKeepsValid(MarkDead(p, decode, oldest));
      heap.Compact();
      var bytes := heap.Serialize();
      store.WritePage(page, bytes[..]);
    } else {
      assert store.pages == store.pages[page := data];
    }
  }

  method VacuumStored(store: PageStore, pages: seq<nat>, decode: TupleCodec, oldest: nat) returns (reclaimed: nat)
    requires Readable(store.pages, pages) && decode([]).None? && oldest <= U32
    modifies store
    ensures store.pages == VacuumRelation(old(store.pages), pages, decode, oldest).storage
    ensures reclaimed == VacuumRelation(old(store.pages), pages, decode, oldest).reclaimed
  {
    hide Serialized, VacuumBytes, CountReclaimed, Decode, Decodable;
    reclaimed := 0;
    ghost var before := store.pages;
    for i := 0 to |pages|
      invariant store.pages == VacuumRelation(before, pages[..i], decode, oldest).storage
      invariant reclaimed == VacuumRelation(before, pages[..i], decode, oldest).reclaimed
    {
      assert pages[..i + 1][..i] == pages[..i];
      var n := VacuumStoredPage(store, pages[i], decode, oldest);
      reclaimed := reclaimed + n;
    }
    assert pages[..|pages|] == pages;
  }

  /** `heap_scan_with_optional_snapshot`: pages in order, slots in order, visible tuples only, each with
      its page number and slot. */
  method HeapScan(store: PageStore, pages: seq<nat>, decode: TupleCodec, s: Snapshot)
    returns (rows: seq<HeapTuple>, tids: seq<(nat, nat)>)
    requires forall i :: 0 <= i < |pages| ==> pages[i] in store.pages && Decodable(store.pages[pages[i]])
    ensures rows == ScanRelation(store.pages, pages, decode, s)
    ensures exists ps :: ScannedAt(rows, ps, Slots(store.pages, pages), decode, s) && TidsOf(tids, ps, pages)
  {
    hide Decodable, Decode, IsVisible, ScannedAt, TidsOf, ScanRelation, Slots, AtPage, VisibleSlotsAre, VisibleTuples;
    rows, tids := [], [];
    ghost var ps: seq<(nat, nat)> := [];
    ScanStart(store.pages, pages, decode, s);
    for i := 0 to |pages|
      invariant rows == ScanRelation(store.pages, pages[..i], decode, s)
      invariant ScannedAt(rows, ps, Slots(store.pages, pages[..i]), decode, s) && TidsOf(tids, ps, pages)
    {
      var data := store.ReadPage(pages[i]);
      var heap := new HeapPage.Deserialize(data);
      var visible, slots := ScanSlots(heap.tuples, decode, s);
      ScanStep(store.pages, pages, i, decode, s, rows, ps, tids, visible, slots);
      rows := rows + visible;
      tids := tids + AtPage(pages[i], slots);
      ps := ps + AtPage(i, slots);
    }
    assert pages[..|pages|] == pages;
  }

  /** These slots are the ones shown, and these their tuples. */
  ghost predicate VisibleSlotsAre(rows: seq<HeapTuple>, slots: seq<nat>, tuples: seq<Bytes>, decode: TupleCodec, s: Snapshot) {
    && Increasing(slots) && |slots| == |rows|
    && (forall j: nat :: j in slots <==> Shown(tuples, j, decode, s))
    && forall k :: 0 <= k < |slots| ==> Shown(tuples, slots[k], decode, s) && rows[k] == decode(tuples[slots[k]]).value
  }

  lemma ScanStart(storage: Storage, pages: seq<nat>, decode: TupleCodec, s: Snapshot)
    ensures ScanRelation(storage, pages[..0], decode, s) == []
    ensures ScannedAt([], [], Slots(storage, pages[..0]), decode, s) && TidsOf([], [], pages)
  {
    hide ScannedAt;
    NothingScanned(decode, s);
    assert Slots(storage, pages[..0]) == [];
  }

  lemma ScanStep(storage: Storage, pages: seq<nat>, i: nat, decode: TupleCodec, s: Snapshot, rows: seq<HeapTuple>,
                 ps: seq<(nat, nat)>, tids: seq<(nat, nat)>, visible: seq<HeapTuple>, slots: seq<nat>)
    requires i < |pages| && forall k :: 0 <= k < |pages| ==> pages[k] in storage && Decodable(storage[pages[k]])
    requires rows == ScanRelation(storage, pages[..i], decode, s)
    requires ScannedAt(rows, ps, Slots(storage, pages[..i]), decode, s) && TidsOf(tids, ps, pages)
    requires var tuples := Decode(storage[pages[i]]).tuples;
      visible == VisibleTuples(tuples, decode, s) && VisibleSlotsAre(visible, slots, tuples, decode, s)
    ensures rows + visible == ScanRelation(storage, pages[..i + 1], decode, s)
    ensures ScannedAt(rows + visible, ps + AtPage(i, slots), Slots(storage, pages[..i + 1]), decode, s)
    ensures TidsOf(tids + AtPage(pages[i], slots), ps + AtPage(i, slots), pages)
  {
    hide Decodable, Decode, IsVisible, ScannedAt, VisibleTuples;
    assert pages[..i + 1][..i] == pages[..i];
    var tuples := Decode(storage[pages[i]]).tuples;
    PageAdded(rows, ps, Slots(storage, pages[..i]), tuples, slots, visible, decode, s);
    assert Slots(storage, pages[..i + 1]) == Slots(storage, pages[..i]) + [tuples];
  }

  /** Each row's page number and slot. */
  ghost predicate TidsOf(tids: seq<(nat, nat)>, ps: seq<(nat, nat)>, pages: seq<nat>) {
    |tids| == |ps| && forall k :: 0 <= k < |ps| ==> ps[k].0 < |pages| && tids[k] == (pages[ps[k].0], ps[k].1)
  }

  method ScanSlots(tuples: seq<Bytes>, decode: TupleCodec, s: Snapshot) returns (rows: seq<HeapTuple>, slots: seq<nat>)
    ensures rows == VisibleTuples(tuples, decode, s)
    ensures VisibleSlotsAre(rows, slots, tuples, decode, s)
  {
    hide IsVisible;
    rows, slots := [], [];
    for i := 0 to |tuples|
      invariant rows == VisibleTuples(tuples[..i], decode, s)
      invariant Increasing(slots) && |slots| == |rows|
      invariant forall j: nat :: j in slots <==> j < i && Shown(tuples, j, decode, s)
      invariant forall k :: 0 <= k < |slots| ==> slots[k] < i && Shown(tuples, slots[k], decode, s)
      invariant forall k :: 0 <= k < |slots| ==> rows[k] == decode(tuples[slots[k]]).value
    {
      assert tuples[..i + 1][..i] == tuples[..i];
      var t := decode(tuples[i]);
      if t.Some? && IsVisible(t.value, s) {
        rows, slots := rows + [t.value], slots + [i];
      }
    }
    assert tuples[..|tuples|] == tuples;
  }

  /** Scanning, vacuuming and scanning again returns the same rows to every admissible snapshot. */
  method ScanVacuumScan(store: PageStore, pages: seq<nat>, decode: TupleCodec, oldest: nat, s: Snapshot)
    returns (before: seq<HeapTuple>, after: seq<HeapTuple>)
    requires Readable(store.pages, pages) && decode([]).None? && Admissible(s, oldest) && oldest <= U32
    modifies store
    ensures after == before
  {
    hide Serialized, Decodable, Admissible, ScanPage;
    VacuumInvisible(store.pages, pages, pages, decode, oldest, s);
    var tids;
    before, tids := HeapScan(store, pages, decode, s);
    var _ := VacuumStored(store, pages, decode, oldest);
    after, tids := HeapScan(store, pages, decode, s);
  }
}
