/** VACUUM (src/executor/heap.rs): dead tuples leave the pages and no snapshot sees a difference. */
module Vacuums {
  import opened Wrappers
  import opened ByteCodec
  import opened HeapPages
  import opened HeapPageCodec
  import opened HeapPageOps
  import opened Visibility
  import opened Selections

  /** `bincode::deserialize` for tuples; the empty slice is not a tuple. */
  type TupleCodec = Bytes -> Option<HeapTuple>

  type Storage = map<nat, Bytes>

  // ---- scanning -------------------------------------------------------------

  function VisibleOne(data: Bytes, decode: TupleCodec, s: Snapshot): seq<HeapTuple> {
    match decode(data)
    case Some(t) => if IsVisible(t, s) then [t] else []
    case None => []
  }

  function VisibleTuples(tuples: seq<Bytes>, decode: TupleCodec, s: Snapshot): seq<HeapTuple> {
    if tuples == [] then []
    else VisibleTuples(tuples[..|tuples| - 1], decode, s) + VisibleOne(tuples[|tuples| - 1], decode, s)
  }

  /** The tuples a scan of one page returns, in slot order. */
  function ScanPage(data: Bytes, decode: TupleCodec, s: Snapshot): seq<HeapTuple>
    requires Decodable(data)
  {
    VisibleTuples(Decode(data).tuples, decode, s)
  }

  ghost predicate Readable(storage: Storage, pages: seq<nat>) {
    forall i :: 0 <= i < |pages| ==> pages[i] in storage && Serialized(storage[pages[i]])
  }

  ghost predicate Serialized(data: Bytes) {
    exists p :: Valid(p) && Fits(p) && data == Encode(p)
  }

  lemma SerializedDecodes(data: Bytes)
    requires Serialized(data)
    ensures Decodable(data) && Valid(Decode(data)) && OnlyNormalStored(Decode(data))
  {
    hide Encode, Decode, Decodable;
    var p :| Valid(p) && Fits(p) && data == Encode(p);
    DecodeEncode(p);
    RereadIsValid(p);
    assert OnlyNormalStored(Reread(p));
  }

  function ScanRelation(storage: Storage, pages: seq<nat>, decode: TupleCodec, s: Snapshot): seq<HeapTuple>
    requires forall i :: 0 <= i < |pages| ==> pages[i] in storage && Decodable(storage[pages[i]])
  {
    if pages == [] then []
    else
      var n := |pages| - 1;
      ScanRelation(storage, pages[..n], decode, s) + ScanPage(storage[pages[n]], decode, s)
  }

  // ---- what a scan returns --------------------------------------------------

  /** The slot holds a tuple that the snapshot sees. */
  predicate Shown(tuples: seq<Bytes>, j: nat, decode: TupleCodec, s: Snapshot) {
    j < |tuples| && decode(tuples[j]).Some? && IsVisible(decode(tuples[j]).value, s)
  }

  /** One row for each slot shown, in slot order. */
  lemma {:induction false} VisibleSlots(tuples: seq<Bytes>, decode: TupleCodec, s: Snapshot) returns (js: seq<nat>)
    ensures Increasing(js) && |js| == |VisibleTuples(tuples, decode, s)|
    ensures forall j: nat :: j in js <==> Shown(tuples, j, decode, s)
    ensures forall k :: 0 <= k < |js| ==>
      Shown(tuples, js[k], decode, s) && VisibleTuples(tuples, decode, s)[k] == decode(tuples[js[k]]).value
  {
    hide IsVisible;
    if tuples == [] {
      js := [];
    } else {
      var n := |tuples| - 1;
      var before := VisibleSlots(tuples[..n], decode, s);
      js := before + if Shown(tuples, n, decode, s) then [n] else [];
      forall j: nat
        ensures j in js <==> Shown(tuples, j, decode, s)
      {
        assert j < n ==> (Shown(tuples[..n], j, decode, s) <==> Shown(tuples, j, decode, s));
      }
      forall k | 0 <= k < |before|
        ensures before[k] < n
      {
        assert Shown(tuples[..n], before[k], decode, s);
      }
    }
  }

  ghost predicate Before(p: (nat, nat), q: (nat, nat)) {
    p.0 < q.0 || (p.0 == q.0 && p.1 < q.1)
  }

  /** The stored tuples of each page, in slot order. */
  function Slots(storage: Storage, pages: seq<nat>): seq<seq<Bytes>>
    requires forall i :: 0 <= i < |pages| ==> pages[i] in storage && Decodable(storage[pages[i]])
  {
    seq(|pages|, i requires 0 <= i < |pages| => Decode(storage[pages[i]]).tuples)
  }

  /** The position of a page in the list and a slot of it, that holds a tuple the snapshot sees. */
  predicate ShownAt(slots: seq<seq<Bytes>>, p: (nat, nat), decode: TupleCodec, s: Snapshot) {
    p.0 < |slots| && Shown(slots[p.0], p.1, decode, s)
  }

  /** The rows are the tuples at the positions shown: every such position once, by page and then by slot,
      and no other. */
  ghost predicate ScannedAt(rows: seq<HeapTuple>, ps: seq<(nat, nat)>, slots: seq<seq<Bytes>>, decode: TupleCodec, s: Snapshot) {
    && |rows| == |ps|
    && (forall a, b :: 0 <= a < b < |ps| ==> Before(ps[a], ps[b]))
    && (forall p: (nat, nat) :: p in ps <==> ShownAt(slots, p, decode, s))
    && forall k :: 0 <= k < |ps| ==> ShownAt(slots, ps[k], decode, s) && rows[k] == decode(slots[ps[k].0][ps[k].1]).value
  }

  lemma {:induction false} ScanPositions(storage: Storage, pages: seq<nat>, decode: TupleCodec, s: Snapshot) returns (ps: seq<(nat, nat)>)
    requires forall i :: 0 <= i < |pages| ==> pages[i] in storage && Decodable(storage[pages[i]])
    ensures ScannedAt(ScanRelation(storage, pages, decode, s), ps, Slots(storage, pages), decode, s)
  {
    hide Decodable, Decode, Shown, ScannedAt;
    if pages == [] {
      ps := [];
      NothingScanned(decode, s);
      assert Slots(storage, pages) == [];
    } else {
      var n := |pages| - 1;
      var before := ScanPositions(storage, pages[..n], decode, s);
      var last := Decode(storage[pages[n]]).tuples;
      var js := VisibleSlots(last, decode, s);
      ps := before + AtPage(n, js);
      PageAdded(ScanRelation(storage, pages[..n], decode, s), before, Slots(storage, pages[..n]), last, js,
                VisibleTuples(last, decode, s), decode, s);
      assert Slots(storage, pages) == Slots(storage, pages[..n]) + [last];
    }
  }

  /** A page's slots as positions. */
  function AtPage(page: nat, slots: seq<nat>): seq<(nat, nat)> {
    seq(|slots|, k requires 0 <= k < |slots| => (page, slots[k]))
  }

  lemma NothingScanned(decode: TupleCodec, s: Snapshot)
    ensures ScannedAt([], [], [], decode, s)
  {}

  lemma PageAdded(rows: seq<HeapTuple>, ps: seq<(nat, nat)>, slots: seq<seq<Bytes>>, last: seq<Bytes>, js: seq<nat>,
                  more: seq<HeapTuple>, decode: TupleCodec, s: Snapshot)
    requires ScannedAt(rows, ps, slots, decode, s)
    requires Increasing(js) && |js| == |more| && forall j: nat :: j in js <==> Shown(last, j, decode, s)
    requires forall k :: 0 <= k < |js| ==> Shown(last, js[k], decode, s) && more[k] == decode(last[js[k]]).value
    ensures ScannedAt(rows + more, ps + AtPage(|slots|, js), slots + [last], decode, s)
  {
    hide IsVisible;
    var here := AtPage(|slots|, js);
    var (all, table) := (ps + here, slots + [last]);
    assert forall q: (nat, nat) ::
      (ShownAt(table, q, decode, s) <==> ShownAt(slots, q, decode, s) || (q.0 == |slots| && Shown(last, q.1, decode, s)));
    hide Shown, ShownAt;
    forall q: (nat, nat)
      ensures q in here <==> q.0 == |slots| && q.1 in js
    {
      if q.0 == |slots| && q.1 in js {
        var k :| 0 <= k < |js| && js[k] == q.1;
        assert here[k] == q;
      }
    }
    forall k | 0 <= k < |ps|
      ensures ps[k].0 < |slots|
    {
      ShownInside(slots, ps[k], decode, s);
    }
  }

  lemma ShownInside(slots: seq<seq<Bytes>>, p: (nat, nat), decode: TupleCodec, s: Snapshot)
    requires ShownAt(slots, p, decode, s)
    ensures p.0 < |slots| && p.1 < |slots[p.0]| && decode(slots[p.0][p.1]).Some?
  {}

  // ---- vacuuming one page ---------------------------------------------------

  /** Deleted by a transaction older than every snapshot still in use. */
  predicate Removable(data: Bytes, decode: TupleCodec, oldest: nat) {
    var t := decode(data);
    t.Some? && t.value.xmax != 0 && t.value.xmax < oldest
  }

  predicate Reclaimed(p: Page, i: nat, decode: TupleCodec, oldest: nat)
    requires i < |p.pointers|
  {
    p.pointers[i].flags == NORMAL && i < |p.tuples| && Removable(p.tuples[i], decode, oldest)
  }

  function MarkDead(p: Page, decode: TupleCodec, oldest: nat): Page {
    p.(pointers := seq(|p.pointers|, i requires 0 <= i < |p.pointers| =>
      if Reclaimed(p, i, decode, oldest) then p.pointers[i].(flags := DEAD) else p.pointers[i]))
  }

  function CountReclaimed(p: Page, n: nat, decode: TupleCodec, oldest: nat): nat
    requires n <= |p.pointers|
  {
    if n == 0 then 0
    else CountReclaimed(p, n - 1, decode, oldest) + if Reclaimed(p, n - 1, decode, oldest) then 1 else 0
  }

  lemma MarkDeadKeepsValid(p: Page, decode: TupleCodec, oldest: nat)
    requires Valid(p)
    ensures Valid(MarkDead(p, decode, oldest))
  {
    hide StoredBytes, Removable;
    StoredBytesFewer(p, MarkDead(p, decode, oldest), |p.pointers|);
  }

  /** The page VACUUM writes back: unchanged if nothing was reclaimed. */
  function VacuumPage(p: Page, decode: TupleCodec, oldest: nat): Page
    requires Valid(p)
  {
    if CountReclaimed(p, |p.pointers|, decode, oldest) == 0 then p
    else
      MarkDeadKeepsValid(p, decode, oldest);
      Compact(MarkDead(p, decode, oldest))
  }

  lemma VacuumPageKeepsValid(p: Page, decode: TupleCodec, oldest: nat)
    requires Valid(p)
    ensures Valid(VacuumPage(p, decode, oldest)) && Fits(VacuumPage(p, decode, oldest))
  {
    hide StoredBytes, MarkDead, CountReclaimed, Compact;
    MarkDeadKeepsValid(p, decode, oldest);
    CompactKeepsValid(MarkDead(p, decode, oldest));
  }

  /** Every snapshot still in use is at least as new as `oldest`, and so are those it finds running. */
  predicate Admissible(s: Snapshot, oldest: nat) {
    s.xid >= oldest && forall x :: x in s.active ==> x >= oldest
  }

  /** What VACUUM removes, no admissible snapshot sees. */
  lemma RemovableIsInvisible(data: Bytes, decode: TupleCodec, oldest: nat, s: Snapshot)
    requires Removable(data, decode, oldest) && Admissible(s, oldest) && oldest <= U32
    ensures VisibleOne(data, decode, s) == []
  {}

  /** The horizon is exact: as long as a snapshot sees some writer at all, the tuples VACUUM may
      remove are invisible to it if and only if it takes every deleter below the horizon as past. */
  lemma HorizonIsExact(s: Snapshot, oldest: nat, writer: nat)
    requires oldest <= U32 && writer != 0 && Past(writer % U32, s)
    ensures (forall t: HeapTuple :: t.xmax != 0 && t.xmax < oldest ==> !IsVisible(t, s))
       <==> (forall x :: 0 < x < oldest ==> Past(x, s))
  {
    if forall t: HeapTuple :: t.xmax != 0 && t.xmax < oldest ==> !IsVisible(t, s) {
      forall x | 0 < x < oldest
        ensures Past(x, s)
      {
        assert !IsVisible(HeapTuple([], [], writer, x, 0, 0, 0), s);
      }
    }
  }

  /** Slots that are not normal store nothing, as in any page read back from storage. */
  ghost predicate OnlyNormalStored(p: Page) {
    |p.tuples| == |p.pointers| && forall i :: 0 <= i < |p.pointers| && p.pointers[i].flags != NORMAL ==> p.tuples[i] == []
  }

  lemma VisibleSnoc(tuples: seq<Bytes>, x: Bytes, decode: TupleCodec, s: Snapshot)
    ensures VisibleTuples(tuples + [x], decode, s) == VisibleTuples(tuples, decode, s) + VisibleOne(x, decode, s)
  {
    assert (tuples + [x])[..|tuples|] == tuples;
  }

  /** A slot that compaction drops showed nothing. */
  lemma DroppedIsInvisible(p: Page, i: nat, decode: TupleCodec, oldest: nat, s: Snapshot)
    requires OnlyNormalStored(p) && i < |p.pointers| && decode([]).None?
    requires Admissible(s, oldest) && oldest <= U32
    requires MarkDead(p, decode, oldest).pointers[i].flags == DEAD
    ensures VisibleOne(p.tuples[i], decode, s) == []
  {
    hide Removable, VisibleOne, Admissible;
    NothingVisible(decode, s);
    if Reclaimed(p, i, decode, oldest) {
      RemovableIsInvisible(p.tuples[i], decode, oldest, s);
    }
  }

  /** Dropping the marked slots drops nothing a snapshot sees. */
  lemma {:induction false} LiveTuplesVisible(p: Page, n: nat, decode: TupleCodec, oldest: nat, s: Snapshot)
    requires OnlyNormalStored(p) && n <= |p.pointers| && decode([]).None?
    requires Admissible(s, oldest) && oldest <= U32
    ensures VisibleTuples(LiveTuples(MarkDead(p, decode, oldest), n), decode, s)
         == VisibleTuples(p.tuples[..n], decode, s)
  {
    hide VisibleOne, Admissible, MarkDead;
    MarkDeadLength(p, decode, oldest);
    var m := MarkDead(p, decode, oldest);
    if n > 0 {
      LiveTuplesVisible(p, n - 1, decode, oldest, s);
      assert p.tuples[..n] == p.tuples[..n - 1] + [p.tuples[n - 1]];
      VisibleSnoc(p.tuples[..n - 1], p.tuples[n - 1], decode, s);
      hide VisibleTuples;
      if m.pointers[n - 1].flags == DEAD {
        DroppedIsInvisible(p, n - 1, decode, oldest, s);
        assert LiveTuples(m, n) == LiveTuples(m, n - 1);
      } else {
        assert LiveTuples(m, n) == LiveTuples(m, n - 1) + [p.tuples[n - 1]];
        VisibleSnoc(LiveTuples(m, n - 1), p.tuples[n - 1], decode, s);
      }
    }
  }

  lemma NothingVisible(decode: TupleCodec, s: Snapshot)
    requires decode([]).None?
    ensures VisibleOne([], decode, s) == []
  {}

  /** A compacted page has lost no stored bytes by being written out and read back. */
  lemma {:induction false} LiveSlotsOnlyNormalStored(p: Page, decode: TupleCodec, oldest: nat, n: nat)
    requires OnlyNormalStored(p) && n <= |p.pointers|
    ensures OnlyNormalStored(LivePrefix(MarkDead(p, decode, oldest), n))
  {
    hide Removable;
    if n > 0 {
      LiveSlotsOnlyNormalStored(p, decode, oldest, n - 1);
    }
  }

  /** One page, vacuumed, serialized and read back, shows every admissible snapshot the same tuples. */
  lemma VacuumPageInvisible(p: Page, decode: TupleCodec, oldest: nat, s: Snapshot)
    requires Valid(p) && OnlyNormalStored(p) && decode([]).None?
    requires Admissible(s, oldest) && oldest <= U32
    ensures var q := VacuumPage(p, decode, oldest);
      && Valid(q) && Fits(q) && OnlyNormalStored(q)
      && VisibleTuples(Reread(q).tuples, decode, s) == VisibleTuples(p.tuples, decode, s)
  {
    hide StoredBytes, MarkDead, LiveTuples, LivePointers, VisibleTuples, CountReclaimed, Admissible;
    var n, m, q := |p.pointers|, MarkDead(p, decode, oldest), VacuumPage(p, decode, oldest);
    VacuumPageKeepsValid(p, decode, oldest);
    if CountReclaimed(p, n, decode, oldest) == 0 {
      assert Reread(p).tuples == p.tuples;
    } else {
      LiveTuplesVisible(p, n, decode, oldest, s);
      LiveSlotsOnlyNormalStored(p, decode, oldest, n);
      MarkDeadKeepsValid(p, decode, oldest);
      MarkDeadLength(p, decode, oldest);
      assert p.tuples[..n] == p.tuples;
      assert Reread(q).tuples == q.tuples;
    }
  }

  lemma MarkDeadLength(p: Page, decode: TupleCodec, oldest: nat)
    ensures |MarkDead(p, decode, oldest).pointers| == |p.pointers|
    ensures MarkDead(p, decode, oldest).tuples == p.tuples
  {}

  // ---- vacuuming a relation -------------------------------------------------

  /** The bytes stored for a page after VACUUM visited it. */
  function VacuumBytes(data: Bytes, decode: TupleCodec, oldest: nat): Bytes
    requires Decodable(data) && Valid(Decode(data))
  {
    VacuumPageKeepsValid(Decode(data), decode, oldest);
    if CountReclaimed(Decode(data), |Decode(data).pointers|, decode, oldest) == 0 then data
    else Encode(VacuumPage(Decode(data), decode, oldest))
  }

  /** A vacuumed page stays in serialized form and scans as before. */
  lemma VacuumBytesInvisible(data: Bytes, decode: TupleCodec, oldest: nat, s: Snapshot)
    requires Serialized(data) && decode([]).None? && Admissible(s, oldest) && oldest <= U32
    ensures Decodable(data) && Valid(Decode(data))
    ensures var data' := VacuumBytes(data, decode, oldest);
      Serialized(data') && Decodable(data') && ScanPage(data', decode, s) == ScanPage(data, decode, s)
  {
    hide Encode, Decode, Decodable, VisibleTuples, CountReclaimed, VacuumPage, Admissible;
    SerializedDecodes(data);
    var p := Decode(data);
    VacuumPageInvisible(p, decode, oldest, s);
    if CountReclaimed(p, |p.pointers|, decode, oldest) != 0 {
      DecodeEncode(VacuumPage(p, decode, oldest));
    }
  }

  /** VACUUM also leaves nothing behind that it should have taken. */
  ghost predicate Clean(p: Page, decode: TupleCodec, oldest: nat) {
    forall i :: 0 <= i < |p.pointers| ==> !Reclaimed(p, i, decode, oldest)
  }

  lemma {:induction false} CountZeroIsClean(p: Page, n: nat, decode: TupleCodec, oldest: nat)
    requires n <= |p.pointers|
    ensures CountReclaimed(p, n, decode, oldest) == 0 <==> forall i :: 0 <= i < n ==> !Reclaimed(p, i, decode, oldest)
  {
    if n > 0 {
      CountZeroIsClean(p, n - 1, decode, oldest);
    }
  }

  lemma {:induction false} LiveSlotsAreClean(p: Page, n: nat, decode: TupleCodec, oldest: nat)
    requires n <= |p.pointers| && |p.tuples| == |p.pointers|
    ensures Clean(LivePrefix(MarkDead(p, decode, oldest), n), decode, oldest)
    ensures |LiveTuples(MarkDead(p, decode, oldest), n)| == |LivePointers(MarkDead(p, decode, oldest), n)|
  {
    hide Removable;
    var m := MarkDead(p, decode, oldest);
    if n > 0 {
      LiveSlotsAreClean(p, n - 1, decode, oldest);
      var before, after := LivePrefix(m, n - 1), LivePrefix(m, n);
      forall i | 0 <= i < |after.pointers|
        ensures !Reclaimed(after, i, decode, oldest)
      {
        if i < |before.pointers| {
          assert after.pointers[i] == before.pointers[i] && after.tuples[i] == before.tuples[i];
          assert !Reclaimed(before, i, decode, oldest);
        } else {
          assert after.pointers[i] == m.pointers[n - 1] && after.tuples[i] == p.tuples[n - 1];
        }
      }
    }
  }

  lemma CleanSameSlots(p: Page, q: Page, decode: TupleCodec, oldest: nat)
    requires Clean(p, decode, oldest) && q.pointers == p.pointers && q.tuples == p.tuples
    ensures Clean(q, decode, oldest)
  {
    hide Removable;
    forall i | 0 <= i < |q.pointers|
      ensures !Reclaimed(q, i, decode, oldest)
    {
      assert !Reclaimed(p, i, decode, oldest);
    }
  }

  lemma VacuumLeavesClean(p: Page, decode: TupleCodec, oldest: nat)
    requires Valid(p)
    ensures Clean(VacuumPage(p, decode, oldest), decode, oldest)
  {
    hide Removable, StoredBytes, MarkDead, LiveTuples, LivePointers;
    var n, m := |p.pointers|, MarkDead(p, decode, oldest);
    CountZeroIsClean(p, n, decode, oldest);
    MarkDeadKeepsValid(p, decode, oldest);
    MarkDeadLength(p, decode, oldest);
    if CountReclaimed(p, n, decode, oldest) != 0 {
      LiveSlotsAreClean(p, n, decode, oldest);
      CleanSameSlots(LivePrefix(m, n), Compact(m), decode, oldest);
    }
  }

  datatype Vacuumed = Vacuumed(storage: Storage, reclaimed: nat)

  /** One page of the relation, read, vacuumed and written back. */
  ghost function VacuumOne(v: Vacuumed, page: nat, decode: TupleCodec, oldest: nat): (v': Vacuumed)
    requires page in v.storage && Serialized(v.storage[page]) && decode([]).None? && oldest <= U32
    ensures v'.storage.Keys == v.storage.Keys && Serialized(v'.storage[page])
    ensures forall k :: k in v.storage && k != page ==> v'.storage[k] == v.storage[k]
  {
    var data := v.storage[page];
    VacuumBytesInvisible(data, decode, oldest, Snapshot(oldest, []));
    Vacuumed(v.storage[page := VacuumBytes(data, decode, oldest)],
             v.reclaimed + CountReclaimed(Decode(data), |Decode(data).pointers|, decode, oldest))
  }

  /** The page loop of `vacuum_relation`. */
  ghost function VacuumRelation(storage: Storage, pages: seq<nat>, decode: TupleCodec, oldest: nat): (v: Vacuumed)
    requires Readable(storage, pages) && decode([]).None? && oldest <= U32
    ensures v.storage.Keys == storage.Keys
    ensures forall k :: k in storage && Serialized(storage[k]) ==> Serialized(v.storage[k])
    ensures forall k :: k in storage && k !in pages ==> v.storage[k] == storage[k]
  {
    hide Serialized;
    if pages == [] then Vacuumed(storage, 0)
    else
      var n := |pages| - 1;
      VacuumOne(VacuumRelation(storage, pages[..n], decode, oldest), pages[n], decode, oldest)
  }

  /** Each page scans as it did before, under every admissible snapshot. */
  lemma {:induction false} VacuumKeepsPages(storage: Storage, pages: seq<nat>, decode: TupleCodec, oldest: nat, s: Snapshot, k: nat)
    requires Readable(storage, pages) && decode([]).None? && Admissible(s, oldest) && oldest <= U32
    requires k in storage && Serialized(storage[k])
    ensures var v := VacuumRelation(storage, pages, decode, oldest);
      && Decodable(storage[k]) && Serialized(v.storage[k]) && Decodable(v.storage[k])
      && ScanPage(v.storage[k], decode, s) == ScanPage(storage[k], decode, s)
  {
    hide ScanPage, VacuumBytes, Serialized, Decodable, Admissible, CountReclaimed, Decode;
    SerializedDecodes(storage[k]);
    if pages != [] {
      var n := |pages| - 1;
      VacuumKeepsPages(storage, pages[..n], decode, oldest, s, k);
      var before := VacuumRelation(storage, pages[..n], decode, oldest);
      VacuumBytesInvisible(before.storage[pages[n]], decode, oldest, s);
    }
  }

  /** VACUUM is invisible: every admissible snapshot scans the same tuples, in the same order,
      before and after. */
  lemma {:induction false} VacuumInvisible(storage: Storage, pages: seq<nat>, scanned: seq<nat>, decode: TupleCodec,
                                           oldest: nat, s: Snapshot)
    requires Readable(storage, pages) && Readable(storage, scanned) && decode([]).None?
    requires Admissible(s, oldest) && oldest <= U32
    ensures var v := VacuumRelation(storage, pages, decode, oldest);
      && (forall i :: 0 <= i < |scanned| ==>
          scanned[i] in v.storage && Decodable(storage[scanned[i]]) && Decodable(v.storage[scanned[i]]))
      && ScanRelation(v.storage, scanned, decode, s) == ScanRelation(storage, scanned, decode, s)
  {
    hide ScanPage, VacuumRelation, Serialized, Decodable, Admissible;
    forall i | 0 <= i < |scanned|
      ensures var v := VacuumRelation(storage, pages, decode, oldest);
        scanned[i] in v.storage && Decodable(storage[scanned[i]]) && Decodable(v.storage[scanned[i]])
    {
      VacuumKeepsPages(storage, pages, decode, oldest, s, scanned[i]);
    }
    if scanned != [] {
      var n := |scanned| - 1;
      VacuumInvisible(storage, pages, scanned[..n], decode, oldest, s);
      VacuumKeepsPages(storage, pages, decode, oldest, s, scanned[n]);
    }
  }
}
