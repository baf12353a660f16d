/** A key that no page of the tree holds stays away, whatever else is inserted: trees of any shape and
    depth (src/btree/insert.rs). */
module BTreeLost {
  import opened Wrappers
  import opened Order
  import opened ByteCodec
  import opened PageStores
  import opened BTreePages
  import opened BTreeCodec
  import opened BTrees
  import opened BTreeRefinement
  import opened BTreeSplits

  // ---- pages read from storage -------------------------------------------------

  lemma {:induction false} FromLEBound(bs: Bytes)
    ensures FromLE(bs) < Pow256(|bs|)
  {
    if bs != [] {
      FromLEBound(bs[1..]);
    }
  }

  lemma FromLE2(bs: Bytes)
    requires |bs| == 2
    ensures FromLE(bs) < 0x1_0000
  {
    FromLEBound(bs);
    assert Pow256(1) == 256 && Pow256(2) == 0x1_0000;
  }

  lemma FromLE4(bs: Bytes)
    requires |bs| == 4
    ensures FromLE(bs) < U32
  {
    FromLEBound(bs);
    assert Pow256(1) == 256 && Pow256(2) == 0x1_0000 && Pow256(3) == 0x100_0000 && Pow256(4) == U32;
  }

  lemma {:induction false} DecodedEntries(data: Bytes, pos: nat, count: nat)
    ensures |DecodeEntries(data, pos, count)| <= count
    ensures forall i :: 0 <= i < |DecodeEntries(data, pos, count)| ==> EntryStorable(DecodeEntries(data, pos, count)[i])
    decreases count
  {
    hide FromLE;
    if count > 0 && pos + 10 <= |data| {
      var length := FromLE(data[pos..pos + 4]);
      if length != 0 && pos + 4 + length + 6 <= |data| {
        FromLE4(data[pos..pos + 4]);
        FromLE4(data[pos + 4 + length..pos + 8 + length]);
        FromLE2(data[pos + 8 + length..pos + 10 + length]);
        DecodedEntries(data, pos + 4 + length + 6, count - 1);
      }
    }
  }

  /** Whatever the bytes, a page read from them fits its widths. */
  lemma ReadIsStorable(pages: Pages, id: nat)
    ensures Storable(ReadTreePage(pages, id)) && ReadTreePage(pages, id).kind != Meta && ReadTreePage(pages, id).id == id
  {
    hide DecodeEntries, FromLE, EntryStorable;
    var data := PageBytes(pages, id);
    if |data| >= 16 {
      FromLE2(data[1..3]);
      FromLE2(data[3..5]);
      FromLE4(data[8..12]);
      FromLE4(data[12..16]);
      DecodedEntries(data, HEADER, FromLE(data[3..5]));
    }
  }

  // ---- pages written to storage ------------------------------------------------

  lemma LowTwoBytes(n: nat)
    ensures ToLE(n, 2) == ToLE(n % 0x1_0000, 2)
  {
    assert n % 0x1_0000 % 256 == n % 256 && n % 0x1_0000 / 256 % 256 == n / 256 % 256;
    assert ToLE(n, 2) == [(n % 256) as byte] + ToLE(n / 256, 1);
    assert ToLE(n / 256, 1) == [(n / 256 % 256) as byte] + ToLE(n / 256 / 256, 0);
    var k := n % 0x1_0000;
    assert ToLE(k, 2) == [(k % 256) as byte] + ToLE(k / 256, 1);
    assert ToLE(k / 256, 1) == [(k / 256 % 256) as byte] + ToLE(k / 256 / 256, 0);
  }

  lemma LevelIsCut(page: BTreePage, size: nat)
    requires size >= HEADER
    ensures EncodePage(page.(level := page.level % 0x1_0000), size) == EncodePage(page, size)
  {
    hide ToLE, EncodeEntries;
    LowTwoBytes(page.level);
  }

  /** Only the level may be too large for its width. */
  predicate FitsBelowLevel(page: BTreePage) {
    Storable(page.(level := 0)) && page.id < U32 && page.kind != Meta
  }

  /** The keys that come back are a prefix of those written. */
  lemma WrittenKeys(pages: Pages, page: BTreePage, size: nat)
    requires size >= HEADER && FitsBelowLevel(page)
    ensures var back := ReadTreePage(WriteTreePage(pages, page.id, page, size), page.id);
      && back.kind == page.kind && |back.keys| <= |page.keys|
      && forall i :: 0 <= i < |back.keys| ==> back.keys[i] == page.keys[i].(oid := 0)
  {
    hide EncodePage, DecodePage, FittingPrefix, EntryStorable;
    var cut := page.(level := page.level % 0x1_0000);
    LevelIsCut(page, size);
    PageRoundTrip(cut, size);
    FittingPrefixIsLongest(page.keys, HEADER, size);
  }

  // ---- the invariant ------------------------------------------------------------

  /** A leaf holds other keys; an inner page leads only to pages of the set. */
  ghost predicate Without(page: BTreePage, s: set<nat>, key: Bytes) {
    match page.kind
    case Leaf => forall i :: 0 <= i < |page.keys| ==> page.keys[i].key != key
    case Root => LeadsInto(page.keys, s)
    case Internal => LeadsInto(page.keys, s)
    case _ => false
  }

  ghost predicate LeadsInto(keys: seq<IndexTuple>, s: set<nat>) {
    forall i :: 0 <= i < |keys| ==> keys[i].page in s
  }

  /** The set is closed under going down, and none of its leaves holds the key. */
  ghost predicate Absent(pages: Pages, s: set<nat>, key: Bytes) {
    forall id :: id in s ==> id < U32 && Without(ReadTreePage(pages, id), s, key)
  }

  lemma WithoutMore(page: BTreePage, s: set<nat>, s': set<nat>, key: Bytes)
    requires Without(page, s, key) && s <= s'
    ensures Without(page, s', key)
  {}

  lemma WriteKeeps(pages: Pages, page: BTreePage, size: nat, s: set<nat>, key: Bytes)
    requires size >= HEADER && Absent(pages, s, key) && FitsBelowLevel(page) && Without(page, s + {page.id}, key)
    ensures Absent(WriteTreePage(pages, page.id, page, size), s + {page.id}, key)
  {
    hide ReadTreePage, WriteTreePage, FitsBelowLevel;
    assert page.id < U32 by {
      IdFits(page);
    }
    var (after, s') := (WriteTreePage(pages, page.id, page, size), s + {page.id});
    forall id | id in s'
      ensures id < U32 && Without(ReadTreePage(after, id), s', key)
    {
      if id == page.id {
        WrittenKeys(pages, page, size);
        var back := ReadTreePage(after, id);
        assert forall i :: 0 <= i < |back.keys| ==> back.keys[i].page == page.keys[i].page && back.keys[i].key == page.keys[i].key;
      } else {
        ReadOther(pages, page.id, page, size, id);
        WithoutMore(ReadTreePage(pages, id), s, s', key);
      }
    }
  }

  lemma IdFits(page: BTreePage)
    requires FitsBelowLevel(page)
    ensures page.id < U32
  {}

  /** The page numbers handed out between two calls. */
  function NewIds(ids: PageIds, from: nat, to: nat): set<nat> {
    set i | from <= i < to :: ids(i)
  }

  // ---- what is written into leaves and roots --------------------------------------

  lemma PlacedElements(keys: seq<IndexTuple>, t: IndexTuple, place: Place)
    ensures |Placed(keys, t, place)| == |keys| + 1
    ensures forall i :: 0 <= i <= |keys| ==> Placed(keys, t, place)[i] == t || Placed(keys, t, place)[i] in keys
  {
    hide LowerBound;
  }

  /** Keys that can be stored, other than the one missing. */
  ghost predicate OtherKeys(keys: seq<IndexTuple>, key: Bytes) {
    forall i :: 0 <= i < |keys| ==> EntryStorable(keys[i]) && keys[i].key != key
  }

  lemma PlacedOthers(keys: seq<IndexTuple>, t: IndexTuple, place: Place, key: Bytes)
    requires OtherKeys(keys, key) && EntryStorable(t) && t.key != key
    ensures OtherKeys(Placed(keys, t, place), key) && |Placed(keys, t, place)| == |keys| + 1
  {
    hide Placed, EntryStorable;
    PlacedElements(keys, t, place);
  }

  /** The halves of a leaf that is split hold what it held and the new tuple. */
  lemma SplitLeafOthers(page: BTreePage, t: IndexTuple, rightId: nat, place: Place, key: Bytes)
    requires OtherKeys(page.keys, key) && EntryStorable(t) && t.key != key
    ensures var h := SplitLeaf(page, t, rightId, place);
      && OtherKeys(h.left.keys, key) && OtherKeys(h.right.keys, key) && h.right.keys != []
      && |h.left.keys| <= |page.keys| / 2 + 2 && |h.right.keys| <= |page.keys| / 2 + 2
      && h.left == page.(keys := h.left.keys)
      && h.right == BTreePage(page.kind, rightId, page.level, h.right.keys, Some(page.id), None)
  {
    hide Placed, EntryStorable, Less;
    var at := |page.keys| / 2;
    PlacedOthers(page.keys[..at], t, place, key);
    PlacedOthers(page.keys[at..], t, place, key);
  }

  lemma RootOverFits(id: nat, level: nat, separator: IndexTuple, l: nat, r: nat, s: set<nat>, key: Bytes)
    requires EntryStorable(separator) && l < U32 && r < U32 && id < U32 && l in s && r in s
    ensures FitsBelowLevel(RootOver(id, level, separator, l, r)) && Without(RootOver(id, level, separator, l, r), s, key)
  {}

  lemma LeafFits(page: BTreePage, key: Bytes, s: set<nat>)
    requires page.kind == Leaf && OtherKeys(page.keys, key) && |page.keys| < 0x1_0000 && page.id < U32
    requires SiblingNumber(page.left) < U32 && SiblingNumber(page.right) < U32
    ensures FitsBelowLevel(page) && Without(page, s, key)
  {}

  lemma LeafKeeps(pages: Pages, page: BTreePage, t: IndexTuple, size: nat, ids: PageIds, used: nat, isRoot: bool, place: Place,
                  s: set<nat>, key: Bytes)
    requires HEADER <= size < 0x40_0000 && Absent(pages, s, key) && page.id in s && page.kind == Leaf
    requires Storable(page) && Without(page, s, key) && EntryStorable(t) && t.key != key
    requires ids(used) < U32 && ids(used + 1) < U32
    ensures var o := InsertIntoLeaf(pages, page, t, size, ids, used, isRoot, place);
      && used <= o.used <= used + 2 && Absent(o.pages, s + NewIds(ids, used, o.used), key)
      && (o.newId.Some? ==> o.newId.value in NewIds(ids, used, o.used))
  {
    hide ReadTreePage, WriteTreePage, Placed, SplitLeaf, EntryStorable, Without, FitsBelowLevel, RootOver;
    LeafOthers(page, s, key);
    if !IsFull(page, size) {
      PlacedOthers(page.keys, t, place, key);
      var written := page.(keys := Placed(page.keys, t, place));
      LeafFits(written, key, s + {page.id});
      WriteKeeps(pages, written, size, s, key);
      assert s + {page.id} == s + NewIds(ids, used, used);
    } else {
      var rightId := ids(used);
      SplitLeafOthers(page, t, rightId, place, key);
      var h := SplitLeaf(page, t, rightId, place);
      var s1 := s + {rightId};
      LeafFits(h.left, key, s + {page.id});
      WriteKeeps(pages, h.left, size, s, key);
      assert s + {page.id} == s;
      var p1 := WriteTreePage(pages, page.id, h.left, size);
      LeafFits(h.right, key, s1);
      WriteKeeps(p1, h.right, size, s, key);
      var p2 := WriteTreePage(p1, rightId, h.right, size);
      if isRoot {
        var rootId := ids(used + 1);
        RootOverFits(rootId, page.level + 1, h.right.keys[0], page.id, rightId, s1 + {rootId}, key);
        RootOverId(rootId, page.level + 1, h.right.keys[0], page.id, rightId);
        WriteKeeps(p2, RootOver(rootId, page.level + 1, h.right.keys[0], page.id, rightId), size, s1, key);
        assert s1 + {rootId} == s + NewIds(ids, used, used + 2);
      } else {
        assert s1 == s + NewIds(ids, used, used + 1);
      }
    }
  }

  lemma RootOverId(id: nat, level: nat, separator: IndexTuple, l: nat, r: nat)
    ensures RootOver(id, level, separator, l, r).id == id
  {}

  lemma LeafOthers(page: BTreePage, s: set<nat>, key: Bytes)
    requires page.kind == Leaf && Storable(page) && Without(page, s, key)
    ensures OtherKeys(page.keys, key)
  {}

  // ---- the way down ends ----------------------------------------------------------

  /** The descent for the key reaches a leaf, or an empty page, within the depth. */
  predicate Ends(pages: Pages, id: nat, key: Bytes, depth: nat)
    decreases depth
  {
    var page := ReadTreePage(pages, id);
    page.keys == [] || page.kind == Leaf || (depth > 0 && Ends(pages, FindChild(page, key), key, depth - 1))
  }

  lemma {:induction false} EndsDeeper(pages: Pages, id: nat, key: Bytes, depth: nat)
    requires Ends(pages, id, key, depth)
    ensures Ends(pages, id, key, depth + 1)
    decreases depth
  {
    hide ReadTreePage, FindChild;
    var page := ReadTreePage(pages, id);
    if page.keys != [] && page.kind != Leaf {
      EndsDeeper(pages, FindChild(page, key), key, depth - 1);
    }
  }

  lemma {:induction false} InsertEnds(pages: Pages, id: nat, t: IndexTuple, size: nat, ids: PageIds, used: nat, isRoot: bool,
                                      depth: nat, place: Place)
    requires size >= HEADER
    ensures Insert(pages, id, t, size, ids, used, isRoot, depth, place).Some? <==> Ends(pages, id, t.key, depth)
    decreases depth
  {
    hide ReadTreePage, FindChild, InsertIntoLeaf, SplitInternal, Repoint, WriteTreePage;
    var page := ReadTreePage(pages, id);
    if page.keys != [] && page.kind != Leaf && depth > 0 {
      InsertEnds(pages, FindChild(page, t.key), t, size, ids, used, false, depth - 1, place);
    }
  }

  /** An insertion writes the pages on its way down and new ones. */
  lemma {:induction false} Untouched(pages: Pages, id: nat, t: IndexTuple, size: nat, ids: PageIds, used: nat, isRoot: bool,
                                     depth: nat, place: Place, other: nat)
    requires size >= HEADER && Ends(pages, id, t.key, depth) && !Ends(pages, other, t.key, depth)
    ensures var o := Insert(pages, id, t, size, ids, used, isRoot, depth, place);
      && o.Some? && used <= o.value.used
      && (other !in NewIds(ids, used, o.value.used) ==> ReadTreePage(o.value.pages, other) == ReadTreePage(pages, other))
    decreases depth
  {
    hide ReadTreePage, FindChild, InsertIntoLeaf, SplitInternal, Repoint, WriteTreePage;
    var page := ReadTreePage(pages, id);
    ReadId(pages, id);
    InsertEnds(pages, id, t, size, ids, used, isRoot, depth, place);
    if page.keys == [] || page.kind == Leaf {
      LeafUntouched(pages, page.(kind := Leaf), t, size, ids, used, isRoot, place, other);
      assert page.kind == Leaf ==> page.(kind := Leaf) == page;
    } else {
      var child := FindChild(page, t.key);
      if Ends(pages, other, t.key, depth - 1) {
        EndsDeeper(pages, other, t.key, depth - 1);
      }
      Untouched(pages, child, t, size, ids, used, false, depth - 1, place, other);
      var inner := Insert(pages, child, t, size, ids, used, false, depth - 1, place).value;
      if inner.newId.Some? {
        var again := ReadTreePage(inner.pages, id);
        ReadId(inner.pages, id);
        var updated := again.(keys := Repoint(again.keys, child, inner.newId.value));
        if !IsFull(updated, size) || updated.keys == [] {
          ReadOther(inner.pages, id, updated, size, other);
        } else {
          SplitUntouched(inner.pages, updated, inner.newId.value, size, ids, inner.used, other);
          NewIdsGrow(ids, used, inner.used, inner.used + 2);
        }
      }
    }
  }

  lemma NewIdsGrow(ids: PageIds, from: nat, middle: nat, to: nat)
    requires from <= middle <= to
    ensures NewIds(ids, from, to) == NewIds(ids, from, middle) + NewIds(ids, middle, to)
  {}

  lemma LeafUntouched(pages: Pages, page: BTreePage, t: IndexTuple, size: nat, ids: PageIds, used: nat, isRoot: bool, place: Place,
                      other: nat)
    requires size >= HEADER && other != page.id
    ensures var o := InsertIntoLeaf(pages, page, t, size, ids, used, isRoot, place);
      && used <= o.used
      && (other !in NewIds(ids, used, o.used) ==> ReadTreePage(o.pages, other) == ReadTreePage(pages, other))
  {
    hide EncodePage, DecodePage, Placed, SplitLeaf, RootOver;
    var o := InsertIntoLeaf(pages, page, t, size, ids, used, isRoot, place);
    assert IsFull(page, size) ==> ids(used) in NewIds(ids, used, o.used);
    assert IsFull(page, size) && isRoot ==> ids(used + 1) in NewIds(ids, used, o.used);
  }

  lemma SplitUntouched(pages: Pages, page: BTreePage, child: nat, size: nat, ids: PageIds, used: nat, other: nat)
    requires size >= HEADER && page.keys != [] && other != page.id
    ensures var o := SplitInternal(pages, page, child, size, ids, used);
      && o.used == used + 2
      && (other !in NewIds(ids, used, used + 2) ==> ReadTreePage(o.pages, other) == ReadTreePage(pages, other))
  {
    hide EncodePage, DecodePage, RootOver;
    assert ids(used) in NewIds(ids, used, used + 2) && ids(used + 1) in NewIds(ids, used, used + 2);
  }

  // ---- the way back ---------------------------------------------------------------

  lemma {:induction false} RepointLeads(keys: seq<IndexTuple>, child: nat, replacement: nat, s: set<nat>)
    requires LeadsInto(keys, s) && replacement in s && replacement < U32
    requires forall i :: 0 <= i < |keys| ==> EntryStorable(keys[i])
    ensures var r := Repoint(keys, child, replacement);
      && |r| == |keys| && LeadsInto(r, s) && forall i :: 0 <= i < |r| ==> EntryStorable(r[i])
    decreases |keys|
  {
    if keys != [] && keys[0].page != child {
      assert forall i :: 0 <= i < |keys[1..]| ==> keys[1..][i] == keys[i + 1];
      RepointLeads(keys[1..], child, replacement, s);
      var (r, rest) := (Repoint(keys, child, replacement), Repoint(keys[1..], child, replacement));
      assert forall i :: 0 <= i < |r| ==> r[i] == if i == 0 then keys[0] else rest[i - 1];
    }
  }

  lemma InnerFits(page: BTreePage, key: Bytes, s: set<nat>)
    requires (page.kind == Root || page.kind == Internal) && LeadsInto(page.keys, s) && |page.keys| < 0x1_0000 && page.id < U32
    requires forall i :: 0 <= i < |page.keys| ==> EntryStorable(page.keys[i])
    requires SiblingNumber(page.left) < U32 && SiblingNumber(page.right) < U32
    ensures FitsBelowLevel(page) && Without(page, s, key)
  {}

  lemma SplitKeeps(pages: Pages, page: BTreePage, child: nat, size: nat, ids: PageIds, used: nat, s: set<nat>, key: Bytes)
    requires size >= HEADER && Absent(pages, s, key) && page.id < U32 && child in s && page.keys != []
    requires LeadsInto(page.keys, s) && Storable(page)
    requires ids(used) < U32 && ids(used + 1) < U32
    ensures var o := SplitInternal(pages, page, child, size, ids, used);
      Absent(o.pages, s + {page.id} + NewIds(ids, used, used + 2), key) && o.newId == Some(ids(used + 1)) && o.used == used + 2
  {
    hide ReadTreePage, WriteTreePage, EntryStorable, Without, FitsBelowLevel, RootOver;
    var at, rightId, rootId := |page.keys| / 2, ids(used), ids(used + 1);
    assert child < U32;
    var h := SplitPage(page, rightId);
    var left := h.left.(kind := Internal);
    var first := h.right.keys[0].(page := child, offset := 0);
    var right := h.right.(kind := Internal, left := Some(page.id), keys := [first] + h.right.keys[1..]);
    assert EntryStorable(first) by {
      FirstStorable(page.keys[at], child);
    }
    var (s0, s1) := (s + {page.id}, s + {page.id} + {rightId});
    assert forall i :: 0 <= i < |right.keys| ==> right.keys[i] == if i == 0 then first else page.keys[at + i];
    assert forall i :: 0 <= i < |left.keys| ==> left.keys[i] == page.keys[i];
    InnerFits(left, key, s0);
    WriteKeeps(pages, left, size, s, key);
    var p1 := WriteTreePage(pages, page.id, left, size);
    InnerFits(right, key, s1);
    WriteKeeps(p1, right, size, s0, key);
    var p2 := WriteTreePage(p1, rightId, right, size);
    RootOverFits(rootId, page.level + 1, first, page.id, rightId, s1 + {rootId}, key);
    RootOverId(rootId, page.level + 1, first, page.id, rightId);
    WriteKeeps(p2, RootOver(rootId, page.level + 1, first, page.id, rightId), size, s1, key);
    assert s1 + {rootId} == s0 + NewIds(ids, used, used + 2);
  }

  lemma FirstStorable(t: IndexTuple, child: nat)
    requires EntryStorable(t) && child < U32
    ensures EntryStorable(t.(page := child, offset := 0))
  {}

  lemma ChildLeadsInto(page: BTreePage, key: Bytes, s: set<nat>)
    requires page.keys != [] && LeadsInto(page.keys, s)
    ensures FindChild(page, key) in s
  {}

  // ---- insertion -------------------------------------------------------------------

  /** Whatever the shape of the tree, an insertion of another key into new pages keeps the key away. */
  lemma {:induction false} InsertKeepsAbsent(pages: Pages, id: nat, t: IndexTuple, size: nat, ids: PageIds, used: nat, isRoot: bool,
                                             depth: nat, place: Place, s: set<nat>, key: Bytes)
    requires HEADER <= size < 0x40_0000 && id in s && Absent(pages, s, key) && EntryStorable(t) && t.key != key
    requires Insert(pages, id, t, size, ids, used, isRoot, depth, place).Some?
    requires forall i: nat :: ids(i) < U32
    requires var o := Insert(pages, id, t, size, ids, used, isRoot, depth, place).value;
      forall i :: used <= i < o.used ==> ids(i) !in s
    ensures var o := Insert(pages, id, t, size, ids, used, isRoot, depth, place).value;
      && used <= o.used && Absent(o.pages, s + NewIds(ids, used, o.used), key)
      && (o.newId.Some? ==> o.newId.value in NewIds(ids, used, o.used))
    decreases depth, 1
  {
    hide ReadTreePage, FindChild, InsertIntoLeaf, SplitInternal, Repoint, WriteTreePage, EntryStorable, Without, NewIds, Storable;
    var page := ReadTreePage(pages, id);
    ReadIsStorable(pages, id);
    if page.keys == [] || page.kind == Leaf {
      var leaf := page.(kind := Leaf);
      LeafAsIs(page, s, key);
      LeafKeeps(pages, leaf, t, size, ids, used, isRoot, place, s, key);
      assert page.kind == Leaf ==> leaf == page;
    } else if depth > 0 && Insert(pages, id, t, size, ids, used, isRoot, depth - 1, place).Some? {
      InsertDeeper(pages, id, t, size, ids, used, isRoot, depth - 1, depth, place);
      InsertKeepsAbsent(pages, id, t, size, ids, used, isRoot, depth - 1, place, s, key);
    } else {
      InnerKeepsAbsent(pages, id, t, size, ids, used, isRoot, depth, place, s, key);
    }
  }

  lemma LeafAsIs(page: BTreePage, s: set<nat>, key: Bytes)
    requires Without(page, s, key) && Storable(page) && (page.kind == Leaf || page.keys == [])
    ensures Without(page.(kind := Leaf), s, key) && Storable(page.(kind := Leaf))
  {}

  lemma InnerLeads(page: BTreePage, s: set<nat>, key: Bytes)
    requires Without(page, s, key) && Storable(page) && page.kind != Leaf
    ensures LeadsInto(page.keys, s) && (page.kind == Root || page.kind == Internal) && |page.keys| < 0x1_0000
    ensures forall i :: 0 <= i < |page.keys| ==> EntryStorable(page.keys[i])
    ensures SiblingNumber(page.left) < U32 && SiblingNumber(page.right) < U32
  {}

  lemma InnerStorable(page: BTreePage, keys: seq<IndexTuple>)
    requires Storable(page) && |keys| == |page.keys| && forall i :: 0 <= i < |keys| ==> EntryStorable(keys[i])
    ensures Storable(page.(keys := keys))
  {}

  /** A page whose child was split: it is as it was, since the way down never comes back to a page. */
  lemma {:induction false} InnerKeepsAbsent(pages: Pages, id: nat, t: IndexTuple, size: nat, ids: PageIds, used: nat, isRoot: bool,
                                            depth: nat, place: Place, s: set<nat>, key: Bytes)
    requires HEADER <= size < 0x40_0000 && id in s && Absent(pages, s, key) && EntryStorable(t) && t.key != key
    requires ReadTreePage(pages, id).keys != [] && ReadTreePage(pages, id).kind != Leaf
    requires Insert(pages, id, t, size, ids, used, isRoot, depth, place).Some?
    requires depth > 0 && Insert(pages, id, t, size, ids, used, isRoot, depth - 1, place).None?
    requires forall i: nat :: ids(i) < U32
    requires var o := Insert(pages, id, t, size, ids, used, isRoot, depth, place).value;
      forall i :: used <= i < o.used ==> ids(i) !in s
    ensures var o := Insert(pages, id, t, size, ids, used, isRoot, depth, place).value;
      && used <= o.used && Absent(o.pages, s + NewIds(ids, used, o.used), key)
      && (o.newId.Some? ==> o.newId.value in NewIds(ids, used, o.used))
    decreases depth, 0
  {
    hide ReadTreePage, FindChild, InsertIntoLeaf, SplitInternal, Repoint, WriteTreePage, EntryStorable, Without, NewIds, Storable,
         LeadsInto, Ends, FitsBelowLevel, Absent, IsFull;
    var page := ReadTreePage(pages, id);
    ReadIsStorable(pages, id);
    AbsentAt(pages, s, key, id);
    InnerLeads(page, s, key);
    var child := FindChild(page, t.key);
    ChildLeadsInto(page, t.key, s);
    var inner := Insert(pages, child, t, size, ids, used, false, depth - 1, place).value;
    InnerUses(pages, id, t, size, ids, used, isRoot, depth, place);
    InsertKeepsAbsent(pages, child, t, size, ids, used, false, depth - 1, place, s, key);
    if inner.newId.Some? {
      var s1 := s + NewIds(ids, used, inner.used);
      var newId := inner.newId.value;
      InsertEnds(pages, child, t, size, ids, used, false, depth - 1, place);
      InsertEnds(pages, id, t, size, ids, used, isRoot, depth - 1, place);
      Untouched(pages, child, t, size, ids, used, false, depth - 1, place, id);
      NotNew(ids, used, inner.used, id, s);
      assert ReadTreePage(inner.pages, id) == page;
      LeadsMore(page.keys, s, s1);
      AbsentAt(inner.pages, s1, key, newId);
      RepointLeads(page.keys, child, newId, s1);
      var updated := page.(keys := Repoint(page.keys, child, newId));
      InnerStorable(page, updated.keys);
      AbsentAt(pages, s, key, id);
      if !IsFull(updated, size) {
        InnerFits(updated, key, s1 + {id});
        WriteKeeps(inner.pages, updated, size, s1, key);
        assert s1 + {id} == s1;
      } else {
        SplitKeeps(inner.pages, updated, newId, size, ids, inner.used, s1, key);
        NewIdsGrow(ids, used, inner.used, inner.used + 2);
        assert s1 + {id} + NewIds(ids, inner.used, inner.used + 2) == s + NewIds(ids, used, inner.used + 2);
        LastIsNew(ids, inner.used);
      }
    }
  }

  lemma AbsentAt(pages: Pages, s: set<nat>, key: Bytes, id: nat)
    requires Absent(pages, s, key) && id in s
    ensures id < U32 && Without(ReadTreePage(pages, id), s, key)
  {}

  lemma LeadsMore(keys: seq<IndexTuple>, s: set<nat>, s': set<nat>)
    requires LeadsInto(keys, s) && s <= s'
    ensures LeadsInto(keys, s')
  {}

  lemma NotNew(ids: PageIds, from: nat, to: nat, id: nat, s: set<nat>)
    requires id in s && forall i :: from <= i < to ==> ids(i) !in s
    ensures id !in NewIds(ids, from, to)
  {}

  lemma LastIsNew(ids: PageIds, used: nat)
    ensures ids(used + 1) in NewIds(ids, used, used + 2)
  {}

  lemma {:induction false} InsertUses(pages: Pages, id: nat, t: IndexTuple, size: nat, ids: PageIds, used: nat, isRoot: bool,
                                      depth: nat, place: Place)
    requires size >= HEADER
    ensures var o := Insert(pages, id, t, size, ids, used, isRoot, depth, place);
      o.Some? ==> o.value.used >= used
    decreases depth
  {
    hide ReadTreePage, FindChild, Repoint, WriteTreePage;
    var page := ReadTreePage(pages, id);
    if page.keys != [] && page.kind != Leaf && depth > 0 {
      InsertUses(pages, FindChild(page, t.key), t, size, ids, used, false, depth - 1, place);
    }
  }

  /** The insertion below uses the first of the page numbers used. */
  lemma InnerUses(pages: Pages, id: nat, t: IndexTuple, size: nat, ids: PageIds, used: nat, isRoot: bool, depth: nat, place: Place)
    requires size >= HEADER && depth > 0 && Insert(pages, id, t, size, ids, used, isRoot, depth, place).Some?
    requires ReadTreePage(pages, id).keys != [] && ReadTreePage(pages, id).kind != Leaf
    ensures var inner := Insert(pages, FindChild(ReadTreePage(pages, id), t.key), t, size, ids, used, false, depth - 1, place);
      && inner.Some?
      && var o := Insert(pages, id, t, size, ids, used, isRoot, depth, place).value;
        o.used == inner.value.used || o.used == inner.value.used + 2
  {
    hide ReadTreePage, FindChild, InsertIntoLeaf, Repoint, WriteTreePage;
  }

  // ---- search ----------------------------------------------------------------------

  /** A key that no page of the set holds is not found from any of them. */
  lemma {:induction false} AbsentNotFound(pages: Pages, s: set<nat>, key: Bytes, id: nat, depth: nat)
    requires id in s && Absent(pages, s, key)
    ensures Search(pages, id, key, depth) == None || Search(pages, id, key, depth) == Some([])
    decreases depth
  {
    hide ReadTreePage, FindChild, Matching;
    var page := ReadTreePage(pages, id);
    ReadId(pages, id);
    if page.kind == Leaf {
      MatchingNone(page.keys, key);
    } else if depth > 0 {
      if page.keys != [] {
        ChildLeadsInto(page, key, s);
      } else {
        EmptyLeadsToItself(page, key);
      }
      AbsentNotFound(pages, s, key, FindChild(page, key), depth - 1);
    }
  }

  lemma EmptyLeadsToItself(page: BTreePage, key: Bytes)
    requires page.keys == []
    ensures FindChild(page, key) == page.id
  {}

  // ---- the first key of a full leaf --------------------------------------------------

  lemma LeafLacks(pages: Pages, id: nat, part: Contents, size: nat, lost: Bytes)
    requires LeafAt(pages, id, size) && KeysAre(ReadTreePage(pages, id).keys, part) && lost !in part && id < U32
    ensures Absent(pages, {id}, lost)
  {
    hide ReadTreePage, NodeKeys;
    NotInMap(ReadTreePage(pages, id).keys, part, lost);
  }

  lemma HalfFits(page: BTreePage, lost: Bytes, size: nat, s: set<nat>)
    requires PageSize(size) && page.kind == Leaf && page.level == 0
    requires NodeKeys(page.keys, size) && !HasKey(page.keys, lost) && page.id < U32
    requires SiblingNumber(page.left) < U32 && SiblingNumber(page.right) < U32
    ensures FitsBelowLevel(page) && Without(page, s, lost)
  {
    hide StrictlyAscending, EntryStorable;
    assert forall i :: 0 <= i < |page.keys| ==> SmallEntry(page.keys[i], size);
  }

  lemma TopFits(page: BTreePage, sep: Bytes, l: nat, r: nat, s: set<nat>, lost: Bytes)
    requires RootOverTwo(page, sep, l, r) && l in s && r in s && page.id < U32
    ensures FitsBelowLevel(page) && Storable(page) && page.keys != [] && LeadsInto(page.keys, s) && Without(page, s, lost)
  {}

  /** The other leaf is as it was, and the right half does not hold the key. */
  lemma HalvesForget(pages: Pages, left: BTreePage, right: BTreePage, other: nat, part: Contents, size: nat, lost: Bytes)
    requires PageSize(size) && LeafAt(pages, other, size)
    requires KeysAre(ReadTreePage(pages, other).keys, part) && lost !in part && other < U32
    requires other != left.id && right.kind == Leaf && right.level == 0
    requires NodeKeys(right.keys, size) && !HasKey(right.keys, lost) && right.id < U32
    requires SiblingNumber(right.left) < U32 && SiblingNumber(right.right) < U32
    ensures Absent(WriteTreePage(WriteTreePage(pages, left.id, left, size), right.id, right, size), {other} + {right.id}, lost)
  {
    hide ReadTreePage, WriteTreePage, NodeKeys, KeysAre, HasKey, Absent, FitsBelowLevel, Without;
    ReadOther(pages, left.id, left, size, other);
    var p1 := WriteTreePage(pages, left.id, left, size);
    LeafLacks(p1, other, part, size, lost);
    HalfFits(right, lost, size, {other} + {right.id});
    WriteKeeps(p1, right, size, {other}, lost);
  }

  /** The root, written or split, leads only to the other leaf and the right half. */
  lemma TopForgets(pages: Pages, page: BTreePage, sep: Bytes, l: nat, r: nat, child: nat, size: nat, ids: PageIds, used: nat,
                   s: set<nat>, lost: Bytes)
    requires size >= HEADER && Absent(pages, s, lost) && RootOverTwo(page, sep, l, r)
    requires l in s && r in s && child in s && page.id < U32
    ensures Absent(WriteTreePage(pages, page.id, page, size), s + {page.id}, lost)
    ensures page.keys != [] && (ids(used) < U32 && ids(used + 1) < U32 ==>
      var o := SplitInternal(pages, page, child, size, ids, used);
      Absent(o.pages, s + {page.id} + NewIds(ids, used, used + 2), lost) && o.newId == Some(ids(used + 1)) && o.used == used + 2)
  {
    hide ReadTreePage, WriteTreePage, Absent, FitsBelowLevel, Without, RootOverTwo, SplitInternal, LeadsInto, Storable;
    TopFits(page, sep, l, r, s, lost);
    TopFits(page, sep, l, r, s + {page.id}, lost);
    WriteKeeps(pages, page, size, s, lost);
    if ids(used) < U32 && ids(used + 1) < U32 {
      SplitKeeps(pages, page, child, size, ids, used, s, lost);
    }
  }

  /** A leaf of a two-level tree is full when it is inserted into: then no page of the tree there is
      afterwards holds the leaf's first key. */
  lemma {:induction false} FullLeafForgets(pages: Pages, root: nat, sep: Bytes, l: nat, r: nat, m: Contents, size: nat, t: IndexTuple,
                                           ids: PageIds, used: nat, depth: nat) returns (lost: Bytes, s: set<nat>)
    requires PageSize(size) && TwoLevels(pages, root, sep, l, r, m, size) && SmallEntry(t, size) && t.key !in m && depth >= 1
    requires FullBelow(pages, root, sep, l, r, t.key, size, ids, used)
    requires ids(used) != l && ids(used) != r && ids(used + 2) < U32
    ensures var o := Insert(pages, root, t, size, ids, used, true, depth);
      && o.Some? && used <= o.value.used && lost in m && Absent(o.value.pages, s, lost) && NewRoot(o.value, root) in s
      && s <= {root, l, r} + NewIds(ids, used, o.value.used)
  {
    hide ReadTreePage, NodeKeys, KeysAre, WriteTreePage, SplitLeaf, Less, SmallEntry, HasKey, Insert, SplitInternal, Repoint,
         Absent, FitsBelowLevel, Without;
    var child, rightId := if Less(t.key, sep) then l else r, ids(used);
    var other := if Less(t.key, sep) then r else l;
    var (part, rest) := if Less(t.key, sep) then (PartBelow(m, sep), PartFrom(m, sep)) else (PartFrom(m, sep), PartBelow(m, sep));
    var (top, page) := (ReadTreePage(pages, root), ReadTreePage(pages, child));
    ReadId(pages, root);
    ReadId(pages, child);
    FirstKeyStaysLeft(page, part, size, t, rightId);
    SplitLeafKeys(page, part, size, t, rightId);
    lost := page.keys[0].key;
    var h := SplitLeaf(page, t, rightId);
    assert page.(kind := Leaf) == page;
    FullLeafOutcome(pages, root, sep, l, r, t, size, ids, used, depth, Lowest);
    HalvesForget(pages, h.left, h.right, other, rest, size, lost);
    var between := LeafSplitPages(pages, page, t, size, rightId, Lowest);
    var updated := top.(keys := Repoint(top.keys, child, rightId));
    var (l', r') := (if child == l then rightId else l, if child == l then r else rightId);
    TopForgets(between, updated, sep, l', r', rightId, size, ids, used + 1, {other} + {rightId}, lost);
    NewIdsGrow(ids, used, used + 1, used + 3);
    assert NewIds(ids, used, used + 1) == {rightId};
    if size < 192 {
      s := {other} + {rightId} + {root} + NewIds(ids, used + 1, used + 3);
      LastIsNew(ids, used + 1);
    } else {
      s := {other} + {rightId} + {root};
    }
  }
}
