/** The B-tree code as it runs (src/btree/insert.rs, src/btree/search.rs): byte buffers filled at a
    moving position, pages rewritten in storage on the way back from the recursion. */
module BTreeObjects {
  import opened Wrappers
  import opened Order
  import opened ByteCodec
  import opened PageStores
  import opened BTreePages
  import opened BTrees
  import opened BTreeRefinement
  import opened BTreeRuns

  // ---- pages as bytes -------------------------------------------------------

  method SerializePage(page: BTreePage, size: nat) returns (data: array<byte>)
    requires size >= HEADER
    ensures fresh(data) && data[..] == EncodePage(page, size)
  {
    hide EncodeHeader, EncodeEntries;
    data := new byte[size](i => 0);
    CopyInto(data, 0, EncodeHeader(page));
    assert data[..HEADER] == EncodeHeader(page);
    var pos := WriteEntries(data, page.keys);
    assert data[pos..] == Zeros(size - pos);
    assert data[..] == data[..HEADER] + data[HEADER..pos] + data[pos..];
  }

  /** The entry loop: entries are written one after another until one does not fit. */
  method WriteEntries(data: array<byte>, keys: seq<IndexTuple>) returns (pos: nat)
    requires data.Length >= HEADER && forall k :: HEADER <= k < data.Length ==> data[k] == 0
    modifies data
    ensures HEADER <= pos <= data.Length && data[..HEADER] == old(data[..HEADER])
    ensures data[HEADER..pos] == EncodeEntries(keys, HEADER, data.Length)
    ensures forall k :: pos <= k < data.Length ==> data[k] == 0
  {
    hide EncodeEntry, EncodeEntries;
    var size := data.Length;
    pos := HEADER;
    var i := 0;
    ghost var done: Bytes := [];
    assert keys[0..] == keys;
    while i < |keys|
      invariant 0 <= i <= |keys| && HEADER <= pos <= size
      invariant data[..HEADER] == old(data[..HEADER]) && data[HEADER..pos] == done
      invariant EncodeEntries(keys, HEADER, size) == done + EncodeEntries(keys[i..], pos, size)
      invariant forall k :: pos <= k < size ==> data[k] == 0
    {
      var t := keys[i];
      EntriesStep(keys, i, pos, size);
      if pos + 4 + |t.key| + 6 > size {
        assert done + [] == done;
        return;
      }
      var next := pos + 4 + |t.key| + 6;
      ghost var before := data[..];
      CopyInto(data, pos, EncodeEntry(t));
      CopiedBehind(before, data[..], pos, next);
      Associative(done, EncodeEntry(t), EncodeEntries(keys[i + 1..], next, size));
      done := done + EncodeEntry(t);
      pos, i := next, i + 1;
    }
    assert keys[i..] == [] && done + [] == done;
    EntriesNil(pos, size);
  }

  /** Bytes copied behind a position leave what is in front of it. */
  lemma CopiedBehind(before: Bytes, data: Bytes, pos: nat, next: nat)
    requires HEADER <= pos <= next <= |data| == |before|
    requires forall k :: 0 <= k < pos ==> data[k] == before[k]
    ensures data[..HEADER] == before[..HEADER]
    ensures data[HEADER..next] == before[HEADER..pos] + data[pos..next]
  {}

  lemma Associative(a: Bytes, b: Bytes, c: Bytes)
    ensures a + (b + c) == (a + b) + c
  {}

  lemma EntriesNil(pos: nat, size: nat)
    requires pos <= size
    ensures EncodeEntries([], pos, size) == []
  {}

  lemma EntriesStep(keys: seq<IndexTuple>, i: nat, pos: nat, size: nat)
    requires i < |keys| && pos <= size
    ensures EncodeEntries(keys[i..], pos, size)
         == if pos + EntrySize(keys[i]) > size then []
            else EncodeEntry(keys[i]) + EncodeEntries(keys[i + 1..], pos + EntrySize(keys[i]), size)
  {
    hide EncodeEntry;
    assert keys[i..][1..] == keys[i + 1..];
  }

  method DeserializePage(id: nat, data: Bytes) returns (page: BTreePage)
    ensures page == DecodePage(id, data)
  {
    hide FromLE, DecodeEntry;
    if |data| < 16 {
      return NewPage(Leaf, id);
    }
    var count := FromLE(data[3..5]);
    var keys: seq<IndexTuple> := [];
    var pos: nat := HEADER;
    ghost var all := DecodeEntries(data, HEADER, count);
    var n := 0;
    while n < count
      invariant 0 <= n <= count
      invariant keys + DecodeEntries(data, pos, count - n) == all
    {
      if pos + 4 + 6 > |data| {
        break;
      }
      var length := FromLE(data[pos..pos + 4]);
      if length == 0 || pos + 4 + length + 6 > |data| {
        break;
      }
      ghost var rest := DecodeEntries(data, pos + 4 + length + 6, count - n - 1);
      assert DecodeEntries(data, pos, count - n) == [DecodeEntry(data, pos, length)] + rest;
      keys := keys + [DecodeEntry(data, pos, length)];
      pos, n := pos + 4 + length + 6, n + 1;
    }
    assert keys == all;
    page := BTreePage(KindOf(data[0]), id, FromLE(data[1..3]), keys,
                      SiblingOf(FromLE(data[8..12])), SiblingOf(FromLE(data[12..16])));
  }

  method ReadPage(store: PageStore, id: nat) returns (page: BTreePage)
    ensures page == ReadTreePage(store.pages, id)
  {
    var data := store.ReadPage(id);
    page := DeserializePage(id, data);
  }

  method WritePage(store: PageStore, id: nat, page: BTreePage, size: nat)
    requires size >= HEADER
    modifies store
    ensures store.pages == WriteTreePage(old(store.pages), id, page, size)
  {
    var data := SerializePage(page, size);
    store.WritePage(id, data[..]);
  }

  // ---- search ---------------------------------------------------------------

  /** `find_child_page_id` and `find_descend_child`. */
  method DescendTo(page: BTreePage, key: Bytes) returns (child: nat)
    ensures child == FindChild(page, key)
  {
    hide Less;
    if page.keys == [] {
      return page.id;
    }
    child := page.keys[0].page;
    var i := 0;
    while i < |page.keys| && !Less(key, page.keys[i].key)
      invariant 0 <= i <= |page.keys|
      invariant LeadingAtMost(page.keys, key) == i + LeadingAtMost(page.keys[i..], key)
      invariant child == page.keys[if i == 0 then 0 else i - 1].page
    {
      assert page.keys[i..][1..] == page.keys[i + 1..];
      child := page.keys[i].page;
      i := i + 1;
    }
  }

  method SearchPage(store: PageStore, id: nat, key: Bytes, depth: nat) returns (results: Option<seq<IndexTuple>>)
    ensures results == Search(store.pages, id, key, depth)
    decreases depth
  {
    hide ReadTreePage, FindChild;
    var page := ReadPage(store, id);
    match page.kind {
      case Leaf =>
        var found := CollectMatching(page.keys, key);
        results := Some(found);
      case Overflow =>
        var found := CollectMatching(page.keys, key);
        results := Some(found);
      case Meta => results := Some([]);
      case _ =>
        if depth == 0 {
          return None;
        }
        var child := DescendTo(page, key);
        results := SearchPage(store, child, key, depth - 1);
    }
  }

  method CollectMatching(keys: seq<IndexTuple>, key: Bytes) returns (found: seq<IndexTuple>)
    ensures found == Matching(keys, key)
  {
    found := [];
    for i := 0 to |keys|
      invariant found == Matching(keys[..i], key)
    {
      assert keys[..i + 1][..i] == keys[..i];
      if keys[i].key == key {
        found := found + [keys[i]];
      }
    }
    assert keys[..|keys|] == keys;
  }

  // ---- insertion ------------------------------------------------------------

  /** What the library's search guarantees of the place: a sorted leaf stays sorted also when it holds
      the key already, and a new key has only one place. */
  ghost predicate ProperPlace(keys: seq<IndexTuple>, t: IndexTuple, size: nat, place: Place) {
    && (Ascending(keys) ==> Ascending(Placed(Receiving(keys, t.key, size), t, place)))
    && (OnePlace(keys, t.key) ==> place == Lowest)
  }

  /** The same at the leaf that the descent for the key reaches. */
  ghost predicate ProperBelow(pages: Pages, id: nat, t: IndexTuple, size: nat, depth: nat, place: Place)
    decreases depth
  {
    var page := ReadTreePage(pages, id);
    if page.keys == [] || page.kind == Leaf then ProperPlace(page.keys, t, size, place)
    else depth > 0 ==> ProperBelow(pages, FindChild(page, t.key), t, size, depth - 1, place)
  }

  /** The leaf that the descent for the key reaches has one place for it. */
  ghost predicate SearchableBelow(pages: Pages, id: nat, key: Bytes, depth: nat)
    decreases depth
  {
    var page := ReadTreePage(pages, id);
    if page.keys == [] || page.kind == Leaf then OnePlace(page.keys, key)
    else depth > 0 && SearchableBelow(pages, FindChild(page, key), key, depth - 1)
  }

  lemma {:induction false} SearchableHasOnePlace(pages: Pages, id: nat, t: IndexTuple, size: nat, depth: nat, place: Place)
    requires SearchableBelow(pages, id, t.key, depth) && ProperBelow(pages, id, t, size, depth, place)
    ensures place == Lowest
    decreases depth
  {
    hide ReadTreePage, FindChild, OnePlace, Ascending, Placed, Receiving;
    var page := ReadTreePage(pages, id);
    if page.keys != [] && page.kind != Leaf {
      SearchableHasOnePlace(pages, FindChild(page, t.key), t, size, depth - 1, place);
    }
  }

  /** Insertion into a leaf, wherever the library's search puts the tuple. */
  method InsertLeaf(store: PageStore, page: BTreePage, t: IndexTuple, size: nat, ids: PageIds, used: nat, isRoot: bool)
    returns (used': nat, newId: Option<nat>, ghost place: Place)
    requires size >= HEADER
    modifies store
    ensures Outcome(store.pages, used', newId) == InsertIntoLeaf(old(store.pages), page, t, size, ids, used, isRoot, place)
    ensures ProperPlace(page.keys, t, size, place)
  {
    hide InsertSorted, Placed, Less, EncodePage, OnePlace, Ascending;
    var keys;
    if !IsFull(page, size) {
      keys, place := InsertSortedInto(page.keys, t);
      WritePage(store, page.id, page.(keys := keys), size);
      return used, None, place;
    }
    var rightId := ids(used);
    used' := used + 1;
    var left, right;
    left, right, place := SplitInserting(page, t, rightId);
    WritePage(store, page.id, left, size);
    WritePage(store, rightId, right, size);
    if !isRoot {
      return used', Some(rightId), place;
    }
    var rootId := ids(used');
    used' := used' + 1;
    var separator := if right.keys == [] then IndexTuple([], 0, 0, 0) else right.keys[0];
    var root := NewPage(Root, rootId).(level := page.level + 1);
    var first := separator.(page := page.id, offset := 0);
    var second := first.(page := rightId, offset := 0);
    root := root.(keys := root.keys + [first] + [second]);
    assert root == RootOver(rootId, page.level + 1, separator, page.id, rightId);
    WritePage(store, rootId, root, size);
    newId := Some(rootId);
  }

  method SplitInserting(page: BTreePage, t: IndexTuple, rightId: nat) returns (left: BTreePage, right: BTreePage, ghost place: Place)
    ensures Halves(left, right) == SplitLeaf(page, t, rightId, place)
    ensures Ascending(page.keys) ==> Ascending(Placed(ReceivingHalf(page.keys, t.key), t, place))
    ensures OnePlace(page.keys, t.key) ==> place == Lowest
  {
    hide InsertSorted, Placed, Less, OnePlace, Ascending;
    var at := |page.keys| / 2;
    HalvesSearchable(page.keys, t.key, at);
    right := NewPage(page.kind, 0).(keys := page.keys[at..], level := page.level);
    left := page.(keys := page.keys[..at]);
    right := right.(id := rightId, level := left.level);
    var keys;
    if right.keys != [] && Less(t.key, right.keys[0].key) {
      keys, place := InsertSortedInto(left.keys, t);
      left := left.(keys := keys);
    } else {
      keys, place := InsertSortedInto(right.keys, t);
      right := right.(keys := keys);
    }
    right := right.(left := Some(left.id));
  }

  lemma HalvesSearchable(keys: seq<IndexTuple>, key: Bytes, at: nat)
    requires at <= |keys|
    ensures Ascending(keys) ==> Ascending(keys[..at]) && Ascending(keys[at..])
    ensures OnePlace(keys, key) ==> OnePlace(keys[..at], key) && OnePlace(keys[at..], key)
  {
    hide Less;
    if !HasKey(keys, key) {
      assert forall i :: 0 <= i < |keys| ==> keys[i].key != key;
    }
  }

  method RepointFirst(keys: seq<IndexTuple>, child: nat, replacement: nat) returns (result: seq<IndexTuple>)
    ensures result == Repoint(keys, child, replacement)
  {
    hide Repoint;
    result := keys;
    for i := 0 to |keys|
      invariant result == keys && forall k :: 0 <= k < i ==> keys[k].page != child
    {
      if keys[i].page == child {
        RepointAt(keys, child, replacement, i);
        return keys[i := keys[i].(page := replacement, offset := 0)];
      }
    }
    RepointNone(keys, child, replacement);
  }

  lemma {:induction false} RepointAt(keys: seq<IndexTuple>, child: nat, replacement: nat, i: nat)
    requires i < |keys| && keys[i].page == child && forall k :: 0 <= k < i ==> keys[k].page != child
    ensures Repoint(keys, child, replacement) == keys[i := keys[i].(page := replacement, offset := 0)]
    decreases i
  {
    if i > 0 {
      RepointAt(keys[1..], child, replacement, i - 1);
    }
  }

  lemma {:induction false} RepointNone(keys: seq<IndexTuple>, child: nat, replacement: nat)
    requires forall k :: 0 <= k < |keys| ==> keys[k].page != child
    ensures Repoint(keys, child, replacement) == keys
    decreases |keys|
  {
    if keys != [] {
      RepointNone(keys[1..], child, replacement);
    }
  }

  method SplitParent(store: PageStore, page: BTreePage, child: nat, size: nat, ids: PageIds, used: nat)
    returns (used': nat, newId: Option<nat>)
    requires size >= HEADER && page.keys != []
    modifies store
    ensures Outcome(store.pages, used', newId) == SplitInternal(old(store.pages), page, child, size, ids, used)
  {
    hide EncodePage;
    var at := |page.keys| / 2;
    var rightId := ids(used);
    var right := BTreePage(page.kind, rightId, page.level, page.keys[at..], Some(page.id), None);
    var left := page.(keys := page.keys[..at]);
    right := right.(keys := right.keys[0 := right.keys[0].(page := child, offset := 0)]);
    left := left.(kind := Internal);
    right := right.(kind := Internal);
    assert right.keys == [page.keys[at].(page := child, offset := 0)] + page.keys[at..][1..];
    WritePage(store, left.id, left, size);
    WritePage(store, rightId, right, size);
    var rootId := ids(used + 1);
    var root := RootOver(rootId, left.level + 1, right.keys[0], left.id, rightId);
    WritePage(store, rootId, root, size);
    return used + 2, Some(rootId);
  }

  method InsertRecursive(store: PageStore, id: nat, t: IndexTuple, size: nat, ids: PageIds, used: nat, isRoot: bool, depth: nat)
    returns (outcome: Option<(nat, Option<nat>)>, ghost place: Place)
    requires size >= HEADER
    modifies store
    ensures var spec := Insert(old(store.pages), id, t, size, ids, used, isRoot, depth, place);
      match spec
      case None => outcome == None && store.pages == old(store.pages)
      case Some(o) => outcome == Some((o.used, o.newId)) && store.pages == o.pages
    ensures ProperBelow(old(store.pages), id, t, size, depth, place)
    decreases depth
  {
    hide ReadTreePage, FindChild, InsertIntoLeaf, SplitInternal, EncodePage, Repoint, ProperPlace;
    var page := ReadPage(store, id);
    if page.kind == Leaf || page.keys == [] {
      if page.keys == [] {
        page := page.(kind := Leaf);
      }
      var used', newId;
      used', newId, place := InsertLeaf(store, page, t, size, ids, used, isRoot);
      return Some((used', newId)), place;
    }
    if depth == 0 {
      return None, Lowest;
    }
    var child := DescendTo(page, t.key);
    outcome, place := InsertRecursive(store, child, t, size, ids, used, false, depth - 1);
    if outcome.None? || outcome.value.1.None? {
      return;
    }
    var updated := ReadPage(store, id);
    var keys := RepointFirst(updated.keys, child, outcome.value.1.value);
    updated := updated.(keys := keys);
    if !IsFull(updated, size) || updated.keys == [] {
      WritePage(store, id, updated, size);
      return Some((outcome.value.0, None)), place;
    }
    var used', newId := SplitParent(store, updated, outcome.value.1.value, size, ids, outcome.value.0);
    return Some((used', newId)), place;
  }

  // ---- a run of insertions, and a search after it -----------------------------

  /** A tree that represents a map has a searchable leaf for every key it does not hold. */
  lemma RepresentedIsSearchable(tree: Tree, m: Contents, size: nat, start: nat, ids: PageIds, key: Bytes, depth: nat)
    requires Represents(tree, m, size, start, ids) && key !in m && depth >= 1
    ensures SearchableBelow(tree.pages, tree.root, key, depth)
  {
    hide ReadTreePage, FindChild, Less;
    if OneLeaf(tree.pages, tree.root, m, size) {
      LeafIsSearchable(ReadTreePage(tree.pages, tree.root), m, size, key);
    } else {
      var sep: Bytes :| TwoLevels(tree.pages, tree.root, sep, start, ids(0), m, size);
      var root := ReadTreePage(tree.pages, tree.root);
      RootDescends(root, sep, start, ids(0), key);
      var part := if Less(key, sep) then PartBelow(m, sep) else PartFrom(m, sep);
      LeafIsSearchable(ReadTreePage(tree.pages, FindChild(root, key)), part, size, key);
    }
  }

  lemma LeafIsSearchable(page: BTreePage, m: Contents, size: nat, key: Bytes)
    requires NodeKeys(page.keys, size) && KeysAre(page.keys, m) && key !in m
    ensures OnePlace(page.keys, key)
  {
    hide Less;
    NotInMap(page.keys, m, key);
    forall i, j | 0 <= i < j < |page.keys|
      ensures AtMost(page.keys[i].key, page.keys[j].key)
    {}
  }

  /** `btree_insert_multipage`, on a tree of any depth: a tree deeper than `depth` is left as it was. */
  method InsertMultipage(store: PageStore, root: nat, t: IndexTuple, size: nat, ids: PageIds, used: nat, depth: nat)
    returns (newRoot: nat, used': nat, ghost place: Place)
    requires size >= HEADER
    modifies store
    ensures Tree(store.pages, newRoot, used') == InsertInto(Tree(old(store.pages), root, used), t, size, ids, depth, place)
    ensures ProperBelow(old(store.pages), root, t, size, depth, place)
  {
    hide Insert, ProperBelow;
    var outcome;
    outcome, place := InsertRecursive(store, root, t, size, ids, used, true, depth);
    match outcome
    case None => return root, used, place;
    case Some((now, None)) => return root, now, place;
    case Some((now, Some(id))) => return id, now, place;
  }

  /** Inserting a whole run and then searching: the code finds the tuple inserted under the key, or
      nothing if there was none. */
  method InsertAllAndSearch(store: PageStore, start: nat, ts: seq<IndexTuple>, size: nat, ids: PageIds, depth: nat, key: Bytes)
    returns (found: seq<IndexTuple>)
    requires PageSize(size) && EmptyTree(Tree(store.pages, start, 0)) && FreshIds(ids, start, 2) && depth >= 1
    requires GoodRun(Tree(store.pages, start, 0), ts, size, ids, depth)
    modifies store
    ensures found == Answer(ContentsOf(ts), key)
  {
    hide InsertInto, GoodRun, Represents, SearchableBelow, ProperBelow, Search, EmptyTree;
    ghost var empty := Tree(store.pages, start, 0);
    var root, used := start, 0;
    for i := 0 to |ts|
      invariant Tree(store.pages, root, used) == InsertAll(empty, ts[..i], size, ids, depth)
    {
      PrefixRepresents(empty, ts, i, size, ids, depth);
      RepresentedIsSearchable(Tree(store.pages, root, used), ContentsOf(ts[..i]), size, start, ids, ts[i].key, depth);
      ghost var before, above, place := store.pages, root, Lowest;
      root, used, place := InsertMultipage(store, root, ts[i], size, ids, used, depth);
      SearchableHasOnePlace(before, above, ts[i], size, depth, place);
      assert ts[..i + 1][..i] == ts[..i];
    }
    assert ts[..|ts|] == ts;
    SearchAfterRun(empty, ts, size, ids, depth, key, depth);
    var results := SearchPage(store, root, key, depth);
    found := results.value;
  }

  /** Every prefix of a good run leaves a tree that represents it, and the next key is new to it. */
  lemma PrefixRepresents(start: Tree, ts: seq<IndexTuple>, i: nat, size: nat, ids: PageIds, depth: nat)
    requires PageSize(size) && EmptyTree(start) && FreshIds(ids, start.root, 2) && depth >= 1
    requires GoodRun(start, ts, size, ids, depth) && i < |ts|
    ensures Represents(InsertAll(start, ts[..i], size, ids, depth), ContentsOf(ts[..i]), size, start.root, ids)
    ensures ts[i].key !in ContentsOf(ts[..i])
  {
    hide SmallEntry, LeafHasRoom, InsertAll, Represents;
    GoodPrefix(start, ts, i, size, ids, depth);
    ZeroPageIsEmptyLeaf(start.pages, start.root, size);
    RunRepresents(start, ts[..i], size, ids, depth);
    ContentsKeys(ts[..i], ts[i].key);
  }
}
