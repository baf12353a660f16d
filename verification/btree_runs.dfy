/** Runs of insertions into an empty tree, and what searching finds after them. */
module BTreeRuns {
  import opened Wrappers
  import opened Order
  import opened ByteCodec
  import opened BTreePages
  import opened BTreeCodec
  import opened BTrees
  import opened BTreeRefinement
  import opened BTreeSplits
  import opened BTreeLost

  /** The first `count` page numbers handed out differ from each other and from the root's, and all fit
      their four bytes. */
  ghost predicate FreshIds(ids: PageIds, root: nat, count: nat) {
    && (forall i, j :: 0 <= i < j < count ==> ids(i) != ids(j))
    && (forall i: nat :: i < count ==> ids(i) != root)
    && root < U32 && forall i: nat :: ids(i) < U32
  }

  // ---- runs -----------------------------------------------------------------

  datatype Tree = Tree(pages: Pages, root: nat, used: nat)

  /** One insertion through the current root. */
  function InsertInto(tree: Tree, t: IndexTuple, size: nat, ids: PageIds, depth: nat, place: Place := Lowest): Tree
    requires size >= HEADER
  {
    match Insert(tree.pages, tree.root, t, size, ids, tree.used, true, depth, place)
    case Some(o) => Tree(o.pages, NewRoot(o, tree.root), o.used)
    case None => tree
  }

  function InsertAll(tree: Tree, ts: seq<IndexTuple>, size: nat, ids: PageIds, depth: nat): Tree
    requires size >= HEADER
  {
    if ts == [] then tree else InsertInto(InsertAll(tree, ts[..|ts| - 1], size, ids, depth), ts[|ts| - 1], size, ids, depth)
  }

  function ContentsOf(ts: seq<IndexTuple>): Contents {
    if ts == [] then map[]
    else ContentsOf(ts[..|ts| - 1])[ts[|ts| - 1].key := (ts[|ts| - 1].page, ts[|ts| - 1].offset)]
  }

  /** Below an existing root, the leaf an insertion reaches is not full. */
  predicate LeafHasRoom(tree: Tree, key: Bytes, size: nat) {
    var page := ReadTreePage(tree.pages, tree.root);
    page.kind == Root ==> !IsFull(ReadTreePage(tree.pages, FindChild(page, key)), size)
  }

  /** Small, distinct keys, and no leaf below the root is hit while full. */
  ghost predicate GoodRun(start: Tree, ts: seq<IndexTuple>, size: nat, ids: PageIds, depth: nat)
    requires size >= HEADER
  {
    && (forall i :: 0 <= i < |ts| ==> SmallEntry(ts[i], size))
    && (forall i, j :: 0 <= i < j < |ts| ==> ts[i].key != ts[j].key)
    && (forall i :: 0 <= i < |ts| ==> LeafHasRoom(InsertAll(start, ts[..i], size, ids, depth), ts[i].key, size))
  }

  /** The start page is still the only leaf, or it and the first new page are the leaves below the second. */
  ghost predicate Represents(tree: Tree, m: Contents, size: nat, start: nat, ids: PageIds) {
    || (OneLeaf(tree.pages, tree.root, m, size) && tree.root == start && tree.used == 0)
    || (tree.root == ids(1) && tree.used == 2 && SplitAt(tree.pages, tree.root, start, ids(0), m, size))
  }

  ghost predicate SplitAt(pages: Pages, root: nat, l: nat, r: nat, m: Contents, size: nat) {
    exists sep :: TwoLevels(pages, root, sep, l, r, m, size)
  }

  lemma SearchRepresents(tree: Tree, m: Contents, size: nat, start: nat, ids: PageIds, key: Bytes, depth: nat)
    requires Represents(tree, m, size, start, ids) && depth >= 1
    ensures Search(tree.pages, tree.root, key, depth) == Some(Answer(m, key))
  {
    hide TwoLevels, OneLeaf, Search;
    if OneLeaf(tree.pages, tree.root, m, size) {
      SearchOneLeaf(tree.pages, tree.root, m, size, key, depth);
    } else {
      var sep :| TwoLevels(tree.pages, tree.root, sep, start, ids(0), m, size);
      SearchTwoLevels(tree.pages, tree.root, sep, start, ids(0), m, size, key, depth);
    }
  }

  lemma InsertRepresents(tree: Tree, m: Contents, size: nat, start: nat, t: IndexTuple, ids: PageIds, depth: nat)
    requires PageSize(size) && Represents(tree, m, size, start, ids) && SmallEntry(t, size) && t.key !in m
    requires FreshIds(ids, start, 2) && LeafHasRoom(tree, t.key, size) && depth >= 1
    ensures Represents(InsertInto(tree, t, size, ids, depth), m[t.key := (t.page, t.offset)], size, start, ids)
  {
    hide ReadTreePage, NodeKeys, KeysAre, SmallEntry, Insert, FindChild, LeafAt;
    if OneLeaf(tree.pages, tree.root, m, size) && tree.root == start && tree.used == 0 {
      if IsFull(ReadTreePage(tree.pages, tree.root), size) {
        InsertSplits(tree.pages, tree.root, m, size, t, ids, tree.used, depth);
      } else {
        InsertWithRoom(tree.pages, tree.root, m, size, t, ids, tree.used, true, depth);
      }
    } else {
      var sep :| TwoLevels(tree.pages, tree.root, sep, start, ids(0), m, size);
      InsertBelowRoot(tree.pages, tree.root, sep, start, ids(0), m, size, t, ids, tree.used, depth);
    }
  }

  /** Looking that deep, every key inserted so far is found with its tuple, and no other key is found. */
  ghost predicate Refines(tree: Tree, m: Contents, look: nat) {
    forall key :: Search(tree.pages, tree.root, key, look) == Some(Answer(m, key))
  }

  lemma NoLeafUnderRoot(tree: Tree, key: Bytes, size: nat)
    requires !LeafHasRoom(tree, key, size)
    ensures !LeafAt(tree.pages, tree.root, size)
  {}

  lemma RepresentsRefines(tree: Tree, m: Contents, size: nat, start: nat, ids: PageIds, look: nat)
    requires Represents(tree, m, size, start, ids) && look >= 1
    ensures Refines(tree, m, look)
  {
    hide Represents, Search;
    forall key
      ensures Search(tree.pages, tree.root, key, look) == Some(Answer(m, key))
    {
      SearchRepresents(tree, m, size, start, ids, key, look);
    }
  }

  /** An insertion into a full leaf below the root: a key is in no page of the tree any more. */
  lemma {:induction false} RunForgets(tree: Tree, m: Contents, size: nat, start: nat, t: IndexTuple, ids: PageIds, depth: nat)
    returns (lost: Bytes, s: set<nat>)
    requires PageSize(size) && Represents(tree, m, size, start, ids) && SmallEntry(t, size) && t.key !in m && depth >= 1
    requires FreshIds(ids, start, 5) && !LeafHasRoom(tree, t.key, size)
    ensures lost in m && Forgotten(InsertInto(tree, t, size, ids, depth), lost, s, start, ids)
  {
    hide ReadTreePage, NodeKeys, KeysAre, SmallEntry, Insert, FindChild, LeafAt, Absent, Less, RootOverTwo;
    NoLeafUnderRoot(tree, t.key, size);
    var sep: Bytes :| TwoLevels(tree.pages, tree.root, sep, start, ids(0), m, size);
    FullBelowRoot(tree, sep, start, ids(0), m, size, t.key, ids);
    lost, s := FullLeafForgets(tree.pages, tree.root, sep, start, ids(0), m, size, t, ids, 2, depth);
    var after := InsertInto(tree, t, size, ids, depth);
    NewIdsGrow(ids, 0, 2, after.used);
    assert ids(0) in NewIds(ids, 0, 2) && ids(1) in NewIds(ids, 0, 2);
  }

  lemma FullBelowRoot(tree: Tree, sep: Bytes, l: nat, r: nat, m: Contents, size: nat, key: Bytes, ids: PageIds)
    requires PageSize(size) && TwoLevels(tree.pages, tree.root, sep, l, r, m, size) && !LeafHasRoom(tree, key, size)
    requires tree.root == ids(1) && FreshIds(ids, l, 5) && r == ids(0)
    ensures FullBelow(tree.pages, tree.root, sep, l, r, key, size, ids, 2)
  {
    hide ReadTreePage, NodeKeys, KeysAre, Less, FindChild;
    RootDescends(ReadTreePage(tree.pages, tree.root), sep, l, r, key);
    TwoEntriesFit(size, |sep|);
  }

  /** No page that can be reached, nor any that was handed out, holds the key. */
  ghost predicate Forgotten(tree: Tree, lost: Bytes, s: set<nat>, start: nat, ids: PageIds) {
    && tree.root in s && Absent(tree.pages, s, lost) && s <= {start} + NewIds(ids, 0, tree.used)
  }

  lemma ForgottenNotFound(tree: Tree, lost: Bytes, s: set<nat>, start: nat, ids: PageIds, m: Contents, look: nat)
    requires Forgotten(tree, lost, s, start, ids) && lost in m
    ensures !Refines(tree, m, look)
  {
    hide Absent, Search;
    AbsentNotFound(tree.pages, s, lost, tree.root, look);
    assert Answer(m, lost) != [];
  }

  /** In a tree that refines its map, inserting a new key keeps it so if and only if the leaf it
      reaches below the root has room, however deep one looks. */
  lemma {:induction false} InsertRefinesIff(tree: Tree, m: Contents, size: nat, start: nat, t: IndexTuple, ids: PageIds, depth: nat, look: nat)
    requires PageSize(size) && Represents(tree, m, size, start, ids) && SmallEntry(t, size) && t.key !in m
    requires FreshIds(ids, start, 5) && depth >= 1 && look >= 1
    ensures Refines(InsertInto(tree, t, size, ids, depth), m[t.key := (t.page, t.offset)], look) <==> LeafHasRoom(tree, t.key, size)
  {
    hide Represents, Refines, Forgotten, InsertInto, LeafHasRoom, SmallEntry;
    var m' := m[t.key := (t.page, t.offset)];
    var after := InsertInto(tree, t, size, ids, depth);
    if LeafHasRoom(tree, t.key, size) {
      InsertRepresents(tree, m, size, start, t, ids, depth);
      RepresentsRefines(after, m', size, start, ids, look);
    } else {
      var lost, s := RunForgets(tree, m, size, start, t, ids, depth);
      ForgottenNotFound(after, lost, s, start, ids, m', look);
    }
  }

  lemma {:induction false} ContentsKeys(ts: seq<IndexTuple>, key: Bytes)
    ensures key in ContentsOf(ts) <==> exists i :: 0 <= i < |ts| && ts[i].key == key
  {
    if ts != [] {
      var n := |ts| - 1;
      ContentsKeys(ts[..n], key);
      assert forall i :: 0 <= i < n ==> ts[..n][i] == ts[i];
      if ts[n].key != key {
        assert key in ContentsOf(ts) <==> key in ContentsOf(ts[..n]);
      }
    }
  }

  lemma {:induction false} RunRepresents(start: Tree, ts: seq<IndexTuple>, size: nat, ids: PageIds, depth: nat)
    requires PageSize(size) && start.used == 0 && FreshIds(ids, start.root, 2) && depth >= 1
    requires OneLeaf(start.pages, start.root, map[], size)
    requires GoodRun(start, ts, size, ids, depth)
    ensures Represents(InsertAll(start, ts, size, ids, depth), ContentsOf(ts), size, start.root, ids)
    decreases |ts|
  {
    hide ReadTreePage, NodeKeys, KeysAre, SmallEntry, InsertInto, LeafHasRoom, LeafAt, OneLeaf;
    if ts == [] {
      assert Represents(start, map[], size, start.root, ids);
    } else {
      var n := |ts| - 1;
      GoodPrefix(start, ts, n, size, ids, depth);
      RunRepresents(start, ts[..n], size, ids, depth);
      ContentsKeys(ts[..n], ts[n].key);
      assert ts[n].key !in ContentsOf(ts[..n]) by {
        assert forall i :: 0 <= i < n ==> ts[..n][i] == ts[i];
      }
      InsertRepresents(InsertAll(start, ts[..n], size, ids, depth), ContentsOf(ts[..n]), size, start.root, ts[n], ids, depth);
    }
  }

  lemma {:induction false} GoodPrefix(start: Tree, ts: seq<IndexTuple>, n: nat, size: nat, ids: PageIds, depth: nat)
    requires size >= HEADER && n <= |ts| && GoodRun(start, ts, size, ids, depth)
    ensures GoodRun(start, ts[..n], size, ids, depth)
  {
    hide SmallEntry, LeafHasRoom, InsertAll;
    var shorter := ts[..n];
    forall i | 0 <= i < |shorter|
      ensures SmallEntry(shorter[i], size) && LeafHasRoom(InsertAll(start, shorter[..i], size, ids, depth), shorter[i].key, size)
    {
      assert shorter[..i] == ts[..i] && shorter[i] == ts[i];
    }
  }

  /** The root page was never written, or is all zero. */
  predicate EmptyTree(start: Tree) {
    && start.used == 0
    && (start.root in start.pages ==> |start.pages[start.root]| >= 16 && start.pages[start.root] == Zeros(|start.pages[start.root]|))
  }

  /** After any such run of insertions from an empty root page, across the split of the root leaf,
      searching the current root finds for each key exactly the tuple inserted under it. */
  lemma SearchAfterRun(start: Tree, ts: seq<IndexTuple>, size: nat, ids: PageIds, depth: nat, key: Bytes, look: nat)
    requires PageSize(size) && EmptyTree(start) && FreshIds(ids, start.root, 2)
    requires GoodRun(start, ts, size, ids, depth) && depth >= 1 && look >= 1
    ensures var tree := InsertAll(start, ts, size, ids, depth);
      Search(tree.pages, tree.root, key, look) == Some(Answer(ContentsOf(ts), key))
  {
    hide SmallEntry, InsertInto, InsertAll, OneLeaf, Search, GoodRun, Represents;
    ZeroPageIsEmptyLeaf(start.pages, start.root, size);
    RunRepresents(start, ts, size, ids, depth);
    SearchRepresents(InsertAll(start, ts, size, ids, depth), ContentsOf(ts), size, start.root, ids, key, look);
  }

  // ---- a whole run ------------------------------------------------------------

  ghost predicate SmallDistinct(ts: seq<IndexTuple>, size: nat) {
    && (forall i :: 0 <= i < |ts| ==> SmallEntry(ts[i], size))
    && (forall i, j :: 0 <= i < j < |ts| ==> ts[i].key != ts[j].key)
  }

  /** An insertion never gives a page number back. */
  lemma UsedGrows(tree: Tree, t: IndexTuple, size: nat, ids: PageIds, depth: nat)
    requires size >= HEADER
    ensures InsertInto(tree, t, size, ids, depth).used >= tree.used
  {
    hide Insert;
    InsertUses(tree.pages, tree.root, t, size, ids, tree.used, true, depth, Lowest);
  }

  /** Once forgotten, a key stays so while other keys are inserted, whatever becomes of the tree. */
  lemma ForgottenStays(tree: Tree, t: IndexTuple, size: nat, ids: PageIds, depth: nat, lost: Bytes, s: set<nat>, start: nat, count: nat)
    returns (s': set<nat>)
    requires PageSize(size) && Forgotten(tree, lost, s, start, ids) && SmallEntry(t, size) && t.key != lost
    requires InsertInto(tree, t, size, ids, depth).used <= count && FreshIds(ids, start, count)
    ensures Forgotten(InsertInto(tree, t, size, ids, depth), lost, s', start, ids)
  {
    hide Absent, Insert, EntryStorable;
    var after := InsertInto(tree, t, size, ids, depth);
    UsedGrows(tree, t, size, ids, depth);
    s' := s;
    if Insert(tree.pages, tree.root, t, size, ids, tree.used, true, depth, Lowest).Some? {
      forall i | tree.used <= i < after.used
        ensures ids(i) !in s
      {}
      InsertKeepsAbsent(tree.pages, tree.root, t, size, ids, tree.used, true, depth, Lowest, s, lost);
      NewIdsGrow(ids, 0, tree.used, after.used);
      s' := s + NewIds(ids, tree.used, after.used);
    }
  }

  /** From distinct small keys inserted into an empty tree: the run is remembered in full if and only if
      no leaf below the root was ever hit while full. A key once lost is never found again, however the
      run goes on and however deep the tree becomes. */
  lemma {:induction false} RunRefinesIff(start: Tree, ts: seq<IndexTuple>, size: nat, ids: PageIds, depth: nat, look: nat, count: nat)
    requires PageSize(size) && EmptyTree(start) && SmallDistinct(ts, size) && depth >= 1 && look >= 1
    requires count >= 5 && count >= InsertAll(start, ts, size, ids, depth).used && FreshIds(ids, start.root, count)
    ensures Refines(InsertAll(start, ts, size, ids, depth), ContentsOf(ts), look) <==> GoodRun(start, ts, size, ids, depth)
  {
    hide ReadTreePage, SmallEntry, InsertInto, LeafHasRoom, OneLeaf, Represents, Refines, Forgotten, InsertAll, SmallDistinct, GoodRun;
    ZeroPageIsEmptyLeaf(start.pages, start.root, size);
    if GoodRun(start, ts, size, ids, depth) {
      RunRepresents(start, ts, size, ids, depth);
      RepresentsRefines(InsertAll(start, ts, size, ids, depth), ContentsOf(ts), size, start.root, ids, look);
    } else {
      var lost, s := BadRunForgets(start, ts, size, ids, depth, count);
      ForgottenNotFound(InsertAll(start, ts, size, ids, depth), lost, s, start.root, ids, ContentsOf(ts), look);
    }
  }

  lemma {:induction false} BadRunForgets(start: Tree, ts: seq<IndexTuple>, size: nat, ids: PageIds, depth: nat, count: nat)
    returns (lost: Bytes, s: set<nat>)
    requires PageSize(size) && EmptyTree(start) && SmallDistinct(ts, size) && depth >= 1
    requires count >= 5 && count >= InsertAll(start, ts, size, ids, depth).used && FreshIds(ids, start.root, count)
    requires !GoodRun(start, ts, size, ids, depth)
    ensures lost in ContentsOf(ts) && Forgotten(InsertAll(start, ts, size, ids, depth), lost, s, start.root, ids)
    decreases |ts|
  {
    hide ReadTreePage, SmallEntry, InsertInto, LeafHasRoom, OneLeaf, Represents, Forgotten, SmallDistinct;
    BadRunIsNotEmpty(start, ts, size, ids, depth);
    var n := |ts| - 1;
    var before := InsertAll(start, ts[..n], size, ids, depth);
    NewKey(ts, size);
    UsedGrows(before, ts[n], size, ids, depth);
    if GoodRun(start, ts[..n], size, ids, depth) {
      ZeroPageIsEmptyLeaf(start.pages, start.root, size);
      RunRepresents(start, ts[..n], size, ids, depth);
      LastIsBad(start, ts, size, ids, depth);
      lost, s := RunForgets(before, ContentsOf(ts[..n]), size, start.root, ts[n], ids, depth);
    } else {
      var s0;
      lost, s0 := BadRunForgets(start, ts[..n], size, ids, depth, count);
      s := ForgottenStays(before, ts[n], size, ids, depth, lost, s0, start.root, count);
    }
  }

  lemma BadRunIsNotEmpty(start: Tree, ts: seq<IndexTuple>, size: nat, ids: PageIds, depth: nat)
    requires size >= HEADER && !GoodRun(start, ts, size, ids, depth)
    ensures ts != []
  {}

  lemma LastIsBad(start: Tree, ts: seq<IndexTuple>, size: nat, ids: PageIds, depth: nat)
    requires size >= HEADER && SmallDistinct(ts, size) && !GoodRun(start, ts, size, ids, depth) && ts != []
    requires GoodRun(start, ts[..|ts| - 1], size, ids, depth)
    ensures !LeafHasRoom(InsertAll(start, ts[..|ts| - 1], size, ids, depth), ts[|ts| - 1].key, size)
  {
    hide SmallEntry, LeafHasRoom, InsertAll;
    var n := |ts| - 1;
    if LeafHasRoom(InsertAll(start, ts[..n], size, ids, depth), ts[n].key, size) {
      forall i | 0 <= i < |ts|
        ensures LeafHasRoom(InsertAll(start, ts[..i], size, ids, depth), ts[i].key, size)
      {
        if i < n {
          assert ts[..n][..i] == ts[..i] && ts[..n][i] == ts[i];
        }
      }
    }
  }

  // ---- how much the tree can remember -----------------------------------------

  ghost function KeySet(keys: seq<IndexTuple>): set<Bytes> {
    set i | 0 <= i < |keys| :: keys[i].key
  }

  lemma {:induction false} KeySetSize(keys: seq<IndexTuple>)
    ensures |KeySet(keys)| <= |keys|
    decreases |keys|
  {
    if keys == [] {
      assert KeySet(keys) == {};
    } else {
      var n := |keys| - 1;
      KeySetSize(keys[..n]);
      assert KeySet(keys) == KeySet(keys[..n]) + {keys[n].key};
    }
  }

  lemma KeysCover(keys: seq<IndexTuple>, m: Contents)
    requires KeysAre(keys, m)
    ensures m.Keys <= KeySet(keys)
  {
    forall k | k in m
      ensures k in KeySet(keys)
    {
      assert HasKey(keys, k);
    }
  }

  lemma {:induction false} ContentsSize(ts: seq<IndexTuple>, size: nat)
    requires SmallDistinct(ts, size)
    ensures |ContentsOf(ts).Keys| == |ts|
    decreases |ts|
  {
    hide SmallDistinct;
    if ts != [] {
      var n := |ts| - 1;
      NewKey(ts, size);
      ContentsSize(ts[..n], size);
      assert ContentsOf(ts).Keys == ContentsOf(ts[..n]).Keys + {ts[n].key};
    }
  }

  lemma SizeOfUnion(a: set<Bytes>, b: set<Bytes>)
    ensures |a + b| <= |a| + |b|
  {
    assert |a + b| == |a| + |b - a| by {
      assert a + b == a + (b - a);
    }
    assert |b| == |b - a| + |b * a| by {
      assert b == (b - a) + b * a;
    }
  }

  /** A tree that represents a map holds it in one page or in two. */
  lemma RepresentsAtMost(tree: Tree, m: Contents, size: nat, start: nat, ids: PageIds)
    requires Represents(tree, m, size, start, ids)
    ensures |m.Keys| <= 2 * (size / 64)
  {
    hide ReadTreePage, KeysAre, Less;
    if OneLeaf(tree.pages, tree.root, m, size) {
      var keys := ReadTreePage(tree.pages, tree.root).keys;
      KeysCover(keys, m);
      KeySetSize(keys);
      SubsetSize(m.Keys, KeySet(keys));
    } else {
      var sep :| TwoLevels(tree.pages, tree.root, sep, start, ids(0), m, size);
      var (left, right) := (ReadTreePage(tree.pages, start).keys, ReadTreePage(tree.pages, ids(0)).keys);
      KeysCover(left, PartBelow(m, sep));
      KeysCover(right, PartFrom(m, sep));
      KeySetSize(left);
      KeySetSize(right);
      assert m.Keys <= KeySet(left) + KeySet(right) by {
        assert forall k :: k in m ==> k in PartBelow(m, sep) || k in PartFrom(m, sep);
      }
      SizeOfUnion(KeySet(left), KeySet(right));
      SubsetSize(m.Keys, KeySet(left) + KeySet(right));
    }
  }

  lemma SubsetSize(a: set<Bytes>, b: set<Bytes>)
    requires a <= b
    ensures |a| <= |b|
  {
    assert b == a + (b - a);
  }

  /** So of more distinct keys than two full pages take, whatever their order, some key is lost. */
  lemma {:induction false} TwoPagesAreAll(start: Tree, ts: seq<IndexTuple>, size: nat, ids: PageIds, depth: nat, look: nat, count: nat)
    requires PageSize(size) && EmptyTree(start) && SmallDistinct(ts, size) && depth >= 1 && look >= 1
    requires count >= 5 && count >= InsertAll(start, ts, size, ids, depth).used && FreshIds(ids, start.root, count)
    requires |ts| > 2 * (size / 64)
    ensures !Refines(InsertAll(start, ts, size, ids, depth), ContentsOf(ts), look)
  {
    hide InsertAll, Represents, Refines, SmallDistinct, GoodRun, OneLeaf, ContentsOf;
    RunRefinesIff(start, ts, size, ids, depth, look, count);
    if GoodRun(start, ts, size, ids, depth) {
      ZeroPageIsEmptyLeaf(start.pages, start.root, size);
      RunRepresents(start, ts, size, ids, depth);
      RepresentsAtMost(InsertAll(start, ts, size, ids, depth), ContentsOf(ts), size, start.root, ids);
      ContentsSize(ts, size);
    }
  }

  // ---- runs that split the root leaf ------------------------------------------

  lemma NoKeys(keys: seq<IndexTuple>)
    requires KeysAre(keys, map[])
    ensures keys == []
  {
    if keys != [] {
      KeyInMap(keys, map[], 0);
    }
  }

  lemma NewKey(ts: seq<IndexTuple>, size: nat)
    requires SmallDistinct(ts, size) && ts != []
    ensures var n := |ts| - 1;
      SmallDistinct(ts[..n], size) && SmallEntry(ts[n], size) && ts[n].key !in ContentsOf(ts[..n])
  {
    hide SmallEntry;
    var n := |ts| - 1;
    ContentsKeys(ts[..n], ts[n].key);
    assert forall i :: 0 <= i < n ==> ts[..n][i] == ts[i];
  }

  /** As long as a page has room, everything goes into the root leaf. */
  lemma {:induction false} FirstInsertions(start: Tree, ts: seq<IndexTuple>, size: nat, ids: PageIds, depth: nat)
    requires PageSize(size) && start.used == 0 && OneLeaf(start.pages, start.root, map[], size)
    requires SmallDistinct(ts, size) && |ts| <= size / 64
    ensures var tree := InsertAll(start, ts, size, ids, depth);
      && tree.root == start.root && tree.used == 0 && OneLeaf(tree.pages, start.root, ContentsOf(ts), size)
      && |ReadTreePage(tree.pages, start.root).keys| == |ts|
    decreases |ts|
  {
    hide ReadTreePage, NodeKeys, KeysAre, SmallEntry, Insert, LeafAt, SmallDistinct;
    if ts == [] {
      NoKeys(ReadTreePage(start.pages, start.root).keys);
    } else {
      var n := |ts| - 1;
      NewKey(ts, size);
      FirstInsertions(start, ts[..n], size, ids, depth);
      var tree := InsertAll(start, ts[..n], size, ids, depth);
      InsertWithRoom(tree.pages, tree.root, ContentsOf(ts[..n]), size, ts[n], ids, 0, true, depth);
    }
  }

  lemma PrefixDistinct(ts: seq<IndexTuple>, n: nat, size: nat)
    requires SmallDistinct(ts, size) && n <= |ts|
    ensures SmallDistinct(ts[..n], size)
  {
    hide SmallEntry;
    assert forall i :: 0 <= i < n ==> ts[..n][i] == ts[i];
  }

  lemma LeafRootHasRoom(tree: Tree, m: Contents, key: Bytes, size: nat)
    requires OneLeaf(tree.pages, tree.root, m, size)
    ensures LeafHasRoom(tree, key, size)
  {
    hide ReadTreePage, FindChild;
  }

  /** One key more than a page takes: the run is a good one, and it splits the root leaf. */
  lemma RunSplits(start: Tree, ts: seq<IndexTuple>, size: nat, ids: PageIds, depth: nat)
    requires PageSize(size) && start.used == 0 && FreshIds(ids, start.root, 2)
    requires OneLeaf(start.pages, start.root, map[], size)
    requires SmallDistinct(ts, size) && |ts| == size / 64 + 1
    ensures GoodRun(start, ts, size, ids, depth)
    ensures var tree := InsertAll(start, ts, size, ids, depth);
      tree.root == ids(1) && tree.used == 2 && SplitAt(tree.pages, ids(1), start.root, ids(0), ContentsOf(ts), size)
  {
    hide ReadTreePage, NodeKeys, KeysAre, SmallEntry, Insert, LeafAt, OneLeaf, InsertInto, LeafHasRoom, TwoLevels;
    forall i | 0 <= i < |ts|
      ensures LeafHasRoom(InsertAll(start, ts[..i], size, ids, depth), ts[i].key, size)
    {
      PrefixDistinct(ts, i, size);
      FirstInsertions(start, ts[..i], size, ids, depth);
      LeafRootHasRoom(InsertAll(start, ts[..i], size, ids, depth), ContentsOf(ts[..i]), ts[i].key, size);
    }
    NewKey(ts, size);
    LastSplits(start, ts, size, ids, depth);
  }

  lemma LastSplits(start: Tree, ts: seq<IndexTuple>, size: nat, ids: PageIds, depth: nat)
    requires PageSize(size) && start.used == 0 && FreshIds(ids, start.root, 2)
    requires OneLeaf(start.pages, start.root, map[], size)
    requires SmallDistinct(ts, size) && |ts| == size / 64 + 1
    ensures var tree := InsertAll(start, ts, size, ids, depth);
      tree.root == ids(1) && tree.used == 2 && SplitAt(tree.pages, ids(1), start.root, ids(0), ContentsOf(ts), size)
  {
    hide ReadTreePage, NodeKeys, KeysAre, SmallEntry, Insert, LeafAt, OneLeaf, TwoLevels, SmallDistinct;
    var n := |ts| - 1;
    NewKey(ts, size);
    FirstInsertions(start, ts[..n], size, ids, depth);
    var tree := InsertAll(start, ts[..n], size, ids, depth);
    InsertSplits(tree.pages, tree.root, ContentsOf(ts[..n]), size, ts[n], ids, 0, depth);
  }

  // ---- such runs exist ------------------------------------------------------

  /** Two-byte keys, counting up. */
  function Counting(n: nat): seq<IndexTuple> {
    seq(n, i requires 0 <= i < n => IndexTuple(ToLE(i, 2), i, 0, 0))
  }

  lemma CountingIsSmallDistinct(n: nat, size: nat)
    requires n <= 0x1_0000 && size >= 128
    ensures SmallDistinct(Counting(n), size)
  {
    hide ToLE, MaxEntry;
    MaxEntryIs(size);
    var ts := Counting(n);
    forall i, j | 0 <= i < j < n
      ensures ts[i].key != ts[j].key
    {
      FromTo16(i);
      FromTo16(j);
    }
  }

  /** For every page size there is a run from an empty store that meets all that is asked of a run and
      splits the root leaf. */
  lemma SplittingRunExists(size: nat, depth: nat, count: nat) returns (start: Tree, ts: seq<IndexTuple>, ids: PageIds)
    requires PageSize(size) && 2 <= count <= 0x1_0000
    ensures start == Tree(map[], 1, 0) && FreshIds(ids, start.root, count) && GoodRun(start, ts, size, ids, depth)
    ensures InsertAll(start, ts, size, ids, depth).root == ids(1) && ids(1) != start.root
  {
    hide SmallEntry, OneLeaf, InsertAll, LeafHasRoom, SmallDistinct, Counting, SplitAt;
    start, ts, ids := Tree(map[], 1, 0), Counting(size / 64 + 1), i => 2 + i % 0x1_0000;
    assert FreshIds(ids, start.root, count);
    CountingIsSmallDistinct(size / 64 + 1, size);
    CountingSize(size / 64 + 1);
    ZeroPageIsEmptyLeaf(map[], 1, size);
    RunSplits(start, ts, size, ids, depth);
  }

  lemma CountingSize(n: nat)
    ensures |Counting(n)| == n
  {}
}
