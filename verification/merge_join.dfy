/** The sort-merge join of src/executor/select/algorithms.rs and the join dispatch of
    src/executor/select/joins.rs. */
module MergeJoins {
  import opened Wrappers
  import opened Order
  import opened JoinReference
  import opened JoinAlgorithms

  datatype Keyed = Keyed(item: Item, key: string)

  /** An undefined key is taken as the empty string. */
  function KeyOrDefault(k: Option<string>): string {
    if k.Some? then k.value else ""
  }

  /** Rows match when their defaulted keys are equal. */
  function DefaultedMatch(on: Equality): Matcher {
    (l: Row, r: Row) => KeyOrDefault(on.leftKey(l)) == KeyOrDefault(on.rightKey(r))
  }

  function Items(s: seq<Keyed>): seq<Item> {
    seq(|s|, i requires 0 <= i < |s| => s[i].item)
  }

  // ---- sorting by key -------------------------------------------------------

  ghost predicate Sorted(s: seq<Keyed>) {
    forall i, j :: 0 <= i < j < |s| ==> TextAtMost(s[i].key, s[j].key)
  }

  /** Insertion after every entry whose key is not larger, which keeps the sort stable. */
  function Insert(x: Keyed, s: seq<Keyed>): seq<Keyed> {
    if s == [] || TextAtMost(s[|s| - 1].key, x.key) then s + [x]
    else Insert(x, s[..|s| - 1]) + [s[|s| - 1]]
  }

  function StableSort(s: seq<Keyed>): seq<Keyed> {
    if s == [] then [] else Insert(s[|s| - 1], StableSort(s[..|s| - 1]))
  }

  lemma {:induction false} InsertBag(x: Keyed, s: seq<Keyed>)
    ensures multiset(Insert(x, s)) == multiset(s) + multiset{x}
  {
    if s != [] && !TextAtMost(s[|s| - 1].key, x.key) {
      InsertBag(x, s[..|s| - 1]);
      assert s == s[..|s| - 1] + [s[|s| - 1]];
    }
  }

  lemma {:induction false} InsertSorted(x: Keyed, s: seq<Keyed>)
    requires Sorted(s)
    ensures Sorted(Insert(x, s))
  {
    if s == [] {
    } else if TextAtMost(s[|s| - 1].key, x.key) {
      forall i | 0 <= i < |s|
        ensures TextAtMost(s[i].key, x.key)
      {
        if i < |s| - 1 {
          TextAtMostTransitive(s[i].key, s[|s| - 1].key, x.key);
        }
      }
    } else {
      var n := |s| - 1;
      InsertSorted(x, s[..n]);
      InsertBag(x, s[..n]);
      TextTrichotomy(x.key, s[n].key);
      forall y | y in Insert(x, s[..n])
        ensures TextAtMost(y.key, s[n].key)
      {
        assert y in multiset(Insert(x, s[..n]));
        assert y in multiset(s[..n]) || y == x;
      }
    }
  }

  lemma {:induction false} StableSortCorrect(s: seq<Keyed>)
    ensures multiset(StableSort(s)) == multiset(s) && Sorted(StableSort(s))
  {
    assert Sorted([]);
    hide TextLess, Insert, Sorted;
    if s != [] {
      var n := |s| - 1;
      StableSortCorrect(s[..n]);
      InsertBag(s[n], StableSort(s[..n]));
      InsertSorted(s[n], StableSort(s[..n]));
      assert s == s[..n] + [s[n]];
    }
  }

  lemma {:induction false} ItemsBag(s: seq<Keyed>, t: seq<Keyed>)
    requires multiset(s) == multiset(t)
    ensures multiset(Items(s)) == multiset(Items(t))
    decreases |s|
  {
    if s == [] {
      assert |multiset(t)| == 0;
    } else {
      var n := |s| - 1;
      var before, after := Uncover(s, t);
      ItemsBag(s[..n], before + after);
      assert Items(s) == Items(s[..n]) + [s[n].item];
      assert Items(t) == Items(before) + ([s[n].item] + Items(after));
      assert Items(before + after) == Items(before) + Items(after);
    }
  }

  // ---- the merge loop -------------------------------------------------------

  ghost predicate KeyedBy(s: seq<Keyed>, key: Row -> Option<string>) {
    forall k :: 0 <= k < |s| ==> s[k].key == KeyOrDefault(key(s[k].item.row))
  }

  /** Both inputs sorted and keyed: what the merge loop works on. */
  ghost predicate Ready(on: Equality, L: seq<Keyed>, R: seq<Keyed>) {
    Sorted(L) && Sorted(R) && KeyedBy(L, on.leftKey) && KeyedBy(R, on.rightKey)
  }

  /** Keys seen so far on either side are strictly below those still to come on the other. */
  ghost predicate Frontier(L: seq<Keyed>, R: seq<Keyed>, i: nat, j: nat)
    requires i <= |L| && j <= |R|
  {
    && (forall a, b :: 0 <= a < i && j <= b < |R| ==> TextLess(L[a].key, R[b].key))
    && (forall a, b :: i <= a < |L| && 0 <= b < j ==> TextLess(R[b].key, L[a].key))
  }

  /** The items owed for the first `i` left and the first `j` right entries. */
  ghost function MergedBag(on: Equality, L: seq<Keyed>, R: seq<Keyed>, jt: JoinType, i: nat, j: nat,
                           leftWidth: nat, rightWidth: nat): multiset<Item>
    requires i <= |L| && j <= |R|
  {
    ItemBag(FlatMap(LeftPart(DefaultedMatch(on), Items(R), KeepsLeft(jt), rightWidth), Items(L)[..i]))
    + ItemBag(FlatMap(RightPart(DefaultedMatch(on), Items(L), KeepsRight(jt), leftWidth), Items(R)[..j]))
  }

  lemma MergedLeftStep(on: Equality, L: seq<Keyed>, R: seq<Keyed>, jt: JoinType, i: nat, j: nat, lw: nat, rw: nat)
    requires i < |L| && j <= |R|
    ensures MergedBag(on, L, R, jt, i + 1, j, lw, rw)
         == MergedBag(on, L, R, jt, i, j, lw, rw)
          + ItemBag(LeftPart(DefaultedMatch(on), Items(R), KeepsLeft(jt), rw)(L[i].item))
  {
    var f := LeftPart(DefaultedMatch(on), Items(R), KeepsLeft(jt), rw);
    FlatMapSnoc(f, Items(L), i);
    ItemBagConcat(FlatMap(f, Items(L)[..i]), f(L[i].item));
  }

  lemma MergedRightStep(on: Equality, L: seq<Keyed>, R: seq<Keyed>, jt: JoinType, i: nat, j: nat, lw: nat, rw: nat)
    requires i <= |L| && j < |R|
    ensures MergedBag(on, L, R, jt, i, j + 1, lw, rw)
         == MergedBag(on, L, R, jt, i, j, lw, rw)
          + ItemBag(RightPart(DefaultedMatch(on), Items(L), KeepsRight(jt), lw)(R[j].item))
  {
    var f := RightPart(DefaultedMatch(on), Items(L), KeepsRight(jt), lw);
    FlatMapSnoc(f, Items(R), j);
    ItemBagConcat(FlatMap(f, Items(R)[..j]), f(R[j].item));
  }

  /** A left entry that is below the right frontier, or meets no right entry at all, is unmatched. */
  lemma LeftUnmatched(on: Equality, L: seq<Keyed>, R: seq<Keyed>, i: nat, j: nat)
    requires Ready(on, L, R) && i < |L| && j <= |R| && Frontier(L, R, i, j)
    requires j < |R| ==> TextLess(L[i].key, R[j].key)
    ensures Probe(DefaultedMatch(on), L[i].item, Items(R)) == []
  {
    forall r | r in Items(R)
      ensures !DefaultedMatch(on)(L[i].item.row, r.row)
    {
      var b :| 0 <= b < |R| && Items(R)[b] == r;
      EntryBeyond(R, j, b, L[i].key);
    }
    ProbeEmptyIff(DefaultedMatch(on), L[i].item, Items(R));
  }

  lemma EntryBeyond(R: seq<Keyed>, j: nat, b: nat, key: string)
    requires Sorted(R) && j <= |R| && b < |R|
    requires j < |R| ==> TextLess(key, R[j].key)
    requires forall c :: 0 <= c < j ==> TextLess(R[c].key, key)
    ensures R[b].key != key
    ensures j <= b ==> TextLess(key, R[b].key)
  {
    if j < b {
      TextLessAtMost(key, R[j].key, R[b].key);
    }
    TextTrichotomy(key, R[b].key);
  }

  lemma RightUnmatched(on: Equality, L: seq<Keyed>, R: seq<Keyed>, i: nat, j: nat)
    requires Ready(on, L, R) && i <= |L| && j < |R| && Frontier(L, R, i, j)
    requires i < |L| ==> TextLess(R[j].key, L[i].key)
    ensures !MatchesSome(DefaultedMatch(on), Items(L), R[j].item)
  {
    forall a | 0 <= a < |L|
      ensures !DefaultedMatch(on)(Items(L)[a].row, R[j].item.row)
    {
      EntryBeyond(L, i, a, R[j].key);
    }
  }

  lemma FrontierLeftStep(L: seq<Keyed>, R: seq<Keyed>, i: nat, j: nat)
    requires Sorted(L) && Sorted(R) && i < |L| && j <= |R| && Frontier(L, R, i, j)
    requires j < |R| ==> TextLess(L[i].key, R[j].key)
    ensures Frontier(L, R, i + 1, j)
  {
    forall b | j <= b < |R|
      ensures TextLess(L[i].key, R[b].key)
    {
      EntryBeyond(R, j, b, L[i].key);
    }
  }

  lemma FrontierRightStep(L: seq<Keyed>, R: seq<Keyed>, i: nat, j: nat)
    requires Sorted(L) && Sorted(R) && i <= |L| && j < |R| && Frontier(L, R, i, j)
    requires i < |L| ==> TextLess(R[j].key, L[i].key)
    ensures Frontier(L, R, i, j + 1)
  {
    forall a | i <= a < |L|
      ensures TextLess(R[j].key, L[a].key)
    {
      EntryBeyond(L, i, a, R[j].key);
    }
  }

  /** All right entries with `key`, starting at `j`: the inner loop over `k`. */
  method EmitRun(on: Equality, l: Keyed, R: seq<Keyed>, j: nat, rightMatched: array<bool>)
    returns (result: seq<Item>)
    requires Sorted(R) && KeyedBy(R, on.rightKey) && rightMatched.Length == |R|
    requires j < |R| && R[j].key == l.key && l.key == KeyOrDefault(on.leftKey(l.item.row))
    requires forall b :: 0 <= b < j ==> TextLess(R[b].key, l.key)
    modifies rightMatched
    ensures result == Probe(DefaultedMatch(on), l.item, Items(R)) && result != []
    ensures forall b :: 0 <= b < |R| ==> rightMatched[b] == (old(rightMatched[b]) || (j <= b && R[b].key == l.key))
  {
    hide TextLess, ItemBag, FlatMap, Probe;
    ghost var m := DefaultedMatch(on);
    result := [];
    var k := j;
    ProbeBelow(on, l, R, j);
    while k < |R| && R[k].key == l.key
      invariant j <= k <= |R|
      invariant result == Probe(m, l.item, Items(R)[..k]) && (k > j ==> result != [])
      invariant forall b :: j <= b < k ==> R[b].key == l.key
      invariant forall b :: 0 <= b < |R| ==> rightMatched[b] == (old(rightMatched[b]) || (j <= b < k))
    {
      ProbeHit(on, l, R, k);
      result := result + [Item(l.item.tid, l.item.row + R[k].item.row)];
      rightMatched[k] := true;
      k := k + 1;
    }
    ProbeAbove(on, l, R, k);
  }

  lemma ProbeHit(on: Equality, l: Keyed, R: seq<Keyed>, k: nat)
    requires KeyedBy(R, on.rightKey) && k < |R| && R[k].key == l.key
    requires l.key == KeyOrDefault(on.leftKey(l.item.row))
    ensures Probe(DefaultedMatch(on), l.item, Items(R)[..k + 1])
         == Probe(DefaultedMatch(on), l.item, Items(R)[..k]) + [Item(l.item.tid, l.item.row + R[k].item.row)]
  {
    FlatMapSnoc(PairFrom(DefaultedMatch(on), l.item), Items(R), k);
  }

  lemma ProbeBelow(on: Equality, l: Keyed, R: seq<Keyed>, j: nat)
    requires KeyedBy(R, on.rightKey) && j <= |R| && l.key == KeyOrDefault(on.leftKey(l.item.row))
    requires forall b :: 0 <= b < j ==> TextLess(R[b].key, l.key)
    ensures Probe(DefaultedMatch(on), l.item, Items(R)[..j]) == []
  {
    forall r | r in Items(R)[..j]
      ensures !DefaultedMatch(on)(l.item.row, r.row)
    {
      var b :| 0 <= b < j && Items(R)[b] == r;
      TextTrichotomy(R[b].key, l.key);
    }
    ProbeEmptyIff(DefaultedMatch(on), l.item, Items(R)[..j]);
  }

  lemma ProbeAbove(on: Equality, l: Keyed, R: seq<Keyed>, k: nat)
    requires Sorted(R) && KeyedBy(R, on.rightKey) && k <= |R| && l.key == KeyOrDefault(on.leftKey(l.item.row))
    requires k < |R| ==> R[k].key != l.key
    requires 0 < k && R[k - 1].key == l.key
    ensures Probe(DefaultedMatch(on), l.item, Items(R)) == Probe(DefaultedMatch(on), l.item, Items(R)[..k])
    ensures forall b :: k <= b < |R| ==> TextLess(l.key, R[b].key)
  {
    hide TextLess, ItemBag, FlatMap, Probe;
    forall b | k <= b < |R|
      ensures TextLess(l.key, R[b].key)
    {
      AboveRun(R, k - 1, k, b, l.key);
    }
    forall b | k <= b < |Items(R)|
      ensures !DefaultedMatch(on)(l.item.row, Items(R)[b].row)
    {
      TextTrichotomy(l.key, R[b].key);
    }
    ProbePrefix(DefaultedMatch(on), l.item, Items(R), k);
  }

  lemma ProbePrefix(m: Matcher, l: Item, right: seq<Item>, k: nat)
    requires k <= |right|
    requires forall b :: k <= b < |right| ==> !m(l.row, right[b].row)
    ensures Probe(m, l, right) == Probe(m, l, right[..k])
  {
    var f := PairFrom(m, l);
    FlatMapNothing(f, right[k..]);
    FlatMapConcat(f, right[..k], right[k..]);
    assert right == right[..k] + right[k..];
  }

  /** The run of equal keys at (i, j): every left entry with that key meets every right entry with it. */
  method EmitLeftRun(on: Equality, L: seq<Keyed>, R: seq<Keyed>, jt: JoinType, start: nat, j: nat,
                     leftMatched: array<bool>, rightMatched: array<bool>, ghost lw: nat, ghost rw: nat)
    returns (i: nat, result: seq<Item>)
    requires Ready(on, L, R) && leftMatched.Length == |L| && rightMatched.Length == |R|
    requires leftMatched != rightMatched
    requires start < |L| && j < |R| && Frontier(L, R, start, j) && L[start].key == R[j].key
    modifies leftMatched, rightMatched
    ensures start < i <= |L|
    ensures forall a :: start <= a < i ==> L[a].key == R[j].key
    ensures i < |L| ==> L[i].key != R[j].key
    ensures MergedBag(on, L, R, jt, i, j, lw, rw) == MergedBag(on, L, R, jt, start, j, lw, rw) + ItemBag(result)
    ensures forall a :: i <= a < |L| ==> leftMatched[a] == old(leftMatched[a])
    ensures forall b :: 0 <= b < |R| ==> rightMatched[b] == (old(rightMatched[b]) || (j <= b && R[b].key == R[j].key))
  {
    hide TextLess, ItemBag, FlatMap, MergedBag;
    i, result := start, [];
    ItemBagEmpty([]);
    while i < |L| && L[i].key == R[j].key
      invariant start <= i <= |L|
      invariant forall a :: start <= a < i ==> L[a].key == R[j].key
      invariant MergedBag(on, L, R, jt, i, j, lw, rw) == MergedBag(on, L, R, jt, start, j, lw, rw) + ItemBag(result)
      invariant forall a :: i <= a < |L| ==> leftMatched[a] == old(leftMatched[a])
      invariant forall b :: 0 <= b < |R| ==>
        rightMatched[b] == (old(rightMatched[b]) || (start < i && j <= b && R[b].key == R[j].key))
    {
      MergedLeftStep(on, L, R, jt, i, j, lw, rw);
      var run := EmitRun(on, L[i], R, j, rightMatched);
      ItemBagConcat(result, run);
      result := result + run;
      leftMatched[i] := true;
      i := i + 1;
    }
  }

  /** Nothing is owed for a right entry that some left entry matches. */
  lemma MatchedRightStep(on: Equality, L: seq<Keyed>, R: seq<Keyed>, jt: JoinType, start: nat, i: nat, j: nat, lw: nat, rw: nat)
    requires KeyedBy(L, on.leftKey) && KeyedBy(R, on.rightKey)
    requires start < |L| && i <= |L| && j < |R| && L[start].key == R[j].key
    ensures MergedBag(on, L, R, jt, i, j + 1, lw, rw) == MergedBag(on, L, R, jt, i, j, lw, rw)
  {
    hide ItemBag, FlatMap, MergedBag;
    MergedRightStep(on, L, R, jt, i, j, lw, rw);
    assert DefaultedMatch(on)(Items(L)[start].row, R[j].item.row);
    assert MatchesSome(DefaultedMatch(on), Items(L), R[j].item);
    ItemBagEmpty([]);
  }

  /** Past the right entries of a run; they are all matched, so nothing is owed for them. */
  method SkipRightRun(ghost on: Equality, ghost L: seq<Keyed>, R: seq<Keyed>, ghost jt: JoinType, ghost start: nat,
                      ghost i: nat, from: nat, key: string, ghost lw: nat, ghost rw: nat)
    returns (j: nat)
    requires Ready(on, L, R) && start < |L| && i <= |L| && from < |R|
    requires L[start].key == key && R[from].key == key
    ensures from < j <= |R|
    ensures forall b :: from <= b < j ==> R[b].key == key
    ensures j < |R| ==> R[j].key != key
    ensures MergedBag(on, L, R, jt, i, j, lw, rw) == MergedBag(on, L, R, jt, i, from, lw, rw)
  {
    hide Sorted, KeyedBy, MergedBag;
    j := from;
    while j < |R| && R[j].key == key
      invariant from <= j <= |R|
      invariant forall b :: from <= b < j ==> R[b].key == key
      invariant MergedBag(on, L, R, jt, i, j, lw, rw) == MergedBag(on, L, R, jt, i, from, lw, rw)
    {
      MatchedRightStep(on, L, R, jt, start, i, j, lw, rw);
      j := j + 1;
    }
  }

  lemma RunFrontier(L: seq<Keyed>, R: seq<Keyed>, start: nat, from: nat, i: nat, j: nat, key: string)
    requires Sorted(L) && Sorted(R) && start < i <= |L| && from < j <= |R| && Frontier(L, R, start, from)
    requires forall a :: start <= a < i ==> L[a].key == key
    requires forall b :: from <= b < j ==> R[b].key == key
    requires i < |L| ==> L[i].key != key
    requires j < |R| ==> R[j].key != key
    ensures Frontier(L, R, i, j)
  {
    hide TextLess;
    forall b | j <= b < |R|
      ensures TextLess(key, R[b].key)
    {
      AboveRun(R, from, j, b, key);
    }
    forall a | i <= a < |L|
      ensures TextLess(key, L[a].key)
    {
      AboveRun(L, start, i, a, key);
    }
  }

  lemma AboveRun(s: seq<Keyed>, start: nat, end: nat, k: nat, key: string)
    requires Sorted(s) && start < end <= k < |s| && s[start].key == key && s[end].key != key
    ensures TextLess(key, s[k].key)
  {
    hide TextLess;
    TextTrichotomy(key, s[end].key);
    assert TextAtMost(s[start].key, s[end].key);
    if end < k {
      TextLessAtMost(key, s[end].key, s[k].key);
    }
  }

  /** One run of equal keys: both cursors move past it. */
  method MergeRun(on: Equality, L: seq<Keyed>, R: seq<Keyed>, jt: JoinType, start: nat, from: nat,
                  leftMatched: array<bool>, rightMatched: array<bool>, ghost lw: nat, ghost rw: nat)
    returns (i: nat, j: nat, run: seq<Item>)
    requires Ready(on, L, R) && leftMatched.Length == |L| && rightMatched.Length == |R|
    requires leftMatched != rightMatched
    requires start < |L| && from < |R| && Frontier(L, R, start, from) && L[start].key == R[from].key
    modifies leftMatched, rightMatched
    ensures start < i <= |L| && from < j <= |R| && Frontier(L, R, i, j)
    ensures MergedBag(on, L, R, jt, i, j, lw, rw) == MergedBag(on, L, R, jt, start, from, lw, rw) + ItemBag(run)
    ensures forall a :: i <= a < |L| ==> leftMatched[a] == old(leftMatched[a])
    ensures forall b :: j <= b < |R| ==> rightMatched[b] == old(rightMatched[b])
  {
    hide TextLess, ItemBag, FlatMap, MergedBag, Probe;
    var key := L[start].key;
    i, run := EmitLeftRun(on, L, R, jt, start, from, leftMatched, rightMatched, lw, rw);
    j := SkipRightRun(on, L, R, jt, start, i, from, key, lw, rw);
    RunFrontier(L, R, start, from, i, j, key);
    forall b | j <= b < |R|
      ensures R[b].key != key
    {
      AboveRun(R, from, j, b, key);
      TextTrichotomy(key, R[b].key);
    }
  }

  /** The main loop: both cursors move until one side is exhausted. */
  method MergeLoop(on: Equality, L: seq<Keyed>, R: seq<Keyed>, jt: JoinType, lw: nat, rw: nat,
                   leftMatched: array<bool>, rightMatched: array<bool>)
    returns (i: nat, j: nat, result: seq<Item>)
    requires Ready(on, L, R) && leftMatched.Length == |L| && rightMatched.Length == |R|
    requires leftMatched != rightMatched
    requires forall a :: 0 <= a < |L| ==> !leftMatched[a]
    requires forall b :: 0 <= b < |R| ==> !rightMatched[b]
    modifies leftMatched, rightMatched
    ensures i <= |L| && j <= |R| && (i == |L| || j == |R|)
    ensures Frontier(L, R, i, j)
    ensures ItemBag(result) == MergedBag(on, L, R, jt, i, j, lw, rw)
    ensures forall a :: i <= a < |L| ==> !leftMatched[a]
    ensures forall b :: j <= b < |R| ==> !rightMatched[b]
  {
    hide TextLess, ItemBag, FlatMap, MergedBag, Probe;
    i, j, result := 0, 0, [];
    NothingOwed(on, L, R, jt, lw, rw);
    while i < |L| && j < |R|
      invariant i <= |L| && j <= |R|
      invariant Frontier(L, R, i, j)
      invariant ItemBag(result) == MergedBag(on, L, R, jt, i, j, lw, rw)
      invariant forall a :: i <= a < |L| ==> !leftMatched[a]
      invariant forall b :: j <= b < |R| ==> !rightMatched[b]
      decreases |L| + |R| - i - j
    {
      var key := L[i].key;
      TextTrichotomy(key, R[j].key);
      if key == R[j].key {
        var run;
        i, j, run := MergeRun(on, L, R, jt, i, j, leftMatched, rightMatched, lw, rw);
        ItemBagConcat(result, run);
        result := result + run;
      } else if TextLess(key, R[j].key) {
        MergedLeftStep(on, L, R, jt, i, j, lw, rw);
        LeftUnmatched(on, L, R, i, j);
        FrontierLeftStep(L, R, i, j);
        result := PadLeft(result, L[i], KeepsLeft(jt) && !leftMatched[i], rw);
        leftMatched[i] := true;
        i := i + 1;
      } else {
        MergedRightStep(on, L, R, jt, i, j, lw, rw);
        RightUnmatched(on, L, R, i, j);
        FrontierRightStep(L, R, i, j);
        result := PadRight(result, R[j], KeepsRight(jt) && !rightMatched[j], lw);
        rightMatched[j] := true;
        j := j + 1;
      }
    }
  }

  function PadLeft(result: seq<Item>, l: Keyed, pad: bool, width: nat): (r: seq<Item>)
    ensures ItemBag(r) == ItemBag(result) + ItemBag(if pad then [LeftPadded(l.item, width)] else [])
  {
    ItemBagConcat(result, if pad then [LeftPadded(l.item, width)] else []);
    if pad then result + [LeftPadded(l.item, width)] else result
  }

  function PadRight(result: seq<Item>, r: Keyed, pad: bool, width: nat): (s: seq<Item>)
    ensures ItemBag(s) == ItemBag(result) + ItemBag(if pad then [Item(r.item.tid, Pad(width) + r.item.row)] else [])
  {
    ItemBagConcat(result, if pad then [Item(r.item.tid, Pad(width) + r.item.row)] else []);
    if pad then result + [Item(r.item.tid, Pad(width) + r.item.row)] else result
  }

  lemma NothingOwed(on: Equality, L: seq<Keyed>, R: seq<Keyed>, jt: JoinType, lw: nat, rw: nat)
    ensures MergedBag(on, L, R, jt, 0, 0, lw, rw) == ItemBag([])
  {
    assert Items(L)[..0] == [] && Items(R)[..0] == [];
  }

  /** The two closing loops pad whatever is left on either side. */
  method DrainLoops(on: Equality, L: seq<Keyed>, R: seq<Keyed>, jt: JoinType, lw: nat, rw: nat,
                    leftMatched: array<bool>, rightMatched: array<bool>, i0: nat, j0: nat, start: seq<Item>)
    returns (result: seq<Item>)
    requires Ready(on, L, R) && leftMatched.Length == |L| && rightMatched.Length == |R|
    requires i0 <= |L| && j0 <= |R| && (i0 == |L| || j0 == |R|) && Frontier(L, R, i0, j0)
    requires ItemBag(start) == MergedBag(on, L, R, jt, i0, j0, lw, rw)
    requires forall a :: i0 <= a < |L| ==> !leftMatched[a]
    requires forall b :: j0 <= b < |R| ==> !rightMatched[b]
    ensures ItemBag(result) == MergedBag(on, L, R, jt, |L|, |R|, lw, rw)
  {
    hide TextLess, ItemBag, FlatMap, MergedBag, Probe;
    var i, j := i0, j0;
    result := start;
    ItemBagEmpty([]);
    if KeepsLeft(jt) {
      while i < |L|
        invariant i0 <= i <= |L| && Frontier(L, R, i, j)
        invariant ItemBag(result) == MergedBag(on, L, R, jt, i, j, lw, rw)
      {
        MergedLeftStep(on, L, R, jt, i, j, lw, rw);
        LeftUnmatched(on, L, R, i, j);
        FrontierLeftStep(L, R, i, j);
        result := PadLeft(result, L[i], !leftMatched[i], rw);
        i := i + 1;
      }
    } else {
      RestOfLeftOwesNothing(on, L, R, jt, i, j, lw, rw);
    }
    if KeepsRight(jt) {
      while j < |R|
        invariant j0 <= j <= |R| && Frontier(L, R, |L|, j)
        invariant ItemBag(result) == MergedBag(on, L, R, jt, |L|, j, lw, rw)
      {
        MergedRightStep(on, L, R, jt, |L|, j, lw, rw);
        RightUnmatched(on, L, R, |L|, j);
        FrontierRightStep(L, R, |L|, j);
        result := PadRight(result, R[j], !rightMatched[j], lw);
        j := j + 1;
      }
    } else {
      RestOfRightOwesNothing(on, L, R, jt, j, lw, rw);
    }
  }

  lemma RestOfLeftOwesNothing(on: Equality, L: seq<Keyed>, R: seq<Keyed>, jt: JoinType, i: nat, j: nat, lw: nat, rw: nat)
    requires Ready(on, L, R) && i <= |L| && j <= |R| && (i == |L| || j == |R|) && Frontier(L, R, i, j) && !KeepsLeft(jt)
    ensures MergedBag(on, L, R, jt, |L|, j, lw, rw) == MergedBag(on, L, R, jt, i, j, lw, rw)
    ensures Frontier(L, R, |L|, j)
    decreases |L| - i
  {
    hide TextLess, ItemBag, FlatMap, MergedBag, Probe;
    if i < |L| {
      ItemBagEmpty([]);
      MergedLeftStep(on, L, R, jt, i, j, lw, rw);
      LeftUnmatched(on, L, R, i, j);
      FrontierLeftStep(L, R, i, j);
      RestOfLeftOwesNothing(on, L, R, jt, i + 1, j, lw, rw);
    }
  }

  lemma RestOfRightOwesNothing(on: Equality, L: seq<Keyed>, R: seq<Keyed>, jt: JoinType, j: nat, lw: nat, rw: nat)
    requires j <= |R| && !KeepsRight(jt)
    ensures MergedBag(on, L, R, jt, |L|, |R|, lw, rw) == MergedBag(on, L, R, jt, |L|, j, lw, rw)
    decreases |R| - j
  {
    hide TextLess, ItemBag, FlatMap, MergedBag, Probe;
    if j < |R| {
      ItemBagEmpty([]);
      MergedRightStep(on, L, R, jt, |L|, j, lw, rw);
      RestOfRightOwesNothing(on, L, R, jt, j + 1, lw, rw);
    }
  }

  // ---- from the sorted inputs back to the given ones ------------------------

  lemma ProbePermutation(m: Matcher, l: Item, s: seq<Item>, t: seq<Item>)
    requires multiset(s) == multiset(t)
    ensures ItemBag(Probe(m, l, s)) == ItemBag(Probe(m, l, t))
    ensures Probe(m, l, s) == [] <==> Probe(m, l, t) == []
  {
    FlatMapPermutation(PairFrom(m, l), s, t);
    ItemBagEmpty(Probe(m, l, s));
    ItemBagEmpty(Probe(m, l, t));
  }

  lemma LeftPartPermutation(m: Matcher, s: seq<Item>, t: seq<Item>, left: seq<Item>, keep: bool, width: nat)
    requires multiset(s) == multiset(t)
    ensures ItemBag(FlatMap(LeftPart(m, s, keep, width), left)) == ItemBag(FlatMap(LeftPart(m, t, keep, width), left))
  {
    hide ItemBag, FlatMap;
    forall l | l in left
      ensures ItemBag(LeftPart(m, s, keep, width)(l)) == ItemBag(LeftPart(m, t, keep, width)(l))
    {
      ProbePermutation(m, l, s, t);
    }
    FlatMapItemsEqual(LeftPart(m, s, keep, width), LeftPart(m, t, keep, width), left);
  }

  lemma MatchesSomePermutation(m: Matcher, s: seq<Item>, t: seq<Item>, r: Item)
    requires multiset(s) == multiset(t)
    requires MatchesSome(m, s, r)
    ensures MatchesSome(m, t, r)
  {
    var i :| 0 <= i < |s| && m(s[i].row, r.row);
    assert s[i] in multiset(t);
    var j :| 0 <= j < |t| && t[j] == s[i];
  }

  lemma RightPartPermutation(m: Matcher, s: seq<Item>, t: seq<Item>, right: seq<Item>, keep: bool, width: nat)
    requires multiset(s) == multiset(t)
    ensures FlatMap(RightPart(m, s, keep, width), right) == FlatMap(RightPart(m, t, keep, width), right)
  {
    forall r | r in right
      ensures RightPart(m, s, keep, width)(r) == RightPart(m, t, keep, width)(r)
    {
      if MatchesSome(m, s, r) {
        MatchesSomePermutation(m, s, t, r);
      }
      if MatchesSome(m, t, r) {
        MatchesSomePermutation(m, t, s, r);
      }
    }
    FlatMapEqual(RightPart(m, s, keep, width), RightPart(m, t, keep, width), right);
  }

  /** What a join of either kind owes: the items of the left part, and the unmatched right ones. */
  function JoinItems(m: Matcher, left: seq<Item>, right: seq<Item>, jt: JoinType): seq<Item> {
    FlatMap(LeftPart(m, right, KeepsLeft(jt), RightPadWidth(left, right)), left)
    + FlatMap(RightPart(m, left, KeepsRight(jt), Width(left)), right)
  }

  lemma JoinItemsRows(m: Matcher, left: seq<Item>, right: seq<Item>, jt: JoinType)
    ensures RowBag(JoinItems(m, left, right, jt)) == JoinBag(m, left, right, jt)
  {
    RowBagConcat(FlatMap(LeftPart(m, right, KeepsLeft(jt), RightPadWidth(left, right)), left),
                 FlatMap(RightPart(m, left, KeepsRight(jt), Width(left)), right));
  }

  /** Sorting both inputs does not change what the join owes. */
  lemma {:induction false} MergedBagIsJoinBag(on: Equality, L: seq<Keyed>, R: seq<Keyed>, left: seq<Item>, right: seq<Item>, jt: JoinType)
    requires multiset(Items(L)) == multiset(left) && multiset(Items(R)) == multiset(right)
    ensures MergedBag(on, L, R, jt, |L|, |R|, Width(left), RightPadWidth(left, right))
         == ItemBag(JoinItems(DefaultedMatch(on), left, right, jt))
  {
    hide ItemBag, FlatMap;
    var m, lw, rw := DefaultedMatch(on), Width(left), RightPadWidth(left, right);
    assert Items(L)[..|L|] == Items(L) && Items(R)[..|R|] == Items(R);
    LeftPartPermutation(m, Items(R), right, Items(L), KeepsLeft(jt), rw);
    FlatMapPermutation(LeftPart(m, right, KeepsLeft(jt), rw), Items(L), left);
    RightPartPermutation(m, Items(L), left, Items(R), KeepsRight(jt), lw);
    FlatMapPermutation(RightPart(m, left, KeepsRight(jt), lw), Items(R), right);
    ItemBagConcat(FlatMap(LeftPart(m, right, KeepsLeft(jt), rw), left), FlatMap(RightPart(m, left, KeepsRight(jt), lw), right));
  }

  // ---- the join -------------------------------------------------------------

  function WithKeys(s: seq<Item>, key: Row -> Option<string>): seq<Keyed> {
    seq(|s|, i requires 0 <= i < |s| => Keyed(s[i], KeyOrDefault(key(s[i].row))))
  }

  lemma {:induction false} SortedInput(s: seq<Item>, key: Row -> Option<string>)
    ensures Sorted(StableSort(WithKeys(s, key)))
    ensures KeyedBy(StableSort(WithKeys(s, key)), key)
    ensures multiset(Items(StableSort(WithKeys(s, key)))) == multiset(s)
  {
    var given, sorted := WithKeys(s, key), StableSort(WithKeys(s, key));
    StableSortCorrect(given);
    ItemsBag(sorted, given);
    assert Items(given) == s;
    forall k | 0 <= k < |sorted|
      ensures sorted[k].key == KeyOrDefault(key(sorted[k].item.row))
    {
      assert sorted[k] in multiset(given);
      assert sorted[k] in given;
    }
  }

  /** With an empty side there is nothing to match: left rows are padded by the first left row's width,
      right rows by nothing. */
  method EmptySideJoin(left: seq<Item>, right: seq<Item>, jt: JoinType) returns (result: seq<Item>)
    requires left == [] || right == []
    ensures result == (if KeepsLeft(jt) then FlatMap(PadEvery(RightPadWidth(left, right)), left) else [])
                    + (if KeepsRight(jt) then FlatMap(PadEveryRight(Width(left)), right) else [])
    ensures |result| == (if jt == Left || jt == Full then |left| else 0) + (if jt == Right || jt == Full then |right| else 0)
    ensures jt == Left || jt == Full ==> forall i :: 0 <= i < |left| ==>
      result[i] == Item(left[i].tid, left[i].row + seq(|left[0].row|, _ => ""))
    ensures jt == Right || jt == Full ==> forall j :: 0 <= j < |right| ==> result[j] == right[j]
  {
    hide FlatMap;
    FlatMapNil(PadEvery(RightPadWidth(left, right)));
    FlatMapNil(PadEveryRight(Width(left)));
    result := [];
    if KeepsLeft(jt) {
      for i := 0 to |left|
        invariant result == FlatMap(PadEvery(RightPadWidth(left, right)), left[..i]) && |result| == i
        invariant forall k :: 0 <= k < i ==> result[k] == LeftPadded(left[k], RightPadWidth(left, right))
      {
        FlatMapSnoc(PadEvery(RightPadWidth(left, right)), left, i);
        result := result + [LeftPadded(left[i], RightPadWidth(left, right))];
      }
      assert left[..|left|] == left;
    }
    assert left != [] ==> Pad(|left[0].row|) == seq(|left[0].row|, _ => "");
    ghost var before := result;
    if KeepsRight(jt) {
      for j := 0 to |right|
        invariant result == before + FlatMap(PadEveryRight(Width(left)), right[..j]) && |result| == |before| + j
        invariant before <= result
        invariant forall k :: 0 <= k < j ==> result[|before| + k] == right[k]
      {
        FlatMapSnoc(PadEveryRight(Width(left)), right, j);
        assert Pad(Width(left)) + right[j].row == right[j].row;
        result := result + [Item(right[j].tid, Pad(Width(left)) + right[j].row)];
      }
      assert right[..|right|] == right;
    }
  }

  function PadEvery(width: nat): Emitter {
    (l: Item) => [LeftPadded(l, width)]
  }

  function PadEveryRight(width: nat): Emitter {
    (r: Item) => [Item(r.tid, Pad(width) + r.row)]
  }

  lemma EmptySideIsJoin(m: Matcher, left: seq<Item>, right: seq<Item>, jt: JoinType)
    requires left == [] || right == []
    ensures (if KeepsLeft(jt) then FlatMap(PadEvery(RightPadWidth(left, right)), left) else [])
          + (if KeepsRight(jt) then FlatMap(PadEveryRight(Width(left)), right) else [])
         == JoinItems(m, left, right, jt)
  {
    var lp := LeftPart(m, right, KeepsLeft(jt), RightPadWidth(left, right));
    var rp := RightPart(m, left, KeepsRight(jt), Width(left));
    if KeepsLeft(jt) {
      FlatMapEqual(lp, PadEvery(RightPadWidth(left, right)), left);
    } else {
      FlatMapNothing(lp, left);
    }
    if KeepsRight(jt) {
      FlatMapEqual(rp, PadEveryRight(Width(left)), right);
    } else {
      FlatMapNothing(rp, right);
    }
  }

  /** `merge_join`: the items it returns are those of the nested loop over defaulted keys. */
  method MergeJoin(on: Equality, left: seq<Item>, right: seq<Item>, jt: JoinType) returns (result: seq<Item>)
    ensures ItemBag(result) == ItemBag(JoinItems(DefaultedMatch(on), left, right, jt))
    ensures RowBag(result) == JoinBag(DefaultedMatch(on), left, right, jt)
  {
    hide RowBag, ItemBag, FlatMap, JoinBag, JoinItems, MergedBag;
    JoinItemsRows(DefaultedMatch(on), left, right, jt);
    if left == [] || right == [] {
      result := EmptySideJoin(left, right, jt);
      EmptySideIsJoin(DefaultedMatch(on), left, right, jt);
      return;
    }
    var L, R := StableSort(WithKeys(left, on.leftKey)), StableSort(WithKeys(right, on.rightKey));
    SortedInput(left, on.leftKey);
    SortedInput(right, on.rightKey);
    var leftMatched := new bool[|L|](i => false);
    var rightMatched := new bool[|R|](i => false);
    var lw, rw := Width(left), RightPadWidth(left, right);
    var i, j, merged := MergeLoop(on, L, R, jt, lw, rw, leftMatched, rightMatched);
    result := DrainLoops(on, L, R, jt, lw, rw, leftMatched, rightMatched, i, j, merged);
    MergedBagIsJoinBag(on, L, R, left, right, jt);
    ItemBagRows(result, JoinItems(DefaultedMatch(on), left, right, jt));
  }
}
