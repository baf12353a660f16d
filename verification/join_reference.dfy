/** The nested-loop join of src/executor/select/joins.rs: the simple form that the
    hash and merge joins must agree with. */
module JoinReference {

  type Row = seq<string>

  datatype Tid = Tid(page: nat, offset: nat)

  datatype Item = Item(tid: Tid, row: Row)

  datatype JoinType = Inner | Left | Right | Full | Cross | Lateral

  /** Does the ON condition hold for a left and a right row? */
  type Matcher = (Row, Row) -> bool

  type Emitter = Item -> seq<Item>

  const NO_TID := Tid(0, 0)

  function Pad(width: nat): Row {
    seq(width, i => "")
  }

  /** Width of the first row, 0 for an empty input. */
  function Width(items: seq<Item>): nat {
    if items == [] then 0 else |items[0].row|
  }

  /** What each item of `s` emits, in order. */
  function FlatMap(f: Emitter, s: seq<Item>): seq<Item> {
    if s == [] then [] else FlatMap(f, s[..|s| - 1]) + f(s[|s| - 1])
  }

  /** The rows of a result, tuple identifiers dropped, counted with multiplicity. */
  ghost function RowBag(items: seq<Item>): multiset<Row> {
    if items == [] then multiset{} else RowBag(items[..|items| - 1]) + multiset{items[|items| - 1].row}
  }

  // ---- emitters -------------------------------------------------------------

  /** Left row `l` against one right row. */
  function PairFrom(m: Matcher, l: Item): Emitter {
    (r: Item) => if m(l.row, r.row) then [Item(l.tid, l.row + r.row)] else []
  }

  function Probe(m: Matcher, l: Item, right: seq<Item>): seq<Item> {
    FlatMap(PairFrom(m, l), right)
  }

  function InnerOf(m: Matcher, right: seq<Item>): Emitter {
    (l: Item) => Probe(m, l, right)
  }

  function LeftPadded(l: Item, width: nat): Item {
    Item(l.tid, l.row + Pad(width))
  }

  function LeftOf(m: Matcher, right: seq<Item>, width: nat): Emitter {
    (l: Item) => if Probe(m, l, right) == [] then [LeftPadded(l, width)] else Probe(m, l, right)
  }

  /** Right row `r` against one left row; the result carries the right row's identifier. */
  function PairInto(m: Matcher, r: Item): Emitter {
    (l: Item) => if m(l.row, r.row) then [Item(r.tid, l.row + r.row)] else []
  }

  function ProbeBack(m: Matcher, r: Item, left: seq<Item>): seq<Item> {
    FlatMap(PairInto(m, r), left)
  }

  function RightOf(m: Matcher, left: seq<Item>, width: nat): Emitter {
    (r: Item) => if ProbeBack(m, r, left) == [] then [Item(r.tid, Pad(width) + r.row)] else ProbeBack(m, r, left)
  }

  predicate MatchesSome(m: Matcher, left: seq<Item>, r: Item) {
    exists i :: 0 <= i < |left| && m(left[i].row, r.row)
  }

  function RightPadOf(m: Matcher, left: seq<Item>, width: nat): Emitter {
    (r: Item) => if MatchesSome(m, left, r) then [] else [Item(r.tid, Pad(width) + r.row)]
  }

  function Everything(): Matcher {
    (l: Row, r: Row) => true
  }

  /** The rows `nested_loop_join` produces, in its own order. */
  function NestedLoop(m: Matcher, left: seq<Item>, right: seq<Item>, jt: JoinType, leftWidth: nat, rightWidth: nat)
    : seq<Item>
  {
    match jt
    case Inner => FlatMap(InnerOf(m, right), left)
    case Left => FlatMap(LeftOf(m, right, rightWidth), left)
    case Right => FlatMap(RightOf(m, left, leftWidth), right)
    case Full => FlatMap(LeftOf(m, right, rightWidth), left) + FlatMap(RightPadOf(m, left, leftWidth), right)
    case Cross => FlatMap(InnerOf(Everything(), right), left)
    case Lateral => FlatMap(InnerOf(Everything(), right), left)
  }

  // ---- bag algebra ----------------------------------------------------------

  lemma {:induction false} RowBagConcat(a: seq<Item>, b: seq<Item>)
    ensures RowBag(a + b) == RowBag(a) + RowBag(b)
  {
    if b == [] {
      assert a + b == a;
    } else {
      assert (a + b)[..|a + b| - 1] == a + b[..|b| - 1];
      RowBagConcat(a, b[..|b| - 1]);
    }
  }

  lemma {:induction false} FlatMapConcat(f: Emitter, s: seq<Item>, t: seq<Item>)
    ensures FlatMap(f, s + t) == FlatMap(f, s) + FlatMap(f, t)
  {
    if t == [] {
      assert s + t == s;
    } else {
      assert (s + t)[..|s + t| - 1] == s + t[..|t| - 1];
      FlatMapConcat(f, s, t[..|t| - 1]);
    }
  }

  lemma FlatMapSnoc(f: Emitter, s: seq<Item>, n: nat)
    requires n < |s|
    ensures FlatMap(f, s[..n + 1]) == FlatMap(f, s[..n]) + f(s[n])
  {
    assert s[..n + 1][..n] == s[..n];
  }

  lemma FlatMapNil(f: Emitter)
    ensures FlatMap(f, []) == []
  {}

  lemma FlatMapSingle(f: Emitter, x: Item)
    ensures FlatMap(f, [x]) == f(x)
  {
    assert [x][..0] == [];
    assert FlatMap(f, [x]) == FlatMap(f, []) + f(x);
  }

  /** The last element of `s` occurs in any permutation of `s`; deleting it from both leaves permutations. */
  lemma Uncover<T>(s: seq<T>, t: seq<T>) returns (before: seq<T>, after: seq<T>)
    requires s != [] && multiset(s) == multiset(t)
    ensures t == before + ([s[|s| - 1]] + after)
    ensures multiset(s[..|s| - 1]) == multiset(before + after)
  {
    var n := |s| - 1;
    assert s[n] in multiset(t);
    var p :| 0 <= p < |t| && t[p] == s[n];
    before, after := t[..p], t[p + 1..];
    assert t == before + ([s[n]] + after);
    assert s == s[..n] + [s[n]];
    assert multiset(s[..n]) == multiset(s) - multiset{s[n]};
  }

  /** The items of a result, identifiers included, counted with multiplicity. */
  ghost function ItemBag(items: seq<Item>): multiset<Item> {
    multiset(items)
  }

  lemma ItemBagConcat(a: seq<Item>, b: seq<Item>)
    ensures ItemBag(a + b) == ItemBag(a) + ItemBag(b)
  {}

  lemma ItemBagEmpty(s: seq<Item>)
    ensures ItemBag(s) == multiset{} <==> s == []
  {
    if s != [] {
      assert s[0] in multiset(s);
    }
  }

  /** The same items have the same rows. */
  lemma {:induction false} ItemBagRows(s: seq<Item>, t: seq<Item>)
    requires ItemBag(s) == ItemBag(t)
    ensures RowBag(s) == RowBag(t)
    decreases |s|
  {
    if s == [] {
      assert |multiset(t)| == 0;
    } else {
      var n := |s| - 1;
      var before, after := Uncover(s, t);
      ItemBagRows(s[..n], before + after);
      RowBagConcat(before, after);
      RowBagConcat([s[n]], after);
      RowBagConcat(before, [s[n]] + after);
      assert [s[n]][..0] == [];
      assert RowBag([s[n]]) == RowBag([]) + multiset{s[n].row};
      BagRotate(RowBag(before), RowBag([s[n]]), RowBag(after));
    }
  }

  lemma BagRotate<T>(a: multiset<T>, x: multiset<T>, b: multiset<T>)
    ensures a + (x + b) == (a + b) + x
  {}

  /** A contribution from the middle may be moved to the end. */
  lemma FlatMapMoveToEnd(f: Emitter, a: seq<Item>, x: Item, b: seq<Item>)
    ensures ItemBag(FlatMap(f, a + ([x] + b))) == ItemBag(FlatMap(f, a + b)) + ItemBag(f(x))
  {
    FlatMapConcat(f, a, [x] + b);
    FlatMapConcat(f, [x], b);
    FlatMapConcat(f, a, b);
    FlatMapSingle(f, x);
    BagRotate(ItemBag(FlatMap(f, a)), ItemBag(f(x)), ItemBag(FlatMap(f, b)));
  }

  /** Order of the input does not matter for the bag of items produced. */
  lemma {:induction false} FlatMapPermutation(f: Emitter, s: seq<Item>, t: seq<Item>)
    requires multiset(s) == multiset(t)
    ensures ItemBag(FlatMap(f, s)) == ItemBag(FlatMap(f, t))
    decreases |s|
  {
    if s == [] {
      assert |multiset(t)| == 0;
    } else {
      var n := |s| - 1;
      var before, after := Uncover(s, t);
      FlatMapPermutation(f, s[..n], before + after);
      FlatMapMoveToEnd(f, before, s[n], after);
    }
  }

  /** Emitters that agree on items give the same items. */
  lemma {:induction false} FlatMapItemsEqual(f: Emitter, g: Emitter, s: seq<Item>)
    requires forall x | x in s :: ItemBag(f(x)) == ItemBag(g(x))
    ensures ItemBag(FlatMap(f, s)) == ItemBag(FlatMap(g, s))
  {
    if s != [] {
      FlatMapItemsEqual(f, g, s[..|s| - 1]);
    }
  }

  /** Emitters that agree on bags give the same bag. */
  lemma {:induction false} FlatMapBagEqual(f: Emitter, g: Emitter, s: seq<Item>)
    requires forall x | x in s :: RowBag(f(x)) == RowBag(g(x))
    ensures RowBag(FlatMap(f, s)) == RowBag(FlatMap(g, s))
  {
    if s != [] {
      var n := |s| - 1;
      FlatMapBagEqual(f, g, s[..n]);
      RowBagConcat(FlatMap(f, s[..n]), f(s[n]));
      RowBagConcat(FlatMap(g, s[..n]), g(s[n]));
    }
  }

  lemma {:induction false} FlatMapEqual(f: Emitter, g: Emitter, s: seq<Item>)
    requires forall x | x in s :: f(x) == g(x)
    ensures FlatMap(f, s) == FlatMap(g, s)
  {
    if s != [] {
      FlatMapEqual(f, g, s[..|s| - 1]);
    }
  }

  /** An emitter that is the concatenation of two splits into two passes. */
  lemma {:induction false} FlatMapSplit(f: Emitter, g: Emitter, h: Emitter, s: seq<Item>)
    requires forall x | x in s :: RowBag(f(x)) == RowBag(g(x)) + RowBag(h(x))
    ensures RowBag(FlatMap(f, s)) == RowBag(FlatMap(g, s)) + RowBag(FlatMap(h, s))
  {
    if s != [] {
      var n := |s| - 1;
      FlatMapSplit(f, g, h, s[..n]);
      RowBagConcat(FlatMap(f, s[..n]), f(s[n]));
      RowBagConcat(FlatMap(g, s[..n]), g(s[n]));
      RowBagConcat(FlatMap(h, s[..n]), h(s[n]));
    }
  }

  lemma {:induction false} FlatMapNothing(f: Emitter, s: seq<Item>)
    requires forall x | x in s :: f(x) == []
    ensures FlatMap(f, s) == []
  {
    if s != [] {
      FlatMapNothing(f, s[..|s| - 1]);
    }
  }

  lemma {:induction false} FlatMapEmptyIff(f: Emitter, s: seq<Item>)
    ensures FlatMap(f, s) == [] <==> forall x | x in s :: f(x) == []
  {
    if s != [] {
      var n := |s| - 1;
      FlatMapEmptyIff(f, s[..n]);
      assert s == s[..n] + [s[n]];
    }
  }

  // ---- row-major and column-major traversals --------------------------------

  /** All matching pairs, walked right row by right row. */
  function InnerBackOf(m: Matcher, left: seq<Item>): Emitter {
    (r: Item) => ProbeBack(m, r, left)
  }

  /** Extending the left input by one row adds that row's pairs to the column-major walk. */
  lemma InnerBackSnoc(m: Matcher, left: seq<Item>, l: Item, right: seq<Item>)
    ensures RowBag(FlatMap(InnerBackOf(m, left + [l]), right))
         == RowBag(FlatMap(InnerBackOf(m, left), right)) + RowBag(Probe(m, l, right))
  {
    forall r | r in right
      ensures RowBag(InnerBackOf(m, left + [l])(r)) == RowBag(InnerBackOf(m, left)(r)) + RowBag(PairFrom(m, l)(r))
    {
      FlatMapConcat(PairInto(m, r), left, [l]);
      FlatMapSingle(PairInto(m, r), l);
      RowBagConcat(ProbeBack(m, r, left), PairInto(m, r)(l));
      RowBagOfPair(m, l, r);
    }
    FlatMapSplit(InnerBackOf(m, left + [l]), InnerBackOf(m, left), PairFrom(m, l), right);
  }

  lemma RowBagOfPair(m: Matcher, l: Item, r: Item)
    ensures RowBag(PairInto(m, r)(l)) == RowBag(PairFrom(m, l)(r))
  {
    if m(l.row, r.row) {
      var a, b := Item(r.tid, l.row + r.row), Item(l.tid, l.row + r.row);
      assert [a][..0] == [] && [b][..0] == [];
      assert RowBag([a]) == RowBag([]) + multiset{a.row};
      assert RowBag([b]) == RowBag([]) + multiset{b.row};
    }
  }

  /** Exchanging the two loops keeps the bag of joined rows. */
  lemma {:induction false} LoopExchange(m: Matcher, left: seq<Item>, right: seq<Item>)
    ensures RowBag(FlatMap(InnerOf(m, right), left)) == RowBag(FlatMap(InnerBackOf(m, left), right))
  {
    if left == [] {
      FlatMapNothing(InnerBackOf(m, left), right);
    } else {
      var n := |left| - 1;
      LoopExchange(m, left[..n], right);
      assert left == left[..n] + [left[n]];
      InnerBackSnoc(m, left[..n], left[n], right);
      RowBagConcat(FlatMap(InnerOf(m, right), left[..n]), Probe(m, left[n], right));
    }
  }

  lemma ProbeBackEmptyIff(m: Matcher, left: seq<Item>, r: Item)
    ensures ProbeBack(m, r, left) == [] <==> !MatchesSome(m, left, r)
  {
    FlatMapEmptyIff(PairInto(m, r), left);
    if MatchesSome(m, left, r) {
      var i :| 0 <= i < |left| && m(left[i].row, r.row);
      assert PairInto(m, r)(left[i]) != [];
    }
  }

  lemma ProbeEmptyIff(m: Matcher, l: Item, right: seq<Item>)
    ensures Probe(m, l, right) == [] <==> forall r | r in right :: !m(l.row, r.row)
  {
    FlatMapEmptyIff(PairFrom(m, l), right);
    forall r | r in right
      ensures PairFrom(m, l)(r) == [] <==> !m(l.row, r.row)
    {}
  }

  /** A right join is the inner join plus one padded row for each unmatched right row. */
  lemma RightJoinSplits(m: Matcher, left: seq<Item>, right: seq<Item>, width: nat)
    ensures RowBag(FlatMap(RightOf(m, left, width), right))
         == RowBag(FlatMap(InnerOf(m, right), left)) + RowBag(FlatMap(RightPadOf(m, left, width), right))
  {
    forall r | r in right
      ensures RowBag(RightOf(m, left, width)(r))
           == RowBag(InnerBackOf(m, left)(r)) + RowBag(RightPadOf(m, left, width)(r))
    {
      ProbeBackEmptyIff(m, left, r);
    }
    FlatMapSplit(RightOf(m, left, width), InnerBackOf(m, left), RightPadOf(m, left, width), right);
    LoopExchange(m, left, right);
  }

  // ---- the loops of joins.rs ------------------------------------------------

  /** The condition as evaluated by joins.rs: on the combined row. */
  function OnCombined(cond: Row -> bool): Matcher {
    (l: Row, r: Row) => cond(l + r)
  }

  method ProbeLoop(cond: Row -> bool, l: Item, right: seq<Item>) returns (result: seq<Item>, found: bool)
    ensures result == Probe(OnCombined(cond), l, right)
    ensures found <==> result != []
  {
    result, found := [], false;
    for j := 0 to |right|
      invariant result == Probe(OnCombined(cond), l, right[..j])
      invariant found <==> result != []
    {
      FlatMapSnoc(PairFrom(OnCombined(cond), l), right, j);
      var combined := l.row + right[j].row;
      if cond(combined) {
        found := true;
        result := result + [Item(l.tid, combined)];
      }
    }
    assert right[..|right|] == right;
  }

  method NestedLoopJoin(cond: Row -> bool, left: seq<Item>, right: seq<Item>, jt: JoinType, rightWidth: nat)
    returns (result: seq<Item>)
    ensures result == NestedLoop(OnCombined(cond), left, right, jt, Width(left), rightWidth)
  {
    ghost var m := OnCombined(cond);
    result := [];
    match jt {
      case Inner =>
        for i := 0 to |left|
          invariant result == FlatMap(InnerOf(m, right), left[..i])
        {
          FlatMapSnoc(InnerOf(m, right), left, i);
          var matches, _ := ProbeLoop(cond, left[i], right);
          result := result + matches;
        }
        assert left[..|left|] == left;
      case Left =>
        for i := 0 to |left|
          invariant result == FlatMap(LeftOf(m, right, rightWidth), left[..i])
        {
          FlatMapSnoc(LeftOf(m, right, rightWidth), left, i);
          var matches, found := ProbeLoop(cond, left[i], right);
          result := result + matches;
          if !found {
            result := result + [LeftPadded(left[i], rightWidth)];
          }
        }
        assert left[..|left|] == left;
      case Right =>
        result := RightLoops(cond, left, right);
      case Full =>
        result := FullLoops(cond, left, right, rightWidth);
      case Cross =>
        result := CrossLoops(left, right);
      case Lateral =>
        result := CrossLoops(left, right);
    }
  }

  method ProbeBackLoop(cond: Row -> bool, r: Item, left: seq<Item>) returns (result: seq<Item>, found: bool)
    ensures result == ProbeBack(OnCombined(cond), r, left)
    ensures found <==> result != []
  {
    result, found := [], false;
    for i := 0 to |left|
      invariant result == ProbeBack(OnCombined(cond), r, left[..i])
      invariant found <==> result != []
    {
      FlatMapSnoc(PairInto(OnCombined(cond), r), left, i);
      var combined := left[i].row + r.row;
      if cond(combined) {
        found := true;
        result := result + [Item(r.tid, combined)];
      }
    }
    assert left[..|left|] == left;
  }

  method RightLoops(cond: Row -> bool, left: seq<Item>, right: seq<Item>) returns (result: seq<Item>)
    ensures result == FlatMap(RightOf(OnCombined(cond), left, Width(left)), right)
  {
    result := [];
    for j := 0 to |right|
      invariant result == FlatMap(RightOf(OnCombined(cond), left, Width(left)), right[..j])
    {
      FlatMapSnoc(RightOf(OnCombined(cond), left, Width(left)), right, j);
      var matches, found := ProbeBackLoop(cond, right[j], left);
      result := result + matches;
      if !found {
        result := result + [Item(right[j].tid, Pad(Width(left)) + right[j].row)];
      }
    }
    assert right[..|right|] == right;
  }

  /** One pass of the full join's inner loop; it also marks the right rows that matched. */
  method ProbeAndMark(cond: Row -> bool, l: Item, right: seq<Item>, rightMatched: array<bool>)
    returns (result: seq<Item>, found: bool)
    requires rightMatched.Length == |right|
    modifies rightMatched
    ensures result == Probe(OnCombined(cond), l, right)
    ensures found <==> result != []
    ensures forall k :: 0 <= k < |right| ==>
      (rightMatched[k] <==> old(rightMatched[k]) || OnCombined(cond)(l.row, right[k].row))
  {
    result, found := [], false;
    for j := 0 to |right|
      invariant result == Probe(OnCombined(cond), l, right[..j])
      invariant found <==> result != []
      invariant forall k :: 0 <= k < j ==>
        (rightMatched[k] <==> old(rightMatched[k]) || OnCombined(cond)(l.row, right[k].row))
      invariant forall k :: j <= k < |right| ==> rightMatched[k] == old(rightMatched[k])
    {
      FlatMapSnoc(PairFrom(OnCombined(cond), l), right, j);
      var combined := l.row + right[j].row;
      if cond(combined) {
        found := true;
        rightMatched[j] := true;
        result := result + [Item(l.tid, combined)];
      }
    }
    assert right[..|right|] == right;
  }

  method FullLoops(cond: Row -> bool, left: seq<Item>, right: seq<Item>, rightWidth: nat) returns (result: seq<Item>)
    ensures result == FlatMap(LeftOf(OnCombined(cond), right, rightWidth), left)
                    + FlatMap(RightPadOf(OnCombined(cond), left, Width(left)), right)
  {
    hide FlatMap, Probe;
    ghost var m := OnCombined(cond);
    FlatMapNil(LeftOf(m, right, rightWidth));
    var rightMatched := new bool[|right|](i => false);
    result := [];
    for i := 0 to |left|
      invariant result == FlatMap(LeftOf(m, right, rightWidth), left[..i])
      invariant forall j :: 0 <= j < |right| ==> (rightMatched[j] <==> MatchesSome(m, left[..i], right[j]))
    {
      FlatMapSnoc(LeftOf(m, right, rightWidth), left, i);
      forall j | 0 <= j < |right| {
        MatchesSomeSnoc(m, left, i, right[j]);
      }
      var matches, found := ProbeAndMark(cond, left[i], right, rightMatched);
      result := result + matches;
      if !found {
        result := result + [LeftPadded(left[i], rightWidth)];
      }
    }
    assert left[..|left|] == left;
    var padded := PadUnmatched(m, left, right, rightMatched);
    result := result + padded;
  }

  method PadUnmatched(ghost m: Matcher, left: seq<Item>, right: seq<Item>, rightMatched: array<bool>)
    returns (result: seq<Item>)
    requires rightMatched.Length == |right|
    requires forall j :: 0 <= j < |right| ==> (rightMatched[j] <==> MatchesSome(m, left, right[j]))
    ensures result == FlatMap(RightPadOf(m, left, Width(left)), right)
  {
    result := [];
    for j := 0 to |right|
      invariant result == FlatMap(RightPadOf(m, left, Width(left)), right[..j])
    {
      FlatMapSnoc(RightPadOf(m, left, Width(left)), right, j);
      if !rightMatched[j] {
        result := result + [Item(right[j].tid, Pad(Width(left)) + right[j].row)];
      }
    }
    assert right[..|right|] == right;
  }

  lemma MatchesSomeSnoc(m: Matcher, left: seq<Item>, i: nat, r: Item)
    requires i < |left|
    ensures MatchesSome(m, left[..i + 1], r) <==> MatchesSome(m, left[..i], r) || m(left[i].row, r.row)
  {
    var a, b := left[..i], left[..i + 1];
    assert b[i] == left[i];
    assert forall k :: 0 <= k < i ==> a[k] == b[k];
  }

  method CrossLoops(left: seq<Item>, right: seq<Item>) returns (result: seq<Item>)
    ensures result == FlatMap(InnerOf(Everything(), right), left)
  {
    hide FlatMap;
    FlatMapNil(InnerOf(Everything(), right));
    result := [];
    for i := 0 to |left|
      invariant result == FlatMap(InnerOf(Everything(), right), left[..i])
    {
      FlatMapSnoc(InnerOf(Everything(), right), left, i);
      ghost var before := result;
      FlatMapNil(PairFrom(Everything(), left[i]));
      for j := 0 to |right|
        invariant result == before + FlatMap(PairFrom(Everything(), left[i]), right[..j])
      {
        FlatMapSnoc(PairFrom(Everything(), left[i]), right, j);
        result := result + [Item(left[i].tid, left[i].row + right[j].row)];
      }
      assert right[..|right|] == right;
    }
    assert left[..|left|] == left;
  }
}
