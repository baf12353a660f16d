/** The rows the joins return, one by one (src/executor/select/joins.rs, src/executor/select/algorithms.rs):
    which pairs and which lonely rows they are made from, in which order, with how much padding. */
module JoinRows {
  import opened Wrappers
  import opened JoinReference
  import opened JoinAlgorithms
  import opened MergeJoins

  // ---- one row of the outer input, then all of them -------------------------

  /** What a row of the outer input is joined with: a position of the inner one, or -1 for padding. */
  type Choice = (Item, int) -> bool

  type Maker = (Item, int) -> Item

  ghost predicate Rising(js: seq<int>) {
    forall a, b :: 0 <= a < b < |js| ==> js[a] < js[b]
  }

  /** The row emits one item for each choice wanted, in order. */
  ghost predicate Emits(items: seq<Item>, x: Item, js: seq<int>, wanted: Choice, made: Maker) {
    && Rising(js) && |items| == |js|
    && (forall j :: j in js <==> wanted(x, j))
    && forall k :: 0 <= k < |js| ==> items[k] == made(x, js[k])
  }

  /** Where an item comes from: a row of the outer input and a choice for it. */
  datatype Origin = Origin(outer: nat, inner: int)

  predicate Before(p: Origin, q: Origin) {
    p.outer < q.outer || (p.outer == q.outer && p.inner < q.inner)
  }

  /** All items, in order: one for each row of the outer input and each choice wanted for it. */
  ghost predicate Spread(items: seq<Item>, os: seq<Origin>, s: seq<Item>, wanted: Choice, made: Maker) {
    && |items| == |os|
    && (forall a, b :: 0 <= a < b < |os| ==> Before(os[a], os[b]))
    && (forall o: Origin :: o in os <==> o.outer < |s| && wanted(s[o.outer], o.inner))
    && forall k :: 0 <= k < |os| ==> os[k].outer < |s| && items[k] == made(s[os[k].outer], os[k].inner)
  }

  function At(i: nat, js: seq<int>): seq<Origin> {
    seq(|js|, k requires 0 <= k < |js| => Origin(i, js[k]))
  }

  lemma InAt(i: nat, js: seq<int>, o: Origin)
    ensures o in At(i, js) <==> o.outer == i && o.inner in js
  {
    if o.outer == i && o.inner in js {
      var k :| 0 <= k < |js| && js[k] == o.inner;
      assert At(i, js)[k] == o;
    }
  }

  lemma SpreadSnoc(items: seq<Item>, os: seq<Origin>, s: seq<Item>, x: Item, more: seq<Item>, js: seq<int>,
                   wanted: Choice, made: Maker)
    requires Spread(items, os, s, wanted, made) && Emits(more, x, js, wanted, made)
    ensures Spread(items + more, os + At(|s|, js), s + [x], wanted, made)
  {
    var (all, t) := (os + At(|s|, js), s + [x]);
    assert t[|s|] == x && forall i :: 0 <= i < |s| ==> t[i] == s[i];
    forall o: Origin
      ensures o in all <==> o.outer < |t| && wanted(t[o.outer], o.inner)
    {
      InAt(|s|, js, o);
      assert o in all <==> o in os || o in At(|s|, js);
      assert o in os <==> o.outer < |s| && wanted(s[o.outer], o.inner);
      assert o.inner in js <==> wanted(x, o.inner);
    }
    forall k | 0 <= k < |os|
      ensures os[k].outer < |s|
    {
      assert os[k] in os;
    }
  }

  ghost predicate EmitsSome(items: seq<Item>, x: Item, wanted: Choice, made: Maker) {
    exists js :: Emits(items, x, js, wanted, made)
  }

  ghost predicate SpreadSome(items: seq<Item>, s: seq<Item>, wanted: Choice, made: Maker) {
    exists os :: Spread(items, os, s, wanted, made)
  }

  lemma SpreadNil(wanted: Choice, made: Maker)
    ensures Spread([], [], [], wanted, made)
  {}

  lemma {:induction false} SpreadAll(f: Emitter, s: seq<Item>, wanted: Choice, made: Maker)
    requires forall x :: x in s ==> EmitsSome(f(x), x, wanted, made)
    ensures SpreadSome(FlatMap(f, s), s, wanted, made)
    decreases |s|
  {
    hide Emits, Spread, At;
    if s == [] {
      SpreadNil(wanted, made);
    } else {
      var n := |s| - 1;
      SpreadAll(f, s[..n], wanted, made);
      var os :| Spread(FlatMap(f, s[..n]), os, s[..n], wanted, made);
      assert s[n] in s;
      var js :| Emits(f(s[n]), s[n], js, wanted, made);
      SpreadSnoc(FlatMap(f, s[..n]), os, s[..n], s[n], f(s[n]), js, wanted, made);
      assert s == s[..n] + [s[n]];
    }
  }

  // ---- left rows against right rows -------------------------------------------

  /** Every right row that matches, if matches are asked for; or padding, if it is asked for and
      no right row matches. */
  function LeftWanted(m: Matcher, right: seq<Item>, matches: bool, pads: Item -> bool): Choice {
    (l: Item, j: int) =>
      if j == -1 then pads(l) && forall k :: 0 <= k < |right| ==> !m(l.row, right[k].row)
      else matches && 0 <= j < |right| && m(l.row, right[j].row)
  }

  /** The left row, then the right row or that many empty texts; the left row's identifier. */
  function LeftMade(right: seq<Item>, width: nat): Maker {
    (l: Item, j: int) => Item(l.tid, l.row + if 0 <= j < |right| then right[j].row else seq(width, _ => ""))
  }

  ghost predicate LeftRows(items: seq<Item>, m: Matcher, left: seq<Item>, right: seq<Item>, matches: bool,
                           pads: Item -> bool, width: nat) {
    SpreadSome(items, left, LeftWanted(m, right, matches, pads), LeftMade(right, width))
  }

  ghost predicate Agree(m: Matcher, n: Matcher) {
    forall l: Row, r: Row :: m(l, r) == n(l, r)
  }

  lemma {:induction false} ProbeRows(m: Matcher, l: Item, right: seq<Item>) returns (js: seq<int>)
    ensures Rising(js) && |js| == |Probe(m, l, right)|
    ensures forall j :: j in js <==> 0 <= j < |right| && m(l.row, right[j].row)
    ensures forall k :: 0 <= k < |js| ==> 0 <= js[k] < |right| && Probe(m, l, right)[k] == Item(l.tid, l.row + right[js[k]].row)
    decreases |right|
  {
    hide Probe;
    if right == [] {
      ProbeSnoc(m, l, right);
      js := [];
    } else {
      var n := |right| - 1;
      var before := ProbeRows(m, l, right[..n]);
      js := before + if m(l.row, right[n].row) then [n] else [];
      ProbeSnoc(m, l, right);
      assert forall k :: 0 <= k < |before| ==> before[k] in before;
    }
  }

  lemma ProbeSnoc(m: Matcher, l: Item, right: seq<Item>)
    ensures Probe(m, l, []) == []
    ensures right != [] ==>
      Probe(m, l, right) == Probe(m, l, right[..|right| - 1]) + PairFrom(m, l)(right[|right| - 1])
  {}

  lemma PadEmits(n: Matcher, l: Item, right: seq<Item>, matches: bool, pads: Item -> bool, width: nat)
    requires pads(l) && forall k :: 0 <= k < |right| ==> !n(l.row, right[k].row)
    ensures EmitsSome([LeftPadded(l, width)], l, LeftWanted(n, right, matches, pads), LeftMade(right, width))
  {
    assert Pad(width) == seq(width, _ => "");
    assert Emits([LeftPadded(l, width)], l, [-1], LeftWanted(n, right, matches, pads), LeftMade(right, width));
  }

  lemma MatchesEmit(n: Matcher, l: Item, right: seq<Item>, js: seq<int>, matches: bool, pads: Item -> bool, width: nat, items: seq<Item>)
    requires Rising(js) && forall j :: j in js <==> matches && 0 <= j < |right| && n(l.row, right[j].row)
    requires pads(l) ==> exists k :: 0 <= k < |right| && n(l.row, right[k].row)
    requires |items| == |js|
    requires forall k :: 0 <= k < |js| ==> 0 <= js[k] < |right| && items[k] == Item(l.tid, l.row + right[js[k]].row)
    ensures EmitsSome(items, l, LeftWanted(n, right, matches, pads), LeftMade(right, width))
  {
    assert Emits(items, l, js, LeftWanted(n, right, matches, pads), LeftMade(right, width));
  }

  /** What one left row emits, in all the forms the joins use. */
  lemma LeftEmits(m: Matcher, n: Matcher, l: Item, right: seq<Item>, matches: bool, pads: Item -> bool, width: nat, items: seq<Item>)
    requires Agree(m, n)
    requires items == (if Probe(m, l, right) == [] && pads(l) then [LeftPadded(l, width)]
                       else if matches then Probe(m, l, right) else [])
    ensures EmitsSome(items, l, LeftWanted(n, right, matches, pads), LeftMade(right, width))
  {
    hide Probe, EmitsSome, LeftWanted, LeftMade, LeftPadded;
    var js := ProbeRows(m, l, right);
    if Probe(m, l, right) == [] && pads(l) {
      forall k | 0 <= k < |right|
        ensures !n(l.row, right[k].row)
      {
        assert k !in js;
      }
      PadEmits(n, l, right, matches, pads, width);
    } else {
      if pads(l) {
        assert js[0] in js;
      }
      MatchesEmit(n, l, right, if matches then js else [], matches, pads, width, items);
    }
  }

  // ---- right rows against left rows -------------------------------------------

  function RightWanted(m: Matcher, left: seq<Item>, matches: bool, pads: Item -> bool): Choice {
    (r: Item, i: int) =>
      if i == -1 then pads(r) && forall k :: 0 <= k < |left| ==> !m(left[k].row, r.row)
      else matches && 0 <= i < |left| && m(left[i].row, r.row)
  }

  /** The left row or that many empty texts, then the right row; the right row's identifier or none. */
  function RightMade(left: seq<Item>, width: nat, own: bool): Maker {
    (r: Item, i: int) =>
      Item(if own then r.tid else Tid(0, 0), (if 0 <= i < |left| then left[i].row else seq(width, _ => "")) + r.row)
  }

  ghost predicate RightRows(items: seq<Item>, m: Matcher, right: seq<Item>, left: seq<Item>, matches: bool,
                            pads: Item -> bool, width: nat, own: bool) {
    SpreadSome(items, right, RightWanted(m, left, matches, pads), RightMade(left, width, own))
  }

  lemma {:induction false} ProbeBackRows(m: Matcher, r: Item, left: seq<Item>) returns (js: seq<int>)
    ensures Rising(js) && |js| == |ProbeBack(m, r, left)|
    ensures forall i :: i in js <==> 0 <= i < |left| && m(left[i].row, r.row)
    ensures forall k :: 0 <= k < |js| ==> 0 <= js[k] < |left| && ProbeBack(m, r, left)[k] == Item(r.tid, left[js[k]].row + r.row)
    decreases |left|
  {
    hide ProbeBack;
    if left == [] {
      ProbeBackSnoc(m, r, left);
      js := [];
    } else {
      var n := |left| - 1;
      var before := ProbeBackRows(m, r, left[..n]);
      js := before + if m(left[n].row, r.row) then [n] else [];
      ProbeBackSnoc(m, r, left);
      assert forall k :: 0 <= k < |before| ==> before[k] in before;
    }
  }

  lemma ProbeBackSnoc(m: Matcher, r: Item, left: seq<Item>)
    ensures ProbeBack(m, r, []) == []
    ensures left != [] ==>
      ProbeBack(m, r, left) == ProbeBack(m, r, left[..|left| - 1]) + PairInto(m, r)(left[|left| - 1])
  {}

  lemma PadEmitsBack(n: Matcher, r: Item, left: seq<Item>, matches: bool, pads: Item -> bool, width: nat, own: bool)
    requires pads(r) && forall k :: 0 <= k < |left| ==> !n(left[k].row, r.row)
    ensures EmitsSome([Item(if own then r.tid else NO_TID, Pad(width) + r.row)], r,
                      RightWanted(n, left, matches, pads), RightMade(left, width, own))
  {
    assert Pad(width) == seq(width, _ => "");
    assert Emits([Item(if own then r.tid else NO_TID, Pad(width) + r.row)], r, [-1],
                 RightWanted(n, left, matches, pads), RightMade(left, width, own));
  }

  lemma MatchesEmitBack(n: Matcher, r: Item, left: seq<Item>, js: seq<int>, matches: bool, pads: Item -> bool, width: nat,
                        own: bool, items: seq<Item>)
    requires own || js == []
    requires Rising(js) && forall i :: i in js <==> matches && 0 <= i < |left| && n(left[i].row, r.row)
    requires pads(r) ==> exists k :: 0 <= k < |left| && n(left[k].row, r.row)
    requires |items| == |js|
    requires forall k :: 0 <= k < |js| ==> 0 <= js[k] < |left| && items[k] == Item(r.tid, left[js[k]].row + r.row)
    ensures EmitsSome(items, r, RightWanted(n, left, matches, pads), RightMade(left, width, own))
  {
    assert Emits(items, r, js, RightWanted(n, left, matches, pads), RightMade(left, width, own));
  }

  /** What one right row emits, in all the forms the joins use. */
  lemma RightEmits(m: Matcher, n: Matcher, r: Item, left: seq<Item>, matches: bool, pads: Item -> bool, width: nat, own: bool,
                   items: seq<Item>)
    requires Agree(m, n) && (own || !matches)
    requires items == (if ProbeBack(m, r, left) == [] && pads(r) then [Item(if own then r.tid else NO_TID, Pad(width) + r.row)]
                       else if matches then ProbeBack(m, r, left) else [])
    ensures EmitsSome(items, r, RightWanted(n, left, matches, pads), RightMade(left, width, own))
  {
    hide ProbeBack, EmitsSome, RightWanted, RightMade;
    var js := ProbeBackRows(m, r, left);
    if ProbeBack(m, r, left) == [] && pads(r) {
      forall k | 0 <= k < |left|
        ensures !n(left[k].row, r.row)
      {
        assert k !in js;
      }
      PadEmitsBack(n, r, left, matches, pads, width, own);
    } else {
      if pads(r) {
        assert js[0] in js;
      }
      MatchesEmitBack(n, r, left, if matches then js else [], matches, pads, width, own, items);
    }
  }

  // ---- the nested loop ----------------------------------------------------------

  function Always(): Item -> bool {
    (x: Item) => true
  }

  function Never(): Item -> bool {
    (x: Item) => false
  }

  function OnlyIf(keep: bool): Item -> bool {
    (x: Item) => keep
  }

  function EveryPair(): Matcher {
    (l: Row, r: Row) => true
  }

  function OnPair(cond: Row -> bool): Matcher {
    (l: Row, r: Row) => cond(l + r)
  }

  function FirstRowWidth(items: seq<Item>): nat {
    if items == [] then 0 else |items[0].row|
  }

  ghost predicate FullRows(items: seq<Item>, m: Matcher, left: seq<Item>, right: seq<Item>, lw: nat, rw: nat) {
    exists k: nat :: k <= |items| && LeftRows(items[..k], m, left, right, true, Always(), rw) && RightRows(items[k..], m, right, left, false, Always(), lw, true)
  }

  /** The rows of a join, in order.  Inner and left joins walk the left input, a right join the right
      one; a full join is a left join followed by the lonely right rows; the others pair everything. */
  ghost predicate RowsOf(items: seq<Item>, m: Matcher, left: seq<Item>, right: seq<Item>, jt: JoinType, lw: nat, rw: nat) {
    match jt
    case Inner => LeftRows(items, m, left, right, true, Never(), rw)
    case Left => LeftRows(items, m, left, right, true, Always(), rw)
    case Right => RightRows(items, m, right, left, true, Always(), lw, true)
    case Full => FullRows(items, m, left, right, lw, rw)
    case _ => LeftRows(items, EveryPair(), left, right, true, Never(), rw)
  }

  lemma LeftPass(f: Emitter, m: Matcher, n: Matcher, left: seq<Item>, right: seq<Item>, matches: bool, pads: Item -> bool, width: nat)
    requires Agree(m, n)
    requires forall l :: l in left ==>
      f(l) == (if Probe(m, l, right) == [] && pads(l) then [LeftPadded(l, width)] else if matches then Probe(m, l, right) else [])
    ensures LeftRows(FlatMap(f, left), n, left, right, matches, pads, width)
  {
    hide Probe, FlatMap, EmitsSome, SpreadSome, LeftWanted, LeftMade, LeftPadded;
    var (wanted, made) := (LeftWanted(n, right, matches, pads), LeftMade(right, width));
    forall l | l in left
      ensures EmitsSome(f(l), l, wanted, made)
    {
      LeftEmits(m, n, l, right, matches, pads, width, f(l));
    }
    SpreadAll(f, left, wanted, made);
  }

  lemma RightPass(f: Emitter, m: Matcher, n: Matcher, right: seq<Item>, left: seq<Item>, matches: bool, pads: Item -> bool,
                  width: nat, own: bool)
    requires Agree(m, n) && (own || !matches)
    requires forall r :: r in right ==>
      f(r) == (if ProbeBack(m, r, left) == [] && pads(r) then [Item(if own then r.tid else NO_TID, Pad(width) + r.row)]
               else if matches then ProbeBack(m, r, left) else [])
    ensures RightRows(FlatMap(f, right), n, right, left, matches, pads, width, own)
  {
    hide ProbeBack, FlatMap, EmitsSome, SpreadSome, RightWanted, RightMade;
    var (wanted, made) := (RightWanted(n, left, matches, pads), RightMade(left, width, own));
    forall r | r in right
      ensures EmitsSome(f(r), r, wanted, made)
    {
      RightEmits(m, n, r, left, matches, pads, width, own, f(r));
    }
    SpreadAll(f, right, wanted, made);
  }

  /** The padding pass over the right input emits what it should for a right row. */
  lemma PadsBack(m: Matcher, r: Item, left: seq<Item>)
    ensures MatchesSome(m, left, r) <==> ProbeBack(m, r, left) != []
  {
    ProbeBackEmptyIff(m, left, r);
  }

  lemma LoopRows(m: Matcher, n: Matcher, left: seq<Item>, right: seq<Item>, jt: JoinType, lw: nat, rw: nat)
    requires Agree(m, n)
    ensures RowsOf(NestedLoop(m, left, right, jt, lw, rw), n, left, right, jt, lw, rw)
  {
    hide Probe, ProbeBack, FlatMap, LeftRows, RightRows, MatchesSome;
    match jt {
      case Inner => LeftPass(InnerOf(m, right), m, n, left, right, true, Never(), rw);
      case Left => LeftPass(LeftOf(m, right, rw), m, n, left, right, true, Always(), rw);
      case Right => RightPass(RightOf(m, left, lw), m, n, right, left, true, Always(), lw, true);
      case Full =>
        LeftPass(LeftOf(m, right, rw), m, n, left, right, true, Always(), rw);
        forall r | r in right { PadsBack(m, r, left); }
        RightPass(RightPadOf(m, left, lw), m, n, right, left, false, Always(), lw, true);
        var (a, b) := (FlatMap(LeftOf(m, right, rw), left), FlatMap(RightPadOf(m, left, lw), right));
        assert (a + b)[..|a|] == a && (a + b)[|a|..] == b;
      case _ => LeftPass(InnerOf(Everything(), right), Everything(), EveryPair(), left, right, true, Never(), rw);
    }
  }

  /** `nested_loop_join`, row by row: right rows are padded by the width of the first left row. */
  lemma NestedLoopRows(cond: Row -> bool, left: seq<Item>, right: seq<Item>, jt: JoinType, rightWidth: nat)
    ensures RowsOf(NestedLoop(OnCombined(cond), left, right, jt, Width(left), rightWidth), OnPair(cond), left, right, jt,
                   FirstRowWidth(left), rightWidth)
  {
    LoopRows(OnCombined(cond), OnPair(cond), left, right, jt, Width(left), rightWidth);
  }

  // ---- the equi-joins -----------------------------------------------------------

  /** Both keys are defined, and equal. */
  function KeysMeet(on: Equality): Matcher {
    (l: Row, r: Row) =>
      on.leftKey(l).Some? && on.rightKey(r).Some? && on.leftKey(l).value == on.rightKey(r).value
  }

  /** An undefined key counts as the empty text. */
  function DefaultedKeysMeet(on: Equality): Matcher {
    (l: Row, r: Row) =>
      (if on.leftKey(l).Some? then on.leftKey(l).value else "")
      == (if on.rightKey(r).Some? then on.rightKey(r).value else "")
  }

  function HasKey(on: Equality): Item -> bool {
    (l: Item) => on.leftKey(l.row).Some?
  }

  /** Left rows are padded by the width of the first right row; with no right row, of the first left one. */
  function PadWidth(left: seq<Item>, right: seq<Item>): nat {
    if right != [] then |right[0].row| else if left != [] then |left[0].row| else 0
  }

  lemma ReferenceRows(on: Equality, left: seq<Item>, right: seq<Item>, jt: JoinType)
    ensures RowsOf(Reference(KeyMatch(on), left, right, jt), KeysMeet(on), left, right, jt,
                   FirstRowWidth(left), PadWidth(left, right))
  {
    LoopRows(KeyMatch(on), KeysMeet(on), left, right, jt, Width(left), RightPadWidth(left, right));
  }

  /** The probe pass, the right rows left over, the left rows left over. */
  ghost predicate HashRows(items: seq<Item>, on: Equality, left: seq<Item>, right: seq<Item>, jt: JoinType, k: nat, n: nat) {
    && k <= n <= |items|
    && LeftRows(items[..k], KeysMeet(on), left, right, true, if jt == Left then HasKey(on) else Never(), PadWidth(left, right))
    && RightRows(items[k..n], KeysMeet(on), right, left, false, OnlyIf(jt == Right || jt == Full), FirstRowWidth(left), false)
    && LeftRows(items[n..], KeysMeet(on), left, right, false, OnlyIf(jt == Full), PadWidth(left, right))
  }

  function Silent(): Emitter {
    (x: Item) => []
  }

  lemma Keyless(on: Equality, l: Item, right: seq<Item>)
    requires on.leftKey(l.row).None?
    ensures Probe(KeyMatch(on), l, right) == []
  {
    UndefinedKeyMatchesNothing(on, l, right);
  }

  lemma HashRightPass(on: Equality, left: seq<Item>, right: seq<Item>, keep: bool)
    ensures RightRows(if keep then FlatMap(HashRightPadOf(on, left, Width(left)), right) else [], KeysMeet(on), right, left,
                      false, OnlyIf(keep), FirstRowWidth(left), false)
  {
    hide ProbeBack, RightRows, FlatMap, MatchesSome;
    forall r | r in right { PadsBack(KeyMatch(on), r, left); }
    if keep {
      RightPass(HashRightPadOf(on, left, Width(left)), KeyMatch(on), KeysMeet(on), right, left, false, OnlyIf(keep), Width(left), false);
    } else {
      FlatMapNothing(Silent(), right);
      RightPass(Silent(), KeyMatch(on), KeysMeet(on), right, left, false, OnlyIf(keep), Width(left), false);
    }
  }

  lemma HashLeftPass(on: Equality, left: seq<Item>, right: seq<Item>, keep: bool, width: nat)
    ensures LeftRows(if keep then FlatMap(LeftPadOf(KeyMatch(on), right, width), left) else [], KeysMeet(on), left, right,
                     false, OnlyIf(keep), width)
  {
    hide Probe, LeftRows, FlatMap;
    if keep {
      LeftPass(LeftPadOf(KeyMatch(on), right, width), KeyMatch(on), KeysMeet(on), left, right, false, OnlyIf(keep), width);
    } else {
      FlatMapNothing(Silent(), left);
      LeftPass(Silent(), KeyMatch(on), KeysMeet(on), left, right, false, OnlyIf(keep), width);
    }
  }

  /** `hash_join`, row by row. */
  lemma HashJoinIs(on: Equality, left: seq<Item>, right: seq<Item>, jt: JoinType) returns (k: nat, n: nat)
    ensures HashRows(HashJoinRows(on, left, right, jt), on, left, right, jt, k, n)
  {
    hide Probe, LeftRows, RightRows, FlatMap;
    var width := RightPadWidth(left, right);
    var a := FlatMap(HashProbeOf(on, right, jt, width), left);
    var b := if KeepsRight(jt) then FlatMap(HashRightPadOf(on, left, Width(left)), right) else [];
    var c := if jt == Full then FlatMap(LeftPadOf(KeyMatch(on), right, width), left) else [];
    forall l | l in left && on.leftKey(l.row).None? {
      Keyless(on, l, right);
    }
    LeftPass(HashProbeOf(on, right, jt, width), KeyMatch(on), KeysMeet(on), left, right, true,
             if jt == Left then HasKey(on) else Never(), width);
    HashRightPass(on, left, right, KeepsRight(jt));
    HashLeftPass(on, left, right, jt == Full, width);
    k, n := |a|, |a| + |b|;
    var items := HashJoinRows(on, left, right, jt);
    assert items == a + b + c;
    assert items[..k] == a && items[k..n] == b && items[n..] == c;
  }

  lemma DefaultedAgree(on: Equality)
    ensures Agree(DefaultedMatch(on), DefaultedKeysMeet(on))
  {
    forall l: Row, r: Row
      ensures DefaultedMatch(on)(l, r) == DefaultedKeysMeet(on)(l, r)
    {
      var (a, b) := (KeyOrDefault(on.leftKey(l)), KeyOrDefault(on.rightKey(r)));
      assert DefaultedMatch(on)(l, r) == (a == b);
      assert DefaultedKeysMeet(on)(l, r) == (a == b);
    }
  }

  /** What `merge_join` returns, in some order: the left part, then the lonely right rows. */
  lemma MergeJoinIs(on: Equality, left: seq<Item>, right: seq<Item>, jt: JoinType) returns (k: nat)
    ensures var items := JoinItems(DefaultedMatch(on), left, right, jt);
      && k <= |items|
      && LeftRows(items[..k], DefaultedKeysMeet(on), left, right, true, OnlyIf(jt == Left || jt == Full), PadWidth(left, right))
      && RightRows(items[k..], DefaultedKeysMeet(on), right, left, false, OnlyIf(jt == Right || jt == Full), FirstRowWidth(left), true)
  {
    hide Probe, ProbeBack, LeftRows, RightRows, FlatMap, MatchesSome;
    var (m, n, lw, rw) := (DefaultedMatch(on), DefaultedKeysMeet(on), Width(left), RightPadWidth(left, right));
    DefaultedAgree(on);
    LeftPass(LeftPart(m, right, KeepsLeft(jt), rw), m, n, left, right, true, OnlyIf(KeepsLeft(jt)), rw);
    forall r | r in right
      ensures MatchesSome(m, left, r) <==> ProbeBack(m, r, left) != []
    {
      PadsBack(m, r, left);
    }
    RightPass(RightPart(m, left, KeepsRight(jt), lw), m, n, right, left, false, OnlyIf(KeepsRight(jt)), lw, true);
    var (a, b) := (FlatMap(LeftPart(m, right, KeepsLeft(jt), rw), left), FlatMap(RightPart(m, left, KeepsRight(jt), lw), right));
    k := |a|;
    assert (a + b)[..k] == a && (a + b)[k..] == b;
  }

  function RowsIn(items: seq<Item>): seq<Row> {
    seq(|items|, i requires 0 <= i < |items| => items[i].row)
  }

  /** The bag that the theorems compare is the multiset of the items' rows. */
  lemma {:induction false} RowBagIs(items: seq<Item>)
    ensures RowBag(items) == multiset(RowsIn(items))
  {
    if items != [] {
      var n := |items| - 1;
      RowBagIs(items[..n]);
      assert RowsIn(items) == RowsIn(items[..n]) + [items[n].row];
    }
  }

  // ---- an empty right side ------------------------------------------------------

  lemma {:induction false} OneEach(f: Emitter, s: seq<Item>, made: Item -> Item)
    requires forall x :: x in s ==> f(x) == [made(x)]
    ensures |FlatMap(f, s)| == |s| && forall i :: 0 <= i < |s| ==> FlatMap(f, s)[i] == made(s[i])
    decreases |s|
  {
    if s != [] {
      OneEach(f, s[..|s| - 1], made);
    }
  }

  /** Against an empty right side a left or full hash join returns every left row, padded by as many
      empty texts as the first left row is wide. */
  lemma HashOuterOfNothing(on: Equality, left: seq<Item>, jt: JoinType)
    requires jt == Full || (jt == Left && forall i :: 0 <= i < |left| ==> on.leftKey(left[i].row).Some?)
    ensures |HashJoinRows(on, left, [], jt)| == |left|
    ensures forall i :: 0 <= i < |left| ==>
      HashJoinRows(on, left, [], jt)[i] == Item(left[i].tid, left[i].row + seq(|left[0].row|, _ => ""))
  {
    hide FlatMap, Probe, LeftPadded, RowBag;
    var (m, width) := (KeyMatch(on), Width(left));
    PaddedBy(left);
    forall l: Item {
      NothingToProbe(m, l);
    }
    if jt == Left {
      assert forall l :: l in left ==> on.leftKey(l.row).Some?;
      OneEach(HashProbeOf(on, [], jt, width), left, Padded(width));
      HashLeftRows(on, left, []);
    } else {
      FullOfNothing(on, left);
    }
  }

  lemma FullOfNothing(on: Equality, left: seq<Item>)
    ensures |HashJoinRows(on, left, [], Full)| == |left|
    ensures forall i :: 0 <= i < |left| ==> HashJoinRows(on, left, [], Full)[i] == LeftPadded(left[i], Width(left))
  {
    hide FlatMap, Probe, LeftPadded, RowBag, HashJoinRows, Pad;
    var (m, width) := (KeyMatch(on), Width(left));
    FullPasses(on, left);
    forall l: Item {
      NothingToProbe(m, l);
    }
    FlatMapNothing(HashProbeOf(on, [], Full, width), left);
    OneEach(LeftPadOf(m, [], width), left, Padded(width));
  }

  lemma FullPasses(on: Equality, left: seq<Item>)
    ensures var (f, g) := (HashProbeOf(on, [], Full, Width(left)), LeftPadOf(KeyMatch(on), [], Width(left)));
      HashJoinRows(on, left, [], Full) == FlatMap(f, left) + FlatMap(g, left)
  {
    FlatMapNil(HashRightPadOf(on, left, Width(left)));
  }

  function Padded(width: nat): Item -> Item {
    (l: Item) => LeftPadded(l, width)
  }

  lemma PaddedBy(left: seq<Item>)
    ensures forall i :: 0 <= i < |left| ==>
      LeftPadded(left[i], Width(left)) == Item(left[i].tid, left[i].row + seq(|left[0].row|, _ => ""))
  {
    assert left != [] ==> Pad(Width(left)) == seq(|left[0].row|, _ => "");
  }

  lemma NothingToProbe(m: Matcher, l: Item)
    ensures Probe(m, l, []) == []
  {}
}
