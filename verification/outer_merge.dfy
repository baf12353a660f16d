/** Undefined keys in the outer merge joins (src/executor/select/algorithms.rs): what they add, what
    they take away, and exactly when the rows are still those of the nested loop. */
module OuterMergeJoins {
  import opened Wrappers
  import opened JoinReference
  import opened JoinAlgorithms
  import opened MergeJoins
  import opened JoinTheorems

  // ---- what clashes add and take away, in every join type --------------------

  /** The padded row of a left row that only clashes keep from being padded. */
  function LostLeftOf(on: Equality, right: seq<Item>, keep: bool, width: nat): Emitter {
    (l: Item) =>
      if keep && Probe(KeyMatch(on), l, right) == [] && Probe(ClashMatch(on), l, right) != [] then [LeftPadded(l, width)]
      else []
  }

  function LostRightOf(on: Equality, left: seq<Item>, keep: bool, width: nat): Emitter {
    (r: Item) =>
      if keep && !MatchesSome(KeyMatch(on), left, r) && MatchesSome(ClashMatch(on), left, r) then
        [Item(r.tid, Pad(width) + r.row)]
      else []
  }

  ghost function LostPads(on: Equality, left: seq<Item>, right: seq<Item>, jt: JoinType): multiset<Row> {
    RowBag(FlatMap(LostLeftOf(on, right, KeepsLeft(jt), RightPadWidth(left, right)), left))
    + RowBag(FlatMap(LostRightOf(on, left, KeepsRight(jt), Width(left)), right))
  }

  ghost function ClashRows(on: Equality, left: seq<Item>, right: seq<Item>): multiset<Row> {
    RowBag(FlatMap(InnerOf(ClashMatch(on), right), left))
  }

  function Both(f: Emitter, g: Emitter): Emitter {
    (x: Item) => f(x) + g(x)
  }

  lemma BothBag(f: Emitter, g: Emitter, s: seq<Item>)
    ensures RowBag(FlatMap(Both(f, g), s)) == RowBag(FlatMap(f, s)) + RowBag(FlatMap(g, s))
  {
    hide RowBag, FlatMap;
    forall x | x in s
      ensures RowBag(Both(f, g)(x)) == RowBag(f(x)) + RowBag(g(x))
    {
      RowBagConcat(f(x), g(x));
    }
    FlatMapSplit(Both(f, g), f, g, s);
  }

  lemma LeftBalance(on: Equality, l: Item, right: seq<Item>, keep: bool, width: nat)
    ensures RowBag(LeftPart(DefaultedMatch(on), right, keep, width)(l)) + RowBag(LostLeftOf(on, right, keep, width)(l))
         == RowBag(LeftPart(KeyMatch(on), right, keep, width)(l)) + RowBag(Probe(ClashMatch(on), l, right))
  {
    hide RowBag, Probe;
    ProbeSplitsClashes(on, l, right);
    RowBagEmpty(Probe(DefaultedMatch(on), l, right));
    RowBagEmpty(Probe(KeyMatch(on), l, right));
    RowBagEmpty(Probe(ClashMatch(on), l, right));
    RowBagEmpty([]);
  }

  lemma RightBalance(on: Equality, r: Item, left: seq<Item>, keep: bool, width: nat)
    ensures RowBag(RightPart(KeyMatch(on), left, keep, width)(r))
         == RowBag(RightPart(DefaultedMatch(on), left, keep, width)(r)) + RowBag(LostRightOf(on, left, keep, width)(r))
  {
    hide RowBag;
    RowBagEmpty([]);
    assert forall i :: 0 <= i < |left| ==>
      (DefaultedMatch(on)(left[i].row, r.row) <==>
       KeyMatch(on)(left[i].row, r.row) || ClashMatch(on)(left[i].row, r.row));
    assert MatchesSome(DefaultedMatch(on), left, r)
      <==> MatchesSome(KeyMatch(on), left, r) || MatchesSome(ClashMatch(on), left, r);
  }

  /** In all four join types: the merge join's rows and the padded rows it owes are the nested loop's
      rows and one row for every clashing pair. */
  lemma MergeAddsClashes(on: Equality, left: seq<Item>, right: seq<Item>, jt: JoinType)
    requires OuterOrInner(jt)
    ensures JoinBag(DefaultedMatch(on), left, right, jt) + LostPads(on, left, right, jt)
         == RowBag(Reference(KeyMatch(on), left, right, jt)) + ClashRows(on, left, right)
  {
    hide RowBag, FlatMap, Probe, MatchesSome;
    var (rw, lw) := (RightPadWidth(left, right), Width(left));
    var d, lost := LeftPart(DefaultedMatch(on), right, KeepsLeft(jt), rw), LostLeftOf(on, right, KeepsLeft(jt), rw);
    var k, c := LeftPart(KeyMatch(on), right, KeepsLeft(jt), rw), InnerOf(ClashMatch(on), right);
    forall l | l in left
      ensures RowBag(Both(d, lost)(l)) == RowBag(Both(k, c)(l))
    {
      LeftBalance(on, l, right, KeepsLeft(jt), rw);
      RowBagConcat(d(l), lost(l));
      RowBagConcat(k(l), c(l));
    }
    FlatMapBagEqual(Both(d, lost), Both(k, c), left);
    BothBag(d, lost, left);
    BothBag(k, c, left);
    forall r | r in right
      ensures RowBag(RightPart(KeyMatch(on), left, KeepsRight(jt), lw)(r))
           == RowBag(RightPart(DefaultedMatch(on), left, KeepsRight(jt), lw)(r))
            + RowBag(LostRightOf(on, left, KeepsRight(jt), lw)(r))
    {
      RightBalance(on, r, left, KeepsRight(jt), lw);
    }
    FlatMapSplit(RightPart(KeyMatch(on), left, KeepsRight(jt), lw), RightPart(DefaultedMatch(on), left, KeepsRight(jt), lw),
                 LostRightOf(on, left, KeepsRight(jt), lw), right);
    ReferenceBag(KeyMatch(on), left, right, jt);
    var (ld, rd) := (RowBag(FlatMap(d, left)), RowBag(FlatMap(RightPart(DefaultedMatch(on), left, KeepsRight(jt), lw), right)));
    Balance(ld, rd, RowBag(FlatMap(lost, left)), RowBag(FlatMap(LostRightOf(on, left, KeepsRight(jt), lw), right)),
            RowBag(FlatMap(k, left)), RowBag(FlatMap(RightPart(KeyMatch(on), left, KeepsRight(jt), lw), right)),
            ClashRows(on, left, right));
  }

  lemma Balance(ld: multiset<Row>, rd: multiset<Row>, ll: multiset<Row>, rl: multiset<Row>,
                lk: multiset<Row>, rk: multiset<Row>, c: multiset<Row>)
    requires ld + ll == lk + c && rk == rd + rl
    ensures (ld + rd) + (ll + rl) == (lk + rk) + c
  {
    assert (ld + rd) + (ll + rl) == (ld + ll) + (rd + rl);
    assert (lk + rk) + c == (lk + c) + rk;
  }

  /** In all four join types: merge join and nested loop agree exactly when the rows the clashes add
      are the padded rows they take away. */
  lemma MergeAgreesIff(on: Equality, left: seq<Item>, right: seq<Item>, jt: JoinType)
    requires OuterOrInner(jt)
    ensures JoinBag(DefaultedMatch(on), left, right, jt) == RowBag(Reference(KeyMatch(on), left, right, jt))
       <==> ClashRows(on, left, right) == LostPads(on, left, right, jt)
  {
    hide JoinBag, Reference, RowBag, ClashRows, LostPads;
    MergeAddsClashes(on, left, right, jt);
    BalanceCancels(JoinBag(DefaultedMatch(on), left, right, jt), LostPads(on, left, right, jt),
                   RowBag(Reference(KeyMatch(on), left, right, jt)), ClashRows(on, left, right));
  }

  lemma BalanceCancels(a: multiset<Row>, b: multiset<Row>, c: multiset<Row>, d: multiset<Row>)
    requires a + b == c + d
    ensures a == c <==> d == b
  {
    if a == c {
      assert d == (c + d) - c && b == (a + b) - a;
    }
    if d == b {
      assert a == (a + b) - b && c == (c + d) - d;
    }
  }

  // ---- what each row emits, from what all of them emit ------------------------

  /** The kept row and the other one, in the order of the join's columns. */
  function Glue(first: bool, kept: Row, other: Row): Row {
    if first then kept + other else other + kept
  }

  /** Each row emits nothing, or one row made with the same other row. */
  ghost predicate OneEach(f: Emitter, s: seq<Item>, first: bool, other: Row) {
    forall x :: x in s ==> f(x) == [] || RowBag(f(x)) == multiset{Glue(first, x.row, other)}
  }

  /** If the rows emit at most one row each, they emit them with the same other row. */
  ghost predicate Shares(f: Emitter, s: seq<Item>, first: bool) {
    (forall x :: x in s ==> |f(x)| <= 1) ==> exists other :: OneEach(f, s, first, other)
  }

  lemma {:induction false} BagSize(items: seq<Item>)
    ensures |RowBag(items)| == |items|
    decreases |items|
  {
    if items != [] {
      BagSize(items[..|items| - 1]);
    }
  }

  lemma {:induction false} EmittedRow(f: Emitter, s: seq<Item>, x: Item, row: Row)
    requires x in s && row in RowBag(f(x))
    ensures row in RowBag(FlatMap(f, s))
    decreases |s|
  {
    hide RowBag;
    var n := |s| - 1;
    RowBagConcat(FlatMap(f, s[..n]), f(s[n]));
    if x != s[n] {
      assert x in s[..n];
      EmittedRow(f, s[..n], x, row);
    }
  }

  lemma {:induction false} EmittedBy(f: Emitter, s: seq<Item>, row: Row) returns (x: Item)
    requires row in RowBag(FlatMap(f, s))
    ensures x in s && row in RowBag(f(x))
    decreases |s|
  {
    hide RowBag;
    if s == [] {
      RowBagEmpty(FlatMap(f, s));
      assert false;
    } else {
      var n := |s| - 1;
      RowBagConcat(FlatMap(f, s[..n]), f(s[n]));
      if row in RowBag(f(s[n])) {
        x := s[n];
      } else {
        x := EmittedBy(f, s[..n], row);
      }
    }
  }

  lemma {:induction false} FewerInAll(f: Emitter, g: Emitter, s: seq<Item>)
    requires forall x :: x in s ==> |g(x)| <= |f(x)|
    ensures |FlatMap(g, s)| <= |FlatMap(f, s)|
    ensures |FlatMap(g, s)| == |FlatMap(f, s)| ==> forall x :: x in s ==> |g(x)| == |f(x)|
    decreases |s|
  {
    if s != [] {
      var n := |s| - 1;
      FewerInAll(f, g, s[..n]);
      assert s == s[..n] + [s[n]];
    }
  }

  lemma {:induction false} LongestEmitting(f: Emitter, s: seq<Item>) returns (x: Item)
    requires exists y :: y in s && f(y) != []
    ensures x in s && f(x) != [] && forall y :: y in s && f(y) != [] ==> |y.row| <= |x.row|
    decreases |s|
  {
    var n := |s| - 1;
    assert s == s[..n] + [s[n]];
    if exists y :: y in s[..n] && f(y) != [] {
      x := LongestEmitting(f, s[..n]);
      if f(s[n]) != [] && |s[n].row| > |x.row| {
        x := s[n];
      }
    } else {
      x := s[n];
    }
  }

  /** Two rows made by the two emitters are the same one, and the second kept row is no longer. */
  lemma MeetingRows(f: Emitter, g: Emitter, s: seq<Item>, first: bool, a: Row, b: Row) returns (x: Item, y: Item)
    requires OneEach(f, s, first, a) && OneEach(g, s, first, b)
    requires forall z :: z in s ==> (f(z) == [] <==> g(z) == [])
    requires RowBag(FlatMap(f, s)) == RowBag(FlatMap(g, s))
    requires exists z :: z in s && f(z) != []
    ensures Glue(first, x.row, a) == Glue(first, y.row, b) && |y.row| <= |x.row|
  {
    hide RowBag, FlatMap, Glue;
    x := LongestEmitting(f, s);
    EmittedRow(f, s, x, Glue(first, x.row, a));
    y := EmittedBy(g, s, Glue(first, x.row, a));
    RowBagEmpty(g(y));
  }

  lemma SameOther(f: Emitter, g: Emitter, s: seq<Item>, first: bool, a: Row, b: Row)
    requires OneEach(f, s, first, a) && OneEach(g, s, first, b)
    requires forall z :: z in s ==> (f(z) == [] <==> g(z) == [])
    requires RowBag(FlatMap(f, s)) == RowBag(FlatMap(g, s))
    requires exists z :: z in s && f(z) != []
    ensures a == b
  {
    hide RowBag, FlatMap, OneEach;
    var x, y := MeetingRows(f, g, s, first, a, b);
    var x', y' := MeetingRows(g, f, s, first, b, a);
    assert |x.row| == |y.row| && |a| == |b|;
    var (one, two) := (Glue(first, x.row, a), Glue(first, y.row, b));
    assert a == if first then one[|x.row|..] else one[..|a|];
    assert b == if first then two[|y.row|..] else two[..|b|];
  }

  /** Then the emitted rows are the padded rows in all exactly when they are so one by one. */
  lemma RowByRow(f: Emitter, g: Emitter, s: seq<Item>, first: bool, pad: Row)
    requires OneEach(g, s, first, pad) && Shares(f, s, first)
    requires forall x :: x in s ==> |g(x)| <= |f(x)|
    ensures RowBag(FlatMap(f, s)) == RowBag(FlatMap(g, s)) <==> forall x :: x in s ==> RowBag(f(x)) == RowBag(g(x))
  {
    if forall x :: x in s ==> RowBag(f(x)) == RowBag(g(x)) {
      FlatMapBagEqual(f, g, s);
    }
    if RowBag(FlatMap(f, s)) == RowBag(FlatMap(g, s)) {
      EachRow(f, g, s, first, pad);
    }
  }

  lemma EachRow(f: Emitter, g: Emitter, s: seq<Item>, first: bool, pad: Row)
    requires OneEach(g, s, first, pad) && Shares(f, s, first)
    requires forall x :: x in s ==> |g(x)| <= |f(x)|
    requires RowBag(FlatMap(f, s)) == RowBag(FlatMap(g, s))
    ensures forall x :: x in s ==> RowBag(f(x)) == RowBag(g(x))
  {
    hide RowBag, FlatMap, Glue;
    BagSize(FlatMap(f, s));
    BagSize(FlatMap(g, s));
    FewerInAll(f, g, s);
    forall x | x in s
      ensures |f(x)| <= 1
    {
      BagSize(g(x));
    }
    var other :| OneEach(f, s, first, other);
    forall x | x in s
      ensures RowBag(f(x)) == RowBag(g(x))
    {
      if f(x) == [] {
        assert g(x) == [];
      } else {
        SameOther(f, g, s, first, other, pad);
      }
    }
  }

  // ---- left and right joins -------------------------------------------------

  /** A left row that clashes once clashes with one right row. */
  lemma {:induction false} OnlyHit(m: Matcher, l: Item, right: seq<Item>) returns (j: nat)
    requires |Probe(m, l, right)| == 1
    ensures j < |right| && RowBag(Probe(m, l, right)) == multiset{l.row + right[j].row}
    ensures forall k :: 0 <= k < |right| ==> (m(l.row, right[k].row) <==> k == j)
    decreases |right|
  {
    hide RowBag;
    var n := |right| - 1;
    var before := right[..n];
    assert Probe(m, l, right) == Probe(m, l, before) + PairFrom(m, l)(right[n]);
    assert forall k :: 0 <= k < n ==> before[k] == right[k];
    hide Probe;
    if m(l.row, right[n].row) {
      j := n;
      assert Probe(m, l, right) == [Item(l.tid, l.row + right[n].row)];
      RowBagSingle(Item(l.tid, l.row + right[n].row));
      ProbeEmptyIff(m, l, before);
      assert forall k :: 0 <= k < n ==> right[k] in before;
    } else {
      assert Probe(m, l, right) == Probe(m, l, before);
      j := OnlyHit(m, l, before);
    }
  }

  lemma {:induction false} OnlyHitBack(m: Matcher, r: Item, left: seq<Item>) returns (i: nat)
    requires |ProbeBack(m, r, left)| == 1
    ensures i < |left| && RowBag(ProbeBack(m, r, left)) == multiset{left[i].row + r.row}
    ensures forall k :: 0 <= k < |left| ==> (m(left[k].row, r.row) <==> k == i)
    decreases |left|
  {
    hide RowBag;
    var n := |left| - 1;
    var before := left[..n];
    assert ProbeBack(m, r, left) == ProbeBack(m, r, before) + PairInto(m, r)(left[n]);
    assert forall k :: 0 <= k < n ==> before[k] == left[k];
    hide ProbeBack;
    if m(left[n].row, r.row) {
      i := n;
      assert ProbeBack(m, r, left) == [Item(r.tid, left[n].row + r.row)];
      RowBagSingle(Item(r.tid, left[n].row + r.row));
      ProbeBackEmptyIff(m, before, r);
    } else {
      assert ProbeBack(m, r, left) == ProbeBack(m, r, before);
      i := OnlyHitBack(m, r, before);
    }
  }

  /** Rows that clash once each clash with the same row. */
  lemma LeftShares(on: Equality, left: seq<Item>, right: seq<Item>)
    ensures Shares(InnerOf(ClashMatch(on), right), left, true)
  {
    hide RowBag, Probe;
    var (m, f) := (ClashMatch(on), InnerOf(ClashMatch(on), right));
    if (forall l :: l in left ==> |f(l)| <= 1) && exists l :: l in left && f(l) != [] {
      var l0 :| l0 in left && f(l0) != [];
      var j := OnlyHit(m, l0, right);
      forall l | l in left && f(l) != []
        ensures RowBag(f(l)) == multiset{Glue(true, l.row, right[j].row)}
      {
        ProbeEmptyIff(m, l, right);
        var k := OnlyHit(m, l, right);
        assert Clashes(on, l0.row, right[j].row) && Clashes(on, l.row, right[k].row);
        var crossed := (m(l0.row, right[k].row), m(l.row, right[j].row));
      }
      assert OneEach(f, left, true, right[j].row);
    } else if forall l :: l in left ==> f(l) == [] {
      assert OneEach(f, left, true, []);
    }
  }

  lemma RightShares(on: Equality, left: seq<Item>, right: seq<Item>)
    ensures Shares(InnerBackOf(ClashMatch(on), left), right, false)
  {
    hide RowBag, ProbeBack;
    var (m, f) := (ClashMatch(on), InnerBackOf(ClashMatch(on), left));
    if (forall r :: r in right ==> |f(r)| <= 1) && exists r :: r in right && f(r) != [] {
      var r0 :| r0 in right && f(r0) != [];
      var i := OnlyHitBack(m, r0, left);
      forall r | r in right && f(r) != []
        ensures RowBag(f(r)) == multiset{Glue(false, r.row, left[i].row)}
      {
        var k := OnlyHitBack(m, r, left);
        assert Clashes(on, left[i].row, r0.row) && Clashes(on, left[k].row, r.row);
        var crossed := (m(left[k].row, r0.row), m(left[i].row, r.row));
      }
      assert OneEach(f, right, false, left[i].row);
    } else if forall r :: r in right ==> f(r) == [] {
      assert OneEach(f, right, false, []);
    }
  }

  /** No clash, or a single one whose row is the padded row the nested loop makes. */
  ghost predicate LeftClashHides(on: Equality, l: Item, right: seq<Item>, width: nat) {
    Probe(ClashMatch(on), l, right) == [] || (
      && Probe(KeyMatch(on), l, right) == []
      && RowBag(Probe(ClashMatch(on), l, right)) == multiset{l.row + Pad(width)})
  }

  ghost predicate RightClashHides(on: Equality, r: Item, left: seq<Item>, width: nat) {
    ProbeBack(ClashMatch(on), r, left) == [] || (
      && ProbeBack(KeyMatch(on), r, left) == []
      && RowBag(ProbeBack(ClashMatch(on), r, left)) == multiset{Pad(width) + r.row})
  }

  lemma LeftRowAgreesIff(on: Equality, l: Item, right: seq<Item>, width: nat)
    ensures RowBag(Probe(ClashMatch(on), l, right)) == RowBag(LostLeftOf(on, right, true, width)(l))
       <==> LeftClashHides(on, l, right, width)
  {
    hide RowBag, Probe;
    RowBagEmpty(Probe(ClashMatch(on), l, right));
    RowBagEmpty([]);
    RowBagSingle(LeftPadded(l, width));
  }

  lemma RightRowAgreesIff(on: Equality, r: Item, left: seq<Item>, width: nat)
    ensures RowBag(ProbeBack(ClashMatch(on), r, left)) == RowBag(LostRightOf(on, left, true, width)(r))
       <==> RightClashHides(on, r, left, width)
  {
    hide RowBag, ProbeBack, MatchesSome;
    ProbeBackEmptyIff(ClashMatch(on), left, r);
    ProbeBackEmptyIff(KeyMatch(on), left, r);
    RowBagEmpty(ProbeBack(ClashMatch(on), r, left));
    RowBagEmpty([]);
    RowBagSingle(Item(r.tid, Pad(width) + r.row));
  }

  lemma LeftLoses(on: Equality, left: seq<Item>, right: seq<Item>, width: nat)
    ensures OneEach(LostLeftOf(on, right, true, width), left, true, Pad(width))
    ensures forall l :: l in left ==> |LostLeftOf(on, right, true, width)(l)| <= |InnerOf(ClashMatch(on), right)(l)|
  {
    hide RowBag, Probe;
    forall l | l in left && LostLeftOf(on, right, true, width)(l) != []
      ensures RowBag(LostLeftOf(on, right, true, width)(l)) == multiset{Glue(true, l.row, Pad(width))}
    {
      RowBagSingle(LeftPadded(l, width));
    }
  }

  lemma RightLoses(on: Equality, left: seq<Item>, right: seq<Item>, width: nat)
    ensures OneEach(LostRightOf(on, left, true, width), right, false, Pad(width))
    ensures forall r :: r in right ==> |LostRightOf(on, left, true, width)(r)| <= |InnerBackOf(ClashMatch(on), left)(r)|
  {
    hide RowBag, ProbeBack, MatchesSome;
    forall r | r in right
      ensures LostRightOf(on, left, true, width)(r) == [] ||
        RowBag(LostRightOf(on, left, true, width)(r)) == multiset{Glue(false, r.row, Pad(width))}
      ensures |LostRightOf(on, left, true, width)(r)| <= |InnerBackOf(ClashMatch(on), left)(r)|
    {
      RowBagSingle(Item(r.tid, Pad(width) + r.row));
      ProbeBackEmptyIff(ClashMatch(on), left, r);
    }
  }

  /** A left merge join agrees with the nested loop exactly when each left row has no clash, or nothing
      but one clash whose row is the padded row. */
  lemma MergeLeftAgreesIff(on: Equality, left: seq<Item>, right: seq<Item>)
    ensures JoinBag(DefaultedMatch(on), left, right, Left) == RowBag(Reference(KeyMatch(on), left, right, Left))
       <==> forall i :: 0 <= i < |left| ==> LeftClashHides(on, left[i], right, RightPadWidth(left, right))
  {
    hide RowBag, JoinBag, FlatMap, LeftClashHides, OneEach, Shares, Reference;
    var width := RightPadWidth(left, right);
    var (f, g) := (InnerOf(ClashMatch(on), right), LostLeftOf(on, right, true, width));
    MergeAgreesIff(on, left, right, Left);
    FlatMapNothing(LostRightOf(on, left, false, Width(left)), right);
    RowBagEmpty([]);
    LeftShares(on, left, right);
    LeftLoses(on, left, right, width);
    RowByRow(f, g, left, true, Pad(width));
    forall l | l in left
      ensures RowBag(f(l)) == RowBag(g(l)) <==> LeftClashHides(on, l, right, width)
    {
      LeftRowAgreesIff(on, l, right, width);
    }
  }

  /** The same for a right merge join and its right rows. */
  lemma MergeRightAgreesIff(on: Equality, left: seq<Item>, right: seq<Item>)
    ensures JoinBag(DefaultedMatch(on), left, right, Right) == RowBag(Reference(KeyMatch(on), left, right, Right))
       <==> forall j :: 0 <= j < |right| ==> RightClashHides(on, right[j], left, Width(left))
  {
    hide RowBag, JoinBag, FlatMap, RightClashHides, OneEach, Shares, Reference;
    var width := Width(left);
    var (f, g) := (InnerBackOf(ClashMatch(on), left), LostRightOf(on, left, true, width));
    MergeAgreesIff(on, left, right, Right);
    FlatMapNothing(LostLeftOf(on, right, false, RightPadWidth(left, right)), left);
    RowBagEmpty([]);
    LoopExchange(ClashMatch(on), left, right);
    RightShares(on, left, right);
    RightLoses(on, left, right, width);
    RowByRow(f, g, right, false, Pad(width));
    forall r | r in right
      ensures RowBag(f(r)) == RowBag(g(r)) <==> RightClashHides(on, r, left, width)
    {
      RightRowAgreesIff(on, r, left, width);
    }
  }

  // ---- clashes that hide, and clashes that show --------------------------------

  /** A clash need not show in an outer join: here the clashing pair's row looks like the padded row
      the nested loop makes, so the two joins return the same rows all the same. */
  lemma ClashCanHide(t: Tid, u: Tid)
    ensures var on := Equality((r: Row) => None, (r: Row) => Some(""));
      var (left, right) := ([Item(t, ["x"])], [Item(u, [""])]);
      && !NoClash(on, left, right)
      && JoinBag(DefaultedMatch(on), left, right, Left) == RowBag(Reference(KeyMatch(on), left, right, Left))
  {
    hide JoinBag, Reference, RowBag, FlatMap;
    var on := Equality((r: Row) => None, (r: Row) => Some(""));
    var (l, r) := (Item(t, ["x"]), Item(u, [""]));
    assert Clashes(on, [l][0].row, [r][0].row);
    MergeLeftAgreesIff(on, [l], [r]);
    FlatMapSingle(PairFrom(KeyMatch(on), l), r);
    FlatMapSingle(PairFrom(ClashMatch(on), l), r);
    RowBagSingle(Item(t, ["x"] + [""]));
    assert Pad(1) == [""];
    assert LeftClashHides(on, l, [r], RightPadWidth([l], [r]));
  }

  /** A left row without a key and a right row with an empty one: every outer merge join pairs them,
      and the nested loop pads them instead. */
  lemma OuterMergeDiffers(t: Tid, u: Tid, jt: JoinType)
    requires OuterOrInner(jt)
    ensures var on := Equality((r: Row) => None, (r: Row) => Some(""));
      var (left, right) := ([Item(t, ["x"])], [Item(u, ["y"])]);
      && ClashRows(on, left, right) == multiset{["x", "y"]}
      && JoinBag(DefaultedMatch(on), left, right, jt) != RowBag(Reference(KeyMatch(on), left, right, jt))
  {
    hide JoinBag, Reference, LostPads, ClashRows;
    var on := Equality((r: Row) => None, (r: Row) => Some(""));
    var (l, r) := (Item(t, ["x"]), Item(u, ["y"]));
    MergeAgreesIff(on, [l], [r], jt);
    OneClash(on, l, r);
    assert ["x"] + ["y"] == ["x", "y"];
    LostPadsLackBoth(on, l, r, jt);
  }

  lemma OneClash(on: Equality, l: Item, r: Item)
    requires Clashes(on, l.row, r.row)
    ensures ClashRows(on, [l], [r]) == multiset{l.row + r.row}
  {
    hide RowBag, FlatMap;
    FlatMapSingle(PairFrom(ClashMatch(on), l), r);
    FlatMapSingle(InnerOf(ClashMatch(on), [r]), l);
    RowBagSingle(Item(l.tid, l.row + r.row));
  }

  /** The padded rows all have an empty half. */
  lemma LostPadsLackBoth(on: Equality, l: Item, r: Item, jt: JoinType)
    requires l.row == ["x"] && r.row == ["y"]
    ensures ["x", "y"] !in LostPads(on, [l], [r], jt)
  {
    hide RowBag;
    var (lostLeft, lostRight) := (LostLeftOf(on, [r], KeepsLeft(jt), 1), LostRightOf(on, [l], KeepsRight(jt), 1));
    FlatMapSingle(lostLeft, l);
    FlatMapSingle(lostRight, r);
    RowBagMembers(lostLeft(l), ["x", "y"]);
    RowBagMembers(lostRight(r), ["x", "y"]);
    assert (["x"] + Pad(1))[1] == "" && (Pad(1) + ["y"])[0] == "";
  }
}
