/** Hash join, merge join and nested loop agree; where they do not, exactly why. */
module JoinTheorems {
  import opened JoinReference
  import opened JoinAlgorithms
  import opened MergeJoins

  // ---- two ON conditions that agree on the given rows -----------------------

  ghost predicate AgreeOn(m: Matcher, n: Matcher, left: seq<Item>, right: seq<Item>) {
    forall l, r :: l in left && r in right ==> m(l.row, r.row) == n(l.row, r.row)
  }

  lemma ProbeAgree(m: Matcher, n: Matcher, l: Item, right: seq<Item>)
    requires forall r :: r in right ==> m(l.row, r.row) == n(l.row, r.row)
    ensures Probe(m, l, right) == Probe(n, l, right)
  {
    FlatMapEqual(PairFrom(m, l), PairFrom(n, l), right);
  }

  lemma JoinBagAgree(m: Matcher, n: Matcher, left: seq<Item>, right: seq<Item>, jt: JoinType)
    requires AgreeOn(m, n, left, right)
    ensures JoinBag(m, left, right, jt) == JoinBag(n, left, right, jt)
  {
    hide RowBag, FlatMap;
    var lw, rw := Width(left), RightPadWidth(left, right);
    forall l | l in left
      ensures LeftPart(m, right, KeepsLeft(jt), rw)(l) == LeftPart(n, right, KeepsLeft(jt), rw)(l)
    {
      ProbeAgree(m, n, l, right);
    }
    FlatMapEqual(LeftPart(m, right, KeepsLeft(jt), rw), LeftPart(n, right, KeepsLeft(jt), rw), left);
    forall r | r in right
      ensures RightPart(m, left, KeepsRight(jt), lw)(r) == RightPart(n, left, KeepsRight(jt), lw)(r)
    {
      assert forall i :: 0 <= i < |left| ==> left[i] in left;
    }
    FlatMapEqual(RightPart(m, left, KeepsRight(jt), lw), RightPart(n, left, KeepsRight(jt), lw), right);
  }

  // ---- undefined keys in the merge join -------------------------------------

  /** Could this pair be joined by the merge join only because an undefined key reads as ""? */
  predicate Clashes(on: Equality, l: Row, r: Row) {
    && KeyOrDefault(on.leftKey(l)) == KeyOrDefault(on.rightKey(r))
    && (on.leftKey(l).None? || on.rightKey(r).None?)
  }

  predicate NoClash(on: Equality, left: seq<Item>, right: seq<Item>) {
    forall i, j :: 0 <= i < |left| && 0 <= j < |right| ==> !Clashes(on, left[i].row, right[j].row)
  }

  function ClashMatch(on: Equality): Matcher {
    (l: Row, r: Row) => Clashes(on, l, r)
  }

  /** Without clashes the merge join returns the nested loop's rows, in all four join types. */
  lemma {:induction false} MergeJoinAgrees(on: Equality, left: seq<Item>, right: seq<Item>, jt: JoinType)
    requires OuterOrInner(jt) && NoClash(on, left, right)
    ensures JoinBag(DefaultedMatch(on), left, right, jt) == RowBag(Reference(KeyMatch(on), left, right, jt))
  {
    forall l, r | l in left && r in right
      ensures DefaultedMatch(on)(l.row, r.row) == KeyMatch(on)(l.row, r.row)
    {
      var i :| 0 <= i < |left| && left[i] == l;
      var j :| 0 <= j < |right| && right[j] == r;
      assert !Clashes(on, left[i].row, right[j].row);
    }
    JoinBagAgree(DefaultedMatch(on), KeyMatch(on), left, right, jt);
    ReferenceBag(KeyMatch(on), left, right, jt);
  }

  lemma ProbeSplitsClashes(on: Equality, l: Item, right: seq<Item>)
    ensures RowBag(Probe(DefaultedMatch(on), l, right))
         == RowBag(Probe(KeyMatch(on), l, right)) + RowBag(Probe(ClashMatch(on), l, right))
  {
    forall r | r in right
      ensures RowBag(PairFrom(DefaultedMatch(on), l)(r))
           == RowBag(PairFrom(KeyMatch(on), l)(r)) + RowBag(PairFrom(ClashMatch(on), l)(r))
    {
      var k, c := KeyMatch(on)(l.row, r.row), ClashMatch(on)(l.row, r.row);
      assert DefaultedMatch(on)(l.row, r.row) <==> k || c;
      assert !(k && c);
    }
    FlatMapSplit(PairFrom(DefaultedMatch(on), l), PairFrom(KeyMatch(on), l), PairFrom(ClashMatch(on), l), right);
  }

  /** An inner merge join returns the nested loop's rows plus one row for every clashing pair. */
  lemma MergeInnerAddsClashes(on: Equality, left: seq<Item>, right: seq<Item>)
    ensures JoinBag(DefaultedMatch(on), left, right, Inner)
         == RowBag(Reference(KeyMatch(on), left, right, Inner)) + RowBag(FlatMap(InnerOf(ClashMatch(on), right), left))
  {
    hide RowBag, FlatMap;
    var d, k, c := InnerOf(DefaultedMatch(on), right), InnerOf(KeyMatch(on), right), InnerOf(ClashMatch(on), right);
    forall l | l in left
      ensures RowBag(d(l)) == RowBag(k(l)) + RowBag(c(l))
    {
      ProbeSplitsClashes(on, l, right);
    }
    FlatMapSplit(d, k, c, left);
    ReferenceBag(DefaultedMatch(on), left, right, Inner);
  }

  /** For the inner join the agreement is exact: it holds if and only if no pair clashes. */
  lemma MergeInnerAgreesIff(on: Equality, left: seq<Item>, right: seq<Item>)
    ensures JoinBag(DefaultedMatch(on), left, right, Inner) == RowBag(Reference(KeyMatch(on), left, right, Inner))
       <==> NoClash(on, left, right)
  {
    hide RowBag, FlatMap, JoinBag, Reference;
    var extra := FlatMap(InnerOf(ClashMatch(on), right), left);
    MergeInnerAddsClashes(on, left, right);
    RowBagEmpty(extra);
    FlatMapEmptyIff(InnerOf(ClashMatch(on), right), left);
    if NoClash(on, left, right) {
      MergeJoinAgrees(on, left, right, Inner);
    } else {
      var i, j :| 0 <= i < |left| && 0 <= j < |right| && Clashes(on, left[i].row, right[j].row);
      ProbeEmptyIff(ClashMatch(on), left[i], right);
      assert right[j] in right && left[i] in left;
      assert InnerOf(ClashMatch(on), right)(left[i]) != [];
      assert |RowBag(extra)| > 0;
    }
  }

  // ---- dispatch -------------------------------------------------------------

  predicate RightKeysDefined(on: Equality, right: seq<Item>) {
    forall j :: 0 <= j < |right| ==> on.rightKey(right[j].row).Some?
  }

  datatype JoinAlgorithm = NestedLoopAlgorithm | HashAlgorithm | MergeAlgorithm

  function ChooseJoinAlgorithm(leftSize: nat, rightSize: nat): JoinAlgorithm {
    if leftSize <= 1000 || rightSize <= 1000 then HashAlgorithm else MergeAlgorithm
  }

  /** `execute_join` on an equality: whichever algorithm the sizes select, when every key is
      defined the rows are those of the nested loop. */
  method ExecuteEquiJoin(on: Equality, left: seq<Item>, right: seq<Item>, jt: JoinType) returns (result: seq<Item>)
    ensures OuterOrInner(jt) && LeftKeysDefined(on, left) && RightKeysDefined(on, right) ==>
      RowBag(result) == RowBag(Reference(KeyMatch(on), left, right, jt))
    ensures (|left| <= 1000 || |right| <= 1000) && (jt == Inner || (jt == Left && LeftKeysDefined(on, left))) ==>
      result == Reference(KeyMatch(on), left, right, jt)
    ensures |left| <= 1000 || |right| <= 1000 ==> result == HashJoinRows(on, left, right, jt)
    ensures |left| > 1000 && |right| > 1000 ==> ItemBag(result) == ItemBag(JoinItems(DefaultedMatch(on), left, right, jt))
  {
    hide ItemBag, JoinItems, RowBag, FlatMap, JoinBag, Reference, HashJoinRows;
    if ChooseJoinAlgorithm(|left|, |right|) == HashAlgorithm {
      result := HashJoin(on, left, right, jt);
      if jt == Inner {
        HashInnerIsNestedLoop(on, left, right);
      } else if jt == Left && LeftKeysDefined(on, left) {
        HashLeftIsNestedLoop(on, left, right);
      } else if OuterOrInner(jt) && jt != Left {
        HashJoinCorrect(on, left, right, jt);
      }
    } else {
      result := MergeJoin(on, left, right, jt);
      if OuterOrInner(jt) && LeftKeysDefined(on, left) && RightKeysDefined(on, right) {
        MergeJoinAgrees(on, left, right, jt);
      }
    }
  }

  // ---- the nested loop as joins.rs runs it ----------------------------------

  predicate HasRow(items: seq<Item>, row: Row) {
    exists i :: 0 <= i < |items| && items[i].row == row
  }

  lemma {:induction false} RowBagMembers(items: seq<Item>, row: Row)
    ensures row in RowBag(items) <==> HasRow(items, row)
    decreases |items|
  {
    if items != [] {
      var n := |items| - 1;
      RowBagMembers(items[..n], row);
      LastRow(items, row);
    }
  }

  lemma LastRow(items: seq<Item>, row: Row)
    requires items != []
    ensures HasRow(items, row) <==> items[|items| - 1].row == row || HasRow(items[..|items| - 1], row)
  {
    var n := |items| - 1;
    if HasRow(items, row) {
      var i :| 0 <= i < |items| && items[i].row == row;
      assert i < n ==> items[..n][i].row == row;
    }
    if HasRow(items[..n], row) {
      var i :| 0 <= i < n && items[..n][i].row == row;
      assert items[i].row == row;
    }
  }

  /** With no right rows every left row is padded. */
  lemma {:induction false} PaddedRows(m: Matcher, left: seq<Item>, width: nat)
    ensures |FlatMap(LeftOf(m, [], width), left)| == |left|
    ensures forall i :: 0 <= i < |left| ==> FlatMap(LeftOf(m, [], width), left)[i] == LeftPadded(left[i], width)
    decreases |left|
  {
    if left != [] {
      var n := |left| - 1;
      PaddedRows(m, left[..n], width);
      assert Probe(m, left[n], []) == [];
    }
  }

  lemma {:induction false} LongestRow(left: seq<Item>) returns (k: nat)
    requires left != []
    ensures k < |left| && forall i :: 0 <= i < |left| ==> |left[i].row| <= |left[k].row|
    decreases |left|
  {
    var n := |left| - 1;
    k := n;
    if n > 0 {
      var j := LongestRow(left[..n]);
      assert forall i :: 0 <= i < n ==> |left[..n][i].row| <= |left[..n][j].row|;
      k := if |left[j].row| > |left[n].row| then j else n;
      assert forall i :: 0 <= i < n ==> left[..n][i] == left[i];
    }
  }

  /** Padding with two different widths cannot give the same rows. */
  lemma WidthsShow(m: Matcher, left: seq<Item>, width: nat)
    requires left != [] && width > 0
    ensures RowBag(FlatMap(LeftOf(m, [], 0), left)) != RowBag(FlatMap(LeftOf(m, [], width), left))
  {
    hide RowBag, FlatMap;
    var (bare, padded) := (FlatMap(LeftOf(m, [], 0), left), FlatMap(LeftOf(m, [], width), left));
    PaddedRows(m, left, 0);
    PaddedRows(m, left, width);
    var k := LongestRow(left);
    RowBagMembers(padded, padded[k].row);
    RowBagMembers(bare, padded[k].row);
    assert forall i :: 0 <= i < |bare| ==> |bare[i].row| == |left[i].row|;
    assert |padded[k].row| == |left[k].row| + width;
  }

  /** `nested_loop_join` evaluates the condition on combined rows and pads with the right width,
      0 when there are no right rows.  When its condition decides the same pairs as the keys do,
      it returns the same rows as the other two, except exactly when the join keeps left rows, there
      is no right row to take the width from, and the first left row is not empty. */
  lemma NestedLoopAgreesIff(on: Equality, cond: Row -> bool, left: seq<Item>, right: seq<Item>, jt: JoinType)
    requires OuterOrInner(jt)
    requires AgreeOn(OnCombined(cond), KeyMatch(on), left, right)
    ensures RowBag(NestedLoop(OnCombined(cond), left, right, jt, Width(left), Width(right)))
         == RowBag(Reference(KeyMatch(on), left, right, jt))
       <==> !(KeepsLeft(jt) && right == [] && Width(left) > 0)
  {
    hide RowBag, FlatMap, JoinBag;
    var m := OnCombined(cond);
    ReferenceBag(m, left, right, jt);
    ReferenceBag(KeyMatch(on), left, right, jt);
    JoinBagAgree(m, KeyMatch(on), left, right, jt);
    if KeepsLeft(jt) && right == [] && Width(left) > 0 {
      var pads := RightPadOf(m, left, Width(left));
      FlatMapNil(pads);
      WidthsShow(m, left, Width(left));
      var (bare, padded) := (FlatMap(LeftOf(m, [], 0), left), FlatMap(LeftOf(m, [], Width(left)), left));
      assert bare + [] == bare && padded + [] == padded;
    } else {
      assert NestedLoop(m, left, right, jt, Width(left), Width(right)) == Reference(m, left, right, jt);
    }
  }
}
