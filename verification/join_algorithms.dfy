/** The equi-join algorithms of src/executor/select/algorithms.rs, and what each of them
    computes in terms of the nested-loop join. */
module JoinAlgorithms {
  import opened Wrappers
  import opened JoinReference

  /** Both sides of `l = r`: what each side's expression evaluates to on a row. */
  datatype Equality = Equality(leftKey: Row -> Option<string>, rightKey: Row -> Option<string>)

  function KeyMatch(on: Equality): Matcher {
    (l: Row, r: Row) => on.leftKey(l).Some? && on.leftKey(l) == on.rightKey(r)
  }

  predicate KeepsLeft(jt: JoinType) {
    jt == Left || jt == Full
  }

  predicate KeepsRight(jt: JoinType) {
    jt == Right || jt == Full
  }

  predicate OuterOrInner(jt: JoinType) {
    jt == Inner || jt == Left || jt == Right || jt == Full
  }

  /** Right width used for padding by both algorithms: with no right row it is the left width. */
  function RightPadWidth(left: seq<Item>, right: seq<Item>): nat {
    if right == [] then Width(left) else Width(right)
  }

  /** The nested-loop join with the algorithms' pad widths. */
  function Reference(m: Matcher, left: seq<Item>, right: seq<Item>, jt: JoinType): seq<Item> {
    NestedLoop(m, left, right, jt, Width(left), RightPadWidth(left, right))
  }

  // ---- normal form of the four joins ----------------------------------------

  /** One left row's matches, or its padded row where the join keeps left rows. */
  function LeftPart(m: Matcher, right: seq<Item>, keep: bool, width: nat): Emitter {
    (l: Item) => if Probe(m, l, right) == [] && keep then [LeftPadded(l, width)] else Probe(m, l, right)
  }

  function RightPart(m: Matcher, left: seq<Item>, keep: bool, width: nat): Emitter {
    (r: Item) => if keep && !MatchesSome(m, left, r) then [Item(r.tid, Pad(width) + r.row)] else []
  }

  ghost function JoinBag(m: Matcher, left: seq<Item>, right: seq<Item>, jt: JoinType): multiset<Row> {
    RowBag(FlatMap(LeftPart(m, right, KeepsLeft(jt), RightPadWidth(left, right)), left))
    + RowBag(FlatMap(RightPart(m, left, KeepsRight(jt), Width(left)), right))
  }

  /** Each of the four joins is its left part plus its unmatched right rows. */
  lemma ReferenceBag(m: Matcher, left: seq<Item>, right: seq<Item>, jt: JoinType)
    requires OuterOrInner(jt)
    ensures RowBag(Reference(m, left, right, jt)) == JoinBag(m, left, right, jt)
  {
    var lp := LeftPart(m, right, KeepsLeft(jt), RightPadWidth(left, right));
    var rp := RightPart(m, left, KeepsRight(jt), Width(left));
    if KeepsLeft(jt) {
      FlatMapEqual(lp, LeftOf(m, right, RightPadWidth(left, right)), left);
    } else {
      FlatMapEqual(lp, InnerOf(m, right), left);
    }
    if KeepsRight(jt) {
      FlatMapEqual(rp, RightPadOf(m, left, Width(left)), right);
    } else {
      FlatMapNothing(rp, right);
    }
    match jt {
      case Right => RightJoinSplits(m, left, right, Width(left));
      case Full =>
        RowBagConcat(FlatMap(LeftOf(m, right, RightPadWidth(left, right)), left),
                     FlatMap(RightPadOf(m, left, Width(left)), right));
      case _ =>
    }
  }

  // ---- hash join ------------------------------------------------------------

  /** The rows stored under `key` in the hash table, in input order. */
  function Bucket(on: Equality, right: seq<Item>, key: string): seq<Row> {
    if right == [] then []
    else
      var n := |right| - 1;
      Bucket(on, right[..n], key) + if on.rightKey(right[n].row) == Some(key) then [right[n].row] else []
  }

  ghost predicate IsTable(table: map<string, seq<Row>>, on: Equality, right: seq<Item>) {
    forall k :: (k in table <==> Bucket(on, right, k) != []) && (k in table ==> table[k] == Bucket(on, right, k))
  }

  method BuildTable(on: Equality, right: seq<Item>) returns (table: map<string, seq<Row>>)
    ensures IsTable(table, on, right)
  {
    table := map[];
    for j := 0 to |right|
      invariant IsTable(table, on, right[..j])
    {
      assert right[..j + 1][..j] == right[..j];
      var key := on.rightKey(right[j].row);
      if key.Some? {
        var oldRows := if key.value in table then table[key.value] else [];
        table := table[key.value := oldRows + [right[j].row]];
      }
    }
    assert right[..|right|] == right;
  }

  function Joined(l: Item, rows: seq<Row>): seq<Item> {
    seq(|rows|, i requires 0 <= i < |rows| => Item(l.tid, l.row + rows[i]))
  }

  /** Looking the key up in the table finds exactly the nested loop's matches, in its order. */
  lemma {:induction false} BucketIsProbe(on: Equality, l: Item, right: seq<Item>, key: string)
    requires on.leftKey(l.row) == Some(key)
    ensures Joined(l, Bucket(on, right, key)) == Probe(KeyMatch(on), l, right)
  {
    if right != [] {
      var n := |right| - 1;
      BucketIsProbe(on, l, right[..n], key);
      var before := Bucket(on, right[..n], key);
      if on.rightKey(right[n].row) == Some(key) {
        assert Joined(l, before + [right[n].row]) == Joined(l, before) + [Item(l.tid, l.row + right[n].row)];
      } else {
        assert before + [] == before;
      }
    }
  }

  lemma UndefinedKeyMatchesNothing(on: Equality, l: Item, right: seq<Item>)
    requires on.leftKey(l.row).None?
    ensures Probe(KeyMatch(on), l, right) == []
  {
    ProbeEmptyIff(KeyMatch(on), l, right);
  }

  /** What probing emits for one left row: nothing at all when its key is undefined. */
  function HashProbeOf(on: Equality, right: seq<Item>, jt: JoinType, width: nat): Emitter {
    (l: Item) =>
      if on.leftKey(l.row).None? then []
      else if Probe(KeyMatch(on), l, right) == [] && jt == Left then [LeftPadded(l, width)]
      else Probe(KeyMatch(on), l, right)
  }

  function HashRightPadOf(on: Equality, left: seq<Item>, width: nat): Emitter {
    (r: Item) => if MatchesSome(KeyMatch(on), left, r) then [] else [Item(NO_TID, Pad(width) + r.row)]
  }

  function LeftPadOf(m: Matcher, right: seq<Item>, width: nat): Emitter {
    (l: Item) => if Probe(m, l, right) == [] then [LeftPadded(l, width)] else []
  }

  /** The three passes of `hash_join`. */
  function HashJoinRows(on: Equality, left: seq<Item>, right: seq<Item>, jt: JoinType): seq<Item> {
    var width := RightPadWidth(left, right);
    FlatMap(HashProbeOf(on, right, jt, width), left)
    + (if KeepsRight(jt) then FlatMap(HashRightPadOf(on, left, Width(left)), right) else [])
    + (if jt == Full then FlatMap(LeftPadOf(KeyMatch(on), right, width), left) else [])
  }

  method HashProbe(on: Equality, table: map<string, seq<Row>>, l: Item, ghost right: seq<Item>, jt: JoinType, width: nat)
    returns (result: seq<Item>)
    requires IsTable(table, on, right)
    ensures result == HashProbeOf(on, right, jt, width)(l)
  {
    result := [];
    var key := on.leftKey(l.row);
    if key.Some? {
      BucketIsProbe(on, l, right, key.value);
      if key.value in table {
        var rows := table[key.value];
        for k := 0 to |rows|
          invariant result == Joined(l, rows[..k])
        {
          result := result + [Item(l.tid, l.row + rows[k])];
        }
        assert rows[..|rows|] == rows;
      } else if jt == Left {
        result := [LeftPadded(l, width)];
      }
    }
  }

  /** Scan of the left rows for a given key, stopping at the first hit. */
  method LeftHasKey(on: Equality, left: seq<Item>, key: string) returns (matched: bool)
    ensures matched <==> exists i :: 0 <= i < |left| && on.leftKey(left[i].row) == Some(key)
  {
    for i := 0 to |left|
      invariant forall k :: 0 <= k < i ==> on.leftKey(left[k].row) != Some(key)
    {
      if on.leftKey(left[i].row) == Some(key) {
        return true;
      }
    }
    return false;
  }

  method RightHasKey(on: Equality, right: seq<Item>, key: string) returns (matched: bool)
    ensures matched <==> exists j :: 0 <= j < |right| && on.rightKey(right[j].row) == Some(key)
  {
    for j := 0 to |right|
      invariant forall k :: 0 <= k < j ==> on.rightKey(right[k].row) != Some(key)
    {
      if on.rightKey(right[j].row) == Some(key) {
        return true;
      }
    }
    return false;
  }

  method HashUnmatchedRight(on: Equality, left: seq<Item>, right: seq<Item>) returns (result: seq<Item>)
    ensures result == FlatMap(HashRightPadOf(on, left, Width(left)), right)
  {
    result := [];
    for j := 0 to |right|
      invariant result == FlatMap(HashRightPadOf(on, left, Width(left)), right[..j])
    {
      FlatMapSnoc(HashRightPadOf(on, left, Width(left)), right, j);
      var matched := false;
      var key := on.rightKey(right[j].row);
      if key.Some? {
        matched := LeftHasKey(on, left, key.value);
      }
      assert matched <==> MatchesSome(KeyMatch(on), left, right[j]);
      if !matched {
        result := result + [Item(NO_TID, Pad(Width(left)) + right[j].row)];
      }
    }
    assert right[..|right|] == right;
  }

  method HashUnmatchedLeft(on: Equality, left: seq<Item>, right: seq<Item>, width: nat) returns (result: seq<Item>)
    ensures result == FlatMap(LeftPadOf(KeyMatch(on), right, width), left)
  {
    result := [];
    for i := 0 to |left|
      invariant result == FlatMap(LeftPadOf(KeyMatch(on), right, width), left[..i])
    {
      FlatMapSnoc(LeftPadOf(KeyMatch(on), right, width), left, i);
      ProbeEmptyIff(KeyMatch(on), left[i], right);
      var matched := false;
      var key := on.leftKey(left[i].row);
      if key.Some? {
        matched := RightHasKey(on, right, key.value);
      }
      if !matched {
        result := result + [LeftPadded(left[i], width)];
      }
    }
    assert left[..|left|] == left;
  }

  method HashJoin(on: Equality, left: seq<Item>, right: seq<Item>, jt: JoinType) returns (result: seq<Item>)
    ensures result == HashJoinRows(on, left, right, jt)
  {
    var width := if right == [] then Width(left) else Width(right);
    var table := BuildTable(on, right);
    result := [];
    for i := 0 to |left|
      invariant result == FlatMap(HashProbeOf(on, right, jt, width), left[..i])
    {
      FlatMapSnoc(HashProbeOf(on, right, jt, width), left, i);
      var emitted := HashProbe(on, table, left[i], right, jt, width);
      result := result + emitted;
    }
    assert left[..|left|] == left;
    if jt == Right || jt == Full {
      var unmatched := HashUnmatchedRight(on, left, right);
      result := result + unmatched;
    }
    if jt == Full {
      var unmatched := HashUnmatchedLeft(on, left, right, width);
      result := result + unmatched;
    }
  }

  // ---- what the hash join computes ------------------------------------------

  predicate LeftKeysDefined(on: Equality, left: seq<Item>) {
    forall i :: 0 <= i < |left| ==> on.leftKey(left[i].row).Some?
  }

  /** An inner hash join is the nested loop, row for row and identifier for identifier. */
  lemma HashInnerIsNestedLoop(on: Equality, left: seq<Item>, right: seq<Item>)
    ensures HashJoinRows(on, left, right, Inner) == Reference(KeyMatch(on), left, right, Inner)
  {
    HashProbeInner(on, left, right, Inner, RightPadWidth(left, right));
  }

  lemma HashProbeInner(on: Equality, left: seq<Item>, right: seq<Item>, jt: JoinType, width: nat)
    requires jt != Left
    ensures FlatMap(HashProbeOf(on, right, jt, width), left) == FlatMap(InnerOf(KeyMatch(on), right), left)
  {
    forall l | l in left
      ensures HashProbeOf(on, right, jt, width)(l) == InnerOf(KeyMatch(on), right)(l)
    {
      if on.leftKey(l.row).None? {
        UndefinedKeyMatchesNothing(on, l, right);
      }
    }
    FlatMapEqual(HashProbeOf(on, right, jt, width), InnerOf(KeyMatch(on), right), left);
  }

  /** So is a left hash join when every left key is defined. */
  lemma HashLeftIsNestedLoop(on: Equality, left: seq<Item>, right: seq<Item>)
    requires LeftKeysDefined(on, left)
    ensures HashJoinRows(on, left, right, Left) == Reference(KeyMatch(on), left, right, Left)
  {
    var width := RightPadWidth(left, right);
    FlatMapEqual(HashProbeOf(on, right, Left, width), LeftOf(KeyMatch(on), right, width), left);
  }

  /** The padded rows of the left rows a left hash join loses. */
  function DroppedOf(on: Equality, width: nat): Emitter {
    (l: Item) => if on.leftKey(l.row).None? then [LeftPadded(l, width)] else []
  }

  /** In general a left hash join loses exactly the left rows whose key is undefined. */
  lemma HashLeftLosesUndefinedKeys(on: Equality, left: seq<Item>, right: seq<Item>)
    ensures RowBag(Reference(KeyMatch(on), left, right, Left))
         == RowBag(HashJoinRows(on, left, right, Left))
          + RowBag(FlatMap(DroppedOf(on, RightPadWidth(left, right)), left))
  {
    var width := RightPadWidth(left, right);
    forall l | l in left
      ensures RowBag(LeftOf(KeyMatch(on), right, width)(l))
           == RowBag(HashProbeOf(on, right, Left, width)(l)) + RowBag(DroppedOf(on, width)(l))
    {
      LostRow(on, l, right, width);
    }
    FlatMapSplit(LeftOf(KeyMatch(on), right, width), HashProbeOf(on, right, Left, width), DroppedOf(on, width), left);
    HashLeftRows(on, left, right);
  }

  lemma HashLeftRows(on: Equality, left: seq<Item>, right: seq<Item>)
    ensures HashJoinRows(on, left, right, Left)
         == FlatMap(HashProbeOf(on, right, Left, RightPadWidth(left, right)), left)
  {}

  lemma LostRow(on: Equality, l: Item, right: seq<Item>, width: nat)
    ensures RowBag(LeftOf(KeyMatch(on), right, width)(l))
         == RowBag(HashProbeOf(on, right, Left, width)(l)) + RowBag(DroppedOf(on, width)(l))
  {
    if on.leftKey(l.row).None? {
      UndefinedKeyMatchesNothing(on, l, right);
    }
  }

  lemma RowBagEmpty(s: seq<Item>)
    ensures RowBag(s) == multiset{} <==> s == []
  {
    if s != [] {
      assert s[|s| - 1].row in RowBag(s);
    }
  }

  /** Left hash join and nested loop agree exactly when every left key is defined. */
  lemma {:induction false} HashLeftAgreesIff(on: Equality, left: seq<Item>, right: seq<Item>)
    ensures RowBag(HashJoinRows(on, left, right, Left)) == RowBag(Reference(KeyMatch(on), left, right, Left))
       <==> LeftKeysDefined(on, left)
  {
    var dropped := DroppedOf(on, RightPadWidth(left, right));
    HashLeftLosesUndefinedKeys(on, left, right);
    RowBagEmpty(FlatMap(dropped, left));
    FlatMapEmptyIff(dropped, left);
    if forall x | x in left :: dropped(x) == [] {
      forall i | 0 <= i < |left|
        ensures on.leftKey(left[i].row).Some?
      {
        assert dropped(left[i]) == [];
      }
      assert RowBag(FlatMap(dropped, left)) == multiset{};
    } else {
      assert |RowBag(FlatMap(dropped, left))| > 0;
    }
  }

  lemma LeftPartSplits(m: Matcher, left: seq<Item>, right: seq<Item>, width: nat)
    ensures RowBag(FlatMap(LeftPart(m, right, true, width), left))
         == RowBag(FlatMap(InnerOf(m, right), left)) + RowBag(FlatMap(LeftPadOf(m, right, width), left))
  {
    forall l | l in left
      ensures RowBag(LeftPart(m, right, true, width)(l))
           == RowBag(InnerOf(m, right)(l)) + RowBag(LeftPadOf(m, right, width)(l))
    {}
    FlatMapSplit(LeftPart(m, right, true, width), InnerOf(m, right), LeftPadOf(m, right, width), left);
  }

  lemma {:induction false} HashRightPads(on: Equality, left: seq<Item>, right: seq<Item>)
    ensures RowBag(FlatMap(HashRightPadOf(on, left, Width(left)), right))
         == RowBag(FlatMap(RightPart(KeyMatch(on), left, true, Width(left)), right))
  {
    var h, p := HashRightPadOf(on, left, Width(left)), RightPart(KeyMatch(on), left, true, Width(left));
    forall r | r in right
      ensures RowBag(h(r)) == RowBag(p(r))
    {
      if !MatchesSome(KeyMatch(on), left, r) {
        RowBagSingle(h(r)[0]);
        RowBagSingle(p(r)[0]);
      }
    }
    FlatMapBagEqual(h, p, right);
  }

  lemma RowBagSingle(x: Item)
    ensures RowBag([x]) == multiset{x.row}
  {
    assert [x][..0] == [];
    assert RowBag([x]) == RowBag([]) + multiset{x.row};
  }

  /** A right hash join gives the nested loop's rows, undefined keys included. */
  lemma {:induction false} HashRightRows(on: Equality, left: seq<Item>, right: seq<Item>)
    ensures RowBag(HashJoinRows(on, left, right, Right)) == RowBag(Reference(KeyMatch(on), left, right, Right))
  {
    var m, width := KeyMatch(on), RightPadWidth(left, right);
    ReferenceBag(m, left, right, Right);
    HashProbeInner(on, left, right, Right, width);
    HashRightPads(on, left, right);
    FlatMapEqual(LeftPart(m, right, false, width), InnerOf(m, right), left);
    RowBagConcat(FlatMap(InnerOf(m, right), left), FlatMap(HashRightPadOf(on, left, Width(left)), right));
    HashPasses(on, left, right);
  }

  lemma HashPasses(on: Equality, left: seq<Item>, right: seq<Item>)
    ensures HashJoinRows(on, left, right, Right)
         == FlatMap(HashProbeOf(on, right, Right, RightPadWidth(left, right)), left)
          + FlatMap(HashRightPadOf(on, left, Width(left)), right)
  {}

  lemma RowBagThree(a: seq<Item>, b: seq<Item>, c: seq<Item>)
    ensures RowBag(a + b + c) == (RowBag(a) + RowBag(c)) + RowBag(b)
  {
    RowBagConcat(a + b, c);
    RowBagConcat(a, b);
  }

  /** So does a full hash join. */
  lemma {:induction false} HashFullRows(on: Equality, left: seq<Item>, right: seq<Item>)
    ensures RowBag(HashJoinRows(on, left, right, Full)) == RowBag(Reference(KeyMatch(on), left, right, Full))
  {
    var m, width := KeyMatch(on), RightPadWidth(left, right);
    ReferenceBag(m, left, right, Full);
    HashProbeInner(on, left, right, Full, width);
    HashRightPads(on, left, right);
    LeftPartSplits(m, left, right, width);
    RowBagThree(FlatMap(InnerOf(m, right), left), FlatMap(HashRightPadOf(on, left, Width(left)), right),
                FlatMap(LeftPadOf(m, right, width), left));
  }

  /** Hash join and nested loop give the same rows, for every join type that either pads or not. */
  lemma {:induction false} HashJoinCorrect(on: Equality, left: seq<Item>, right: seq<Item>, jt: JoinType)
    requires OuterOrInner(jt)
    requires jt == Left ==> LeftKeysDefined(on, left)
    ensures RowBag(HashJoinRows(on, left, right, jt)) == RowBag(Reference(KeyMatch(on), left, right, jt))
  {
    match jt {
      case Inner => HashInnerIsNestedLoop(on, left, right);
      case Left => HashLeftIsNestedLoop(on, left, right);
      case Right => HashRightRows(on, left, right);
      case Full => HashFullRows(on, left, right);
    }
  }
}
