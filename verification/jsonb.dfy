/** JSON values: reading, updating and comparing along paths (src/types/jsonb.rs). */
module Jsonb {
  import opened Wrappers

  /** A number is the text it prints as; scalars that print alike are the same scalar. */
  datatype Json =
    | Null
    | Bool(b: bool)
    | Number(shown: string)
    | Text(chars: string)
    | Array(items: seq<Json>)
    | Object(members: seq<Member>)

  datatype Member = Member(key: string, value: Json)

  type Path = seq<string>

  // ---- path steps -----------------------------------------------------------

  predicate Digits(s: string) {
    s != [] && forall i :: 0 <= i < |s| ==> '0' <= s[i] <= '9'
  }

  function Decimal(s: string): nat
    requires forall i :: 0 <= i < |s| ==> '0' <= s[i] <= '9'
  {
    if s == [] then 0 else 10 * Decimal(s[..|s| - 1]) + (s[|s| - 1] as int - '0' as int)
  }

  /** An index is digits, after an optional plus sign, whose value fits 64 bits. */
  function ParseIndex(s: string): Option<nat> {
    var digits := if s != [] && s[0] == '+' then s[1..] else s;
    if Digits(digits) && Decimal(digits) < 0x1_0000_0000_0000_0000 then Some(Decimal(digits)) else None
  }

  /** Updates take a step that is not an index for index 0. */
  function IndexOrZero(s: string): nat {
    if ParseIndex(s).Some? then ParseIndex(s).value else 0
  }

  /** The first member with the key, or the length. */
  function Position(members: seq<Member>, key: string): (p: nat)
    ensures p <= |members|
    ensures p < |members| ==> members[p].key == key
    ensures forall i :: 0 <= i < p ==> members[i].key != key
  {
    if members == [] || members[0].key == key then 0 else 1 + Position(members[1..], key)
  }

  predicate Has(members: seq<Member>, key: string) {
    Position(members, key) < |members|
  }

  // ---- operations -----------------------------------------------------------

  function Get(j: Json, path: Path): Option<Json>
    decreases |path|
  {
    if path == [] then Some(j)
    else
      match j
      case Object(members) =>
        if Has(members, path[0]) then Get(members[Position(members, path[0])].value, path[1..]) else None
      case Array(items) =>
        var index := ParseIndex(path[0]);
        if index.Some? && index.value < |items| then Get(items[index.value], path[1..]) else None
      case _ => None
  }

  /** What a missing member or element becomes: the value, wrapped in objects along the rest of the path. */
  function Wrapped(path: Path, v: Json): Json
    decreases |path|
  {
    if path == [] then v else Object([Member(path[0], Wrapped(path[1..], v))])
  }

  function Set(j: Json, path: Path, v: Json): Json
    decreases |path|
  {
    if path == [] then v
    else
      match j
      case Object(members) =>
        var p := Position(members, path[0]);
        if p < |members| then Object(members[p := Member(members[p].key, Set(members[p].value, path[1..], v))])
        else Object(members + [Member(path[0], Wrapped(path[1..], v))])
      case Array(items) =>
        var i := IndexOrZero(path[0]);
        if i < |items| then Array(items[i := Set(items[i], path[1..], v)])
        else Array(items + [Wrapped(path[1..], v)])
      case _ => v
  }

  /** The source builds missing values by setting the rest of the path in an empty object. */
  lemma WrappedIsSet(path: Path, v: Json)
    ensures Set(Object([]), path, v) == Wrapped(path, v)
  {}

  predicate Scalar(j: Json) {
    !j.Array? && !j.Object?
  }

  predicate Contains(a: Json, b: Json)
    decreases b
  {
    if a.Object? && b.Object? then
      forall m :: m in b.members ==>
        Has(a.members, m.key) && Contains(a.members[Position(a.members, m.key)].value, m.value)
    else if a.Array? && b.Array? then
      forall y :: y in b.items ==> exists x :: x in a.items && Contains(x, y)
    else Scalar(a) && a == b
  }

  // ---- reading what was written ---------------------------------------------

  /** Can the path be written at all?  Not below a scalar, not at an array step that is no index, and
      not beyond the array's end. */
  predicate Settable(j: Json, path: Path)
    decreases |path|
  {
    path == [] ||
    match j
    case Object(members) =>
      Has(members, path[0]) ==> Settable(members[Position(members, path[0])].value, path[1..])
    case Array(items) =>
      var index := ParseIndex(path[0]);
      index.Some? && index.value <= |items| && (index.value < |items| ==> Settable(items[index.value], path[1..]))
    case _ => false
  }

  lemma {:induction false} ResolvingIsSettable(j: Json, path: Path)
    requires Get(j, path).Some?
    ensures Settable(j, path)
    decreases |path|
  {
    if path != [] {
      match j
      case Object(members) => ResolvingIsSettable(members[Position(members, path[0])].value, path[1..]);
      case Array(items) => ResolvingIsSettable(items[ParseIndex(path[0]).value], path[1..]);
    }
  }

  lemma {:induction false} GetWrapped(path: Path, v: Json)
    ensures Get(Wrapped(path, v), path) == Some(v)
    decreases |path|
  {
    if path != [] {
      GetWrapped(path[1..], v);
    }
  }

  function Size(j: Json): nat
    decreases j, 1
  {
    match j
    case Object(members) => 1 + MembersSize(members)
    case Array(items) => 1 + ItemsSize(items)
    case _ => 1
  }

  function MembersSize(members: seq<Member>): nat
    decreases members, 0
  {
    if members == [] then 0 else MemberSize(members[0]) + MembersSize(members[1..])
  }

  function MemberSize(m: Member): nat
    decreases m, 0
  {
    Size(m.value)
  }

  function ItemsSize(items: seq<Json>): nat
    decreases items, 0
  {
    if items == [] then 0 else Size(items[0]) + ItemsSize(items[1..])
  }

  lemma MemberIsSmaller(members: seq<Member>, i: nat)
    requires i < |members|
    ensures Size(members[i].value) <= MembersSize(members)
  {
    if i > 0 {
      MemberIsSmaller(members[1..], i - 1);
    }
  }

  lemma ItemIsSmaller(items: seq<Json>, i: nat)
    requires i < |items|
    ensures Size(items[i]) <= ItemsSize(items)
  {
    if i > 0 {
      ItemIsSmaller(items[1..], i - 1);
    }
  }

  /** What is found inside a value is smaller than it, so never the value itself. */
  lemma {:induction false} InnerIsSmaller(j: Json, path: Path)
    requires path != [] && Get(j, path).Some?
    ensures Size(Get(j, path).value) < Size(j)
    decreases |path|
  {
    match j
    case Object(members) =>
      var p := Position(members, path[0]);
      MemberIsSmaller(members, p);
      if path[1..] != [] {
        InnerIsSmaller(members[p].value, path[1..]);
      }
    case Array(items) =>
      var i := ParseIndex(path[0]).value;
      ItemIsSmaller(items, i);
      if path[1..] != [] {
        InnerIsSmaller(items[i], path[1..]);
      }
  }

  lemma PositionAfterUpdate(members: seq<Member>, p: nat, m: Member, key: string)
    requires p < |members| && m.key == members[p].key
    ensures Position(members[p := m], key) == Position(members, key)
    decreases |members|
  {
    if members[0].key != key {
      if p > 0 {
        assert members[p := m][1..] == members[1..][p - 1 := m];
        PositionAfterUpdate(members[1..], p - 1, m, key);
      } else {
        assert members[p := m][1..] == members[1..];
      }
    }
  }

  lemma PositionAfterPush(members: seq<Member>, m: Member, key: string)
    ensures Position(members + [m], key) ==
      if Has(members, key) then Position(members, key)
      else if m.key == key then |members| else |members| + 1
    decreases |members|
  {
    if members != [] {
      assert (members + [m])[1..] == members[1..] + [m];
      PositionAfterPush(members[1..], m, key);
    }
  }

  /** Reading a path after writing it returns the new value exactly when the path can be written. */
  lemma {:induction false} SetThenGetIff(j: Json, path: Path, v: Json)
    ensures Get(Set(j, path, v), path) == Some(v) <==> Settable(j, path)
    decreases |path|
  {
    if path != [] {
      var rest := path[1..];
      GetWrapped(rest, v);
      match j {
        case Object(members) =>
          var p := Position(members, path[0]);
          if p < |members| {
            SetThenGetIff(members[p].value, rest, v);
            PositionAfterUpdate(members, p, Member(members[p].key, Set(members[p].value, rest, v)), path[0]);
          } else {
            PositionAfterPush(members, Member(path[0], Wrapped(rest, v)), path[0]);
          }
        case Array(items) =>
          var i := IndexOrZero(path[0]);
          if i < |items| {
            SetThenGetIff(items[i], rest, v);
          }
        case _ =>
          if Get(v, path).Some? {
            InnerIsSmaller(v, path);
          }
      }
    }
  }

  /** Writing back what a path holds changes nothing. */
  lemma {:induction false} SetOldIsIdentity(j: Json, path: Path)
    requires Get(j, path).Some?
    ensures Set(j, path, Get(j, path).value) == j
    decreases |path|
  {
    if path != [] {
      match j
      case Object(members) => SetOldIsIdentity(members[Position(members, path[0])].value, path[1..]);
      case Array(items) => SetOldIsIdentity(items[ParseIndex(path[0]).value], path[1..]);
    }
  }

  // ---- writing twice --------------------------------------------------------

  /** A second write meets the first: like `Settable`, except that an array step that is no index is
      taken for index 0 both times. */
  predicate Rewritable(j: Json, path: Path)
    decreases |path|
  {
    path == [] ||
    match j
    case Object(members) =>
      Has(members, path[0]) ==> Rewritable(members[Position(members, path[0])].value, path[1..])
    case Array(items) =>
      var i := IndexOrZero(path[0]);
      i <= |items| && (i < |items| ==> Rewritable(items[i], path[1..]))
    case _ => false
  }

  lemma {:induction false} SettableIsRewritable(j: Json, path: Path)
    requires Settable(j, path)
    ensures Rewritable(j, path)
    decreases |path|
  {
    if path != [] {
      match j
      case Object(members) =>
        if Has(members, path[0]) {
          SettableIsRewritable(members[Position(members, path[0])].value, path[1..]);
        }
      case Array(items) =>
        if ParseIndex(path[0]).value < |items| {
          SettableIsRewritable(items[ParseIndex(path[0]).value], path[1..]);
        }
    }
  }

  lemma {:induction false} SetWrapped(path: Path, v: Json, w: Json)
    ensures Set(Wrapped(path, v), path, w) == Wrapped(path, w)
    decreases |path|
  {
    if path != [] {
      SetWrapped(path[1..], v, w);
    }
  }

  lemma {:induction false} SetMemberTwice(members: seq<Member>, path: Path, v: Json, w: Json)
    requires path != [] && Has(members, path[0])
    requires var oldValue := members[Position(members, path[0])].value;
      Set(Set(oldValue, path[1..], v), path[1..], w) == Set(oldValue, path[1..], w)
    ensures Set(Set(Object(members), path, v), path, w) == Set(Object(members), path, w)
  {
    var p, rest := Position(members, path[0]), path[1..];
    var m := Member(members[p].key, Set(members[p].value, rest, v));
    PositionAfterUpdate(members, p, m, path[0]);
    var updated := members[p := m];
    assert Set(Object(members), path, v) == Object(updated);
    assert Set(Object(updated), path, w) == Object(updated[p := Member(m.key, Set(m.value, rest, w))]);
    assert updated[p := Member(m.key, Set(m.value, rest, w))] == members[p := Member(m.key, Set(m.value, rest, w))];
  }

  lemma SetNewMemberTwice(members: seq<Member>, path: Path, v: Json, w: Json)
    requires path != [] && !Has(members, path[0])
    ensures Set(Set(Object(members), path, v), path, w) == Set(Object(members), path, w)
  {
    var p, rest := |members|, path[1..];
    SetWrapped(rest, v, w);
    var m := Member(path[0], Wrapped(rest, v));
    PositionAfterPush(members, m, path[0]);
    var updated := members + [m];
    assert Set(Object(members), path, v) == Object(updated);
    assert Set(Object(updated), path, w) == Object(updated[p := Member(m.key, Wrapped(rest, w))]);
    assert updated[p := Member(m.key, Wrapped(rest, w))] == members + [Member(m.key, Wrapped(rest, w))];
  }

  lemma SetItemTwice(items: seq<Json>, path: Path, v: Json, w: Json)
    requires path != [] && IndexOrZero(path[0]) <= |items|
    requires var i := IndexOrZero(path[0]);
      i < |items| ==> Set(Set(items[i], path[1..], v), path[1..], w) == Set(items[i], path[1..], w)
    ensures Set(Set(Array(items), path, v), path, w) == Set(Array(items), path, w)
  {
    var i, rest := IndexOrZero(path[0]), path[1..];
    SetWrapped(rest, v, w);
    if i < |items| {
      var updated := items[i := Set(items[i], rest, v)];
      assert updated[i := Set(items[i], rest, w)] == items[i := Set(items[i], rest, w)];
    } else {
      var updated := items + [Wrapped(rest, v)];
      assert updated[i := Wrapped(rest, w)] == items + [Wrapped(rest, w)];
    }
  }

  lemma {:induction false} SecondSetWins(j: Json, path: Path, v: Json, w: Json)
    requires Rewritable(j, path)
    ensures Set(Set(j, path, v), path, w) == Set(j, path, w)
    decreases |path|
  {
    if path != [] {
      match j
      case Object(members) =>
        if Has(members, path[0]) {
          SecondSetWins(members[Position(members, path[0])].value, path[1..], v, w);
          SetMemberTwice(members, path, v, w);
        } else {
          SetNewMemberTwice(members, path, v, w);
        }
      case Array(items) =>
        var i := IndexOrZero(path[0]);
        if i < |items| {
          SecondSetWins(items[i], path[1..], v, w);
        }
        SetItemTwice(items, path, v, w);
    }
  }

  lemma {:induction false} OtherwiseItDoesNot(j: Json, path: Path)
    requires !Rewritable(j, path)
    ensures Set(Set(j, path, Object([])), path, Null) != Set(j, path, Null)
    decreases |path|
  {
    var rest := path[1..];
    match j
    case Object(members) =>
      var p := Position(members, path[0]);
      OtherwiseItDoesNot(members[p].value, rest);
      var m := Member(members[p].key, Set(members[p].value, rest, Object([])));
      PositionAfterUpdate(members, p, m, path[0]);
      var (twice, once) := (Set(Set(j, path, Object([])), path, Null), Set(j, path, Null));
      assert twice.members[p].value == Set(m.value, rest, Null);
      assert once.members[p].value == Set(members[p].value, rest, Null);
    case Array(items) =>
      var i := IndexOrZero(path[0]);
      if i < |items| {
        OtherwiseItDoesNot(items[i], rest);
        var (twice, once) := (Set(Set(j, path, Object([])), path, Null), Set(j, path, Null));
        assert twice.items[i] == Set(Set(items[i], rest, Object([])), rest, Null);
        assert once.items[i] == Set(items[i], rest, Null);
      } else {
        assert |Set(Set(j, path, Object([])), path, Null).items| == |items| + 2;
        assert |Set(j, path, Null).items| == |items| + 1;
      }
    case _ =>
  }

  /** A second write to a path overrides the first, whatever the two values, exactly when the path is
      rewritable. */
  lemma SecondSetWinsIff(j: Json, path: Path)
    ensures (forall v, w :: Set(Set(j, path, v), path, w) == Set(j, path, w)) <==> Rewritable(j, path)
  {
    if Rewritable(j, path) {
      forall v, w
        ensures Set(Set(j, path, v), path, w) == Set(j, path, w)
      {
        SecondSetWins(j, path, v, w);
      }
    } else {
      OtherwiseItDoesNot(j, path);
    }
  }

  // ---- paths that part ------------------------------------------------------

  /** The index an array write lands on: one past the end when it is beyond it. */
  function Landing(items: seq<Json>, step: string): (i: nat)
    ensures i <= |items|
  {
    if IndexOrZero(step) < |items| then IndexOrZero(step) else |items|
  }

  /** At some value on their way, and above the first scalar, the write and the read part. */
  predicate Keeps(j: Json, p: Path, q: Path)
    decreases |p|
  {
    p != [] && q != [] &&
    match j
    case Object(members) =>
      p[0] != q[0] ||
      Keeps(if Has(members, p[0]) then members[Position(members, p[0])].value else Object([]), p[1..], q[1..])
    case Array(items) =>
      var i := Landing(items, p[0]);
      ParseIndex(q[0]) != Some(i) || Keeps(if i < |items| then items[i] else Object([]), p[1..], q[1..])
    case _ => false
  }

  /** Writing a member changes what is read at a key only if it is the same key. */
  lemma MemberAfterSet(members: seq<Member>, p: Path, q: Path, v: Json)
    requires p != [] && q != []
    ensures Get(Set(Object(members), p, v), q) ==
      if p[0] != q[0] then Get(Object(members), q)
      else if Has(members, p[0]) then Get(Set(members[Position(members, p[0])].value, p[1..], v), q[1..])
      else Get(Wrapped(p[1..], v), q[1..])
  {
    hide Get, Set, Wrapped;
    var at := Position(members, p[0]);
    GetMember(members, q);
    SetMember(members, p, v);
    if at < |members| {
      var m := Member(members[at].key, Set(members[at].value, p[1..], v));
      PositionAfterUpdate(members, at, m, q[0]);
      GetMember(members[at := m], q);
      if q[0] != p[0] && Has(members, q[0]) {
        assert Position(members, q[0]) != at;
      }
    } else {
      var m := Member(p[0], Wrapped(p[1..], v));
      PositionAfterPush(members, m, q[0]);
      GetMember(members + [m], q);
    }
  }

  lemma SetMember(members: seq<Member>, p: Path, v: Json)
    requires p != []
    ensures var at := Position(members, p[0]);
      Set(Object(members), p, v) == Object(
        if at < |members| then members[at := Member(members[at].key, Set(members[at].value, p[1..], v))]
        else members + [Member(p[0], Wrapped(p[1..], v))])
  {}

  lemma GetMember(members: seq<Member>, q: Path)
    requires q != []
    ensures Get(Object(members), q) ==
      if Has(members, q[0]) then Get(members[Position(members, q[0])].value, q[1..]) else None
  {}

  lemma ItemAfterSet(items: seq<Json>, p: Path, q: Path, v: Json)
    requires p != [] && q != []
    ensures Get(Set(Array(items), p, v), q) ==
      var i := Landing(items, p[0]);
      if ParseIndex(q[0]) != Some(i) then Get(Array(items), q)
      else if i < |items| then Get(Set(items[i], p[1..], v), q[1..])
      else Get(Wrapped(p[1..], v), q[1..])
  {
    hide ParseIndex;
  }

  lemma GetItem(items: seq<Json>, q: Path)
    requires q != []
    ensures Get(Array(items), q) ==
      var index := ParseIndex(q[0]);
      if index.Some? && index.value < |items| then Get(items[index.value], q[1..]) else None
  {
    hide ParseIndex;
  }

  lemma NothingInEmpty(q: Path)
    requires q != []
    ensures Get(Object([]), q) == None
  {}

  lemma {:induction false} KeptPathIsUnaffected(j: Json, p: Path, q: Path, v: Json)
    requires Keeps(j, p, q)
    ensures Get(Set(j, p, v), q) == Get(j, q)
    decreases |p|
  {
    hide Set, Get, Wrapped, ParseIndex, Landing;
    var (below, beyond) := (p[1..], q[1..]);
    match j
    case Object(members) =>
      MemberAfterSet(members, p, q, v);
      GetMember(members, q);
      if p[0] == q[0] && Has(members, p[0]) {
        KeptPathIsUnaffected(members[Position(members, p[0])].value, below, beyond, v);
      } else if p[0] == q[0] {
        KeptPathIsUnaffected(Object([]), below, beyond, v);
        WrappedIsSet(below, v);
        NothingInEmpty(beyond);
      }
    case Array(items) =>
      var i := Landing(items, p[0]);
      ItemAfterSet(items, p, q, v);
      GetItem(items, q);
      if ParseIndex(q[0]) == Some(i) && i < |items| {
        KeptPathIsUnaffected(items[i], below, beyond, v);
      } else if ParseIndex(q[0]) == Some(i) {
        KeptPathIsUnaffected(Object([]), below, beyond, v);
        WrappedIsSet(below, v);
        NothingInEmpty(beyond);
      }
  }

  /** Different values written leave different results. */
  lemma {:induction false} SetIsInjective(j: Json, path: Path, v: Json, w: Json)
    requires Set(j, path, v) == Set(j, path, w)
    ensures v == w
    decreases |path|
  {
    if path != [] {
      match j
      case Object(members) =>
        var p := Position(members, path[0]);
        SetMember(members, path, v);
        SetMember(members, path, w);
        if p < |members| {
          var (x, y) := (Set(members[p].value, path[1..], v), Set(members[p].value, path[1..], w));
          assert members[p := Member(members[p].key, x)][p] == members[p := Member(members[p].key, y)][p];
          SetIsInjective(members[p].value, path[1..], v, w);
        } else {
          var (x, y) := (Wrapped(path[1..], v), Wrapped(path[1..], w));
          assert (members + [Member(path[0], x)])[|members|] == (members + [Member(path[0], y)])[|members|];
          GetWrapped(path[1..], v);
          GetWrapped(path[1..], w);
        }
      case Array(items) =>
        var i := Landing(items, path[0]);
        assert Set(j, path, v).items[i] == Set(j, path, w).items[i];
        if i < |items| {
          SetIsInjective(items[i], path[1..], v, w);
        } else {
          GetWrapped(path[1..], v);
          GetWrapped(path[1..], w);
        }
      case _ =>
    }
  }

  lemma SomethingElse(j: Json, q: Path) returns (v: Json)
    ensures Get(v, q) != Get(j, q)
  {
    GetWrapped(q, Null);
    if q == [] {
      v := if j == Null then Bool(true) else Null;
    } else {
      v := if Get(j, q).None? then Wrapped(q, Null) else Null;
    }
  }

  /** Where the paths do not part, some value written shows on the other path. */
  lemma {:induction false} Disturbance(j: Json, p: Path, q: Path) returns (v: Json)
    requires !Keeps(j, p, q)
    ensures Get(Set(j, p, v), q) != Get(j, q)
    decreases |p|
  {
    hide ParseIndex, Landing;
    if p == [] {
      v := SomethingElse(j, q);
    } else if q == [] {
      v := if Set(j, p, Null) == j then Bool(true) else Null;
      if Set(j, p, v) == j {
        SetIsInjective(j, p, Null, Bool(true));
      }
    } else {
      v := DisturbanceBelow(j, p, q);
    }
  }

  lemma {:induction false} DisturbanceBelow(j: Json, p: Path, q: Path) returns (v: Json)
    requires p != [] && q != [] && !Keeps(j, p, q)
    ensures Get(Set(j, p, v), q) != Get(j, q)
    decreases |p|, 0
  {
    hide Set, Get, Wrapped, ParseIndex, Landing;
    match j
    case Object(members) =>
      var child := if Has(members, p[0]) then members[Position(members, p[0])].value else Object([]);
      v := Disturbance(child, p[1..], q[1..]);
      MemberAfterSet(members, p, q, v);
      GetMember(members, q);
      if !Has(members, p[0]) {
        ShowsWhereNothingWas(p[1..], q[1..], v);
      }
    case Array(items) =>
      var i := Landing(items, p[0]);
      var child := if i < |items| then items[i] else Object([]);
      v := Disturbance(child, p[1..], q[1..]);
      ItemAfterSet(items, p, q, v);
      GetItem(items, q);
      if i == |items| {
        ShowsWhereNothingWas(p[1..], q[1..], v);
      }
    case _ =>
      v := SomethingElse(j, q);
      ScalarIsReplaced(j, p, v);
  }

  lemma ScalarIsReplaced(j: Json, p: Path, v: Json)
    requires Scalar(j)
    ensures Set(j, p, v) == v
  {}

  lemma ShowsWhereNothingWas(p: Path, q: Path, v: Json)
    requires Get(Set(Object([]), p, v), q) != Get(Object([]), q)
    ensures Get(Wrapped(p, v), q) != None
  {
    WrappedIsSet(p, v);
    if q != [] {
      NothingInEmpty(q);
    }
  }

  /** A write to one path leaves what another one holds, or that it holds nothing, whatever the value
      written, exactly when the two part above the first scalar on the way. */
  lemma WriteKeepsPathIff(j: Json, p: Path, q: Path)
    ensures (forall v :: Get(Set(j, p, v), q) == Get(j, q)) <==> Keeps(j, p, q)
  {
    hide Set, Get, Keeps;
    if Keeps(j, p, q) {
      forall v
        ensures Get(Set(j, p, v), q) == Get(j, q)
      {
        KeptPathIsUnaffected(j, p, q, v);
      }
    } else {
      var v := Disturbance(j, p, q);
    }
  }

  /** Going to different children: other keys, or other indices as they are written. */
  predicate Diverge(j: Json, p: Path, q: Path)
    decreases |p|
  {
    p != [] && q != [] &&
    match j
    case Object(members) =>
      p[0] != q[0] ||
      Diverge(if Has(members, p[0]) then members[Position(members, p[0])].value else Object([]), p[1..], q[1..])
    case Array(items) =>
      var (i, k) := (ParseIndex(p[0]), ParseIndex(q[0]));
      i != k || (i.Some? && Diverge(if i.value < |items| then items[i.value] else Object([]), p[1..], q[1..]))
    case _ => false
  }

  /** On a path that can be written, diverging is enough. */
  lemma {:induction false} SettableKeeps(j: Json, p: Path, q: Path)
    requires Settable(j, p) && Diverge(j, p, q)
    ensures Keeps(j, p, q)
    decreases |p|
  {
    hide ParseIndex;
    match j
    case Object(members) =>
      if p[0] == q[0] {
        SettableKeeps(if Has(members, p[0]) then members[Position(members, p[0])].value else Object([]), p[1..], q[1..]);
      }
    case Array(items) =>
      var i := Landing(items, p[0]);
      if ParseIndex(q[0]) == Some(i) {
        SettableKeeps(if i < |items| then items[i] else Object([]), p[1..], q[1..]);
      }
  }

  /** Writing a path that can be written leaves what a diverging path holds. */
  lemma OtherPathsAreUnaffected(j: Json, p: Path, q: Path, v: Json)
    requires Settable(j, p) && Diverge(j, p, q)
    ensures Get(Set(j, p, v), q) == Get(j, q)
  {
    SettableKeeps(j, p, q);
    KeptPathIsUnaffected(j, p, q, v);
  }

  /** Beyond the end it does not: writing element 5 of an empty array makes element 0 appear. */
  lemma WritingBeyondTheEnd()
    ensures Diverge(Array([]), ["5"], ["0"]) && !Keeps(Array([]), ["5"], ["0"])
    ensures Get(Array([]), ["0"]) == None && Get(Set(Array([]), ["5"], Null), ["0"]) == Some(Null)
  {
    assert Decimal("5") == 5 && Decimal("0") == 0 by {
      assert "5"[..0] == "" && "0"[..0] == "";
    }
  }

  /** A write that cannot be read back may still keep the other path. */
  lemma UnreadableWriteMayKeep(x: Json)
    ensures var j := Object([Member("a", Bool(true)), Member("b", x)]);
      !Settable(j, ["a", "x"]) && Keeps(j, ["a", "x"], ["b"])
  {}

  // ---- containment ----------------------------------------------------------

  predicate UniqueKeys(j: Json) {
    match j
    case Object(members) =>
      (forall i, k :: 0 <= i < k < |members| ==> members[i].key != members[k].key)
      && forall m :: m in members ==> UniqueKeys(m.value)
    case Array(items) => forall x :: x in items ==> UniqueKeys(x)
    case _ => true
  }

  lemma {:induction false} ContainsItself(j: Json)
    requires UniqueKeys(j)
    ensures Contains(j, j)
  {
    match j
    case Object(members) =>
      forall m | m in members
        ensures Has(members, m.key) && Contains(members[Position(members, m.key)].value, m.value)
      {
        var i :| 0 <= i < |members| && members[i] == m;
        assert Position(members, m.key) == i;
        ContainsItself(m.value);
      }
    case Array(items) =>
      forall x | x in items
        ensures Contains(x, x)
      {
        ContainsItself(x);
      }
    case _ =>
  }

  /** With a repeated key a value need not contain itself. Parsing keeps one value per key, so only a
      value put together by hand repeats one. */
  lemma RepeatedKeys()
    ensures var j := Object([Member("a", Bool(true)), Member("a", Bool(false))]); !Contains(j, j)
  {
    var j := Object([Member("a", Bool(true)), Member("a", Bool(false))]);
    assert Member("a", Bool(false)) in j.members && Position(j.members, "a") == 0;
    assert !Contains(Bool(true), Bool(false));
  }

  /** Member by member: the first of each key contains itself and the others of its key, and each array
      element contains itself or another one contains it. */
  predicate SelfContained(j: Json) {
    match j
    case Object(members) =>
      forall m :: m in members ==>
        && Has(members, m.key)
        && var first := members[Position(members, m.key)];
          if first == m then SelfContained(m.value) else Contains(first.value, m.value)
    case Array(items) =>
      forall y :: y in items ==> SelfContained(y) || InAnother(items, y)
    case _ => true
  }

  predicate InSome(items: seq<Json>, y: Json) {
    exists x :: x in items && Contains(x, y)
  }

  predicate InAnother(items: seq<Json>, y: Json) {
    exists x :: x in items && x != y && Contains(x, y)
  }

  /** With unique keys or without, exactly the self-contained values contain themselves. */
  lemma {:induction false} ContainsItselfIff(j: Json)
    ensures Contains(j, j) <==> SelfContained(j)
  {
    match j
    case Object(members) =>
      forall m | m in members
        ensures Contains(m.value, m.value) <==> SelfContained(m.value)
      {
        ContainsItselfIff(m.value);
      }
      ObjectItself(members);
    case Array(items) =>
      forall x | x in items
        ensures Contains(x, x) <==> SelfContained(x)
      {
        ContainsItselfIff(x);
      }
      ArrayItself(items);
    case _ =>
  }

  lemma ObjectItself(members: seq<Member>)
    requires forall m :: m in members ==> (Contains(m.value, m.value) <==> SelfContained(m.value))
    ensures Contains(Object(members), Object(members)) <==> SelfContained(Object(members))
  {
    var j := Object(members);
    assert Contains(j, j) <==> forall m :: m in members ==>
      Has(members, m.key) && Contains(members[Position(members, m.key)].value, m.value);
    assert SelfContained(j) <==> forall m :: m in members ==>
      && Has(members, m.key)
      && var first := members[Position(members, m.key)];
        if first == m then SelfContained(m.value) else Contains(first.value, m.value);
    hide Contains, SelfContained, Position;
  }

  lemma ArrayItself(items: seq<Json>)
    requires forall x :: x in items ==> (Contains(x, x) <==> SelfContained(x))
    ensures Contains(Array(items), Array(items)) <==> SelfContained(Array(items))
  {
    ArrayContains(items);
    hide Contains, InSome, InAnother;
    forall y | y in items
      ensures InSome(items, y) <==> SelfContained(y) || InAnother(items, y)
    {
      ItselfOrAnother(items, y);
    }
  }

  lemma ArrayContains(items: seq<Json>)
    ensures Contains(Array(items), Array(items)) <==> forall y :: y in items ==> InSome(items, y)
  {}

  lemma ItselfOrAnother(items: seq<Json>, y: Json)
    requires y in items
    ensures InSome(items, y) <==> Contains(y, y) || InAnother(items, y)
  {
    hide Contains;
  }

  lemma {:induction false} ContainsIsTransitive(a: Json, b: Json, c: Json)
    requires Contains(a, b) && Contains(b, c)
    ensures Contains(a, c)
    decreases c
  {
    if a.Object? && c.Object? {
      forall m | m in c.members
        ensures Has(a.members, m.key) && Contains(a.members[Position(a.members, m.key)].value, m.value)
      {
        var middle := b.members[Position(b.members, m.key)];
        assert middle in b.members && middle.key == m.key;
        ContainsIsTransitive(a.members[Position(a.members, m.key)].value, middle.value, m.value);
      }
    } else if a.Array? && c.Array? {
      forall z | z in c.items
        ensures exists x :: x in a.items && Contains(x, z)
      {
        var y :| y in b.items && Contains(y, z);
        var x :| x in a.items && Contains(x, y);
        ContainsIsTransitive(x, y, z);
      }
    }
  }

  lemma {:induction false} WrappedIsUnique(path: Path, v: Json)
    requires UniqueKeys(v)
    ensures UniqueKeys(Wrapped(path, v))
    decreases |path|
  {
    if path != [] {
      WrappedIsUnique(path[1..], v);
    }
  }

  /** Updates never repeat a key, so values built by updates go on containing themselves. */
  lemma {:induction false} SetKeepsUniqueKeys(j: Json, path: Path, v: Json)
    requires UniqueKeys(j) && UniqueKeys(v)
    ensures UniqueKeys(Set(j, path, v))
    decreases |path|
  {
    if path != [] {
      var rest := path[1..];
      WrappedIsUnique(rest, v);
      match j
      case Object(members) =>
        var p := Position(members, path[0]);
        if p < |members| {
          SetKeepsUniqueKeys(members[p].value, rest, v);
        }
      case Array(items) =>
        var i := IndexOrZero(path[0]);
        if i < |items| {
          SetKeepsUniqueKeys(items[i], rest, v);
        }
      case _ =>
    }
  }

  // ---- the update, as the source runs it ------------------------------------

  method Find(members: seq<Member>, key: string) returns (p: nat)
    ensures p == Position(members, key)
  {
    p := 0;
    while p < |members| && members[p].key != key
      invariant p <= |members| && Position(members, key) == p + Position(members[p..], key)
    {
      assert members[p..][1..] == members[p + 1..];
      p := p + 1;
    }
  }

  method JsonbSet(j: Json, path: Path, v: Json) returns (r: Json)
    ensures r == Set(j, path, v)
    decreases |path|
  {
    if path == [] {
      return v;
    }
    var first, rest := path[0], path[1..];
    match j
    case Object(members) =>
      var updated := members;
      var p := Find(members, first);
      if p < |members| {
        var child := JsonbSet(members[p].value, rest, v);
        updated := updated[p := Member(updated[p].key, child)];
      } else if rest == [] {
        updated := updated + [Member(first, v)];
      } else {
        WrappedIsSet(rest, v);
        var child := JsonbSet(Object([]), rest, v);
        updated := updated + [Member(first, child)];
      }
      r := Object(updated);
    case Array(items) =>
      var updated := items;
      var i := IndexOrZero(first);
      if i < |updated| {
        var child := JsonbSet(items[i], rest, v);
        updated := updated[i := child];
      } else if rest == [] {
        updated := updated + [v];
      } else {
        WrappedIsSet(rest, v);
        var child := JsonbSet(Object([]), rest, v);
        updated := updated + [child];
      }
      r := Array(updated);
    case _ =>
      r := v;
  }
}
