/** The JSON operations of src/types/jsonb.rs shape by shape: what counts as an index, what one step of a
    read or a write does to an object, an array or a scalar, and what containment asks of each. */
module JsonbShapes {
  import opened Wrappers
  import opened Jsonb

  // ---- indices ----------------------------------------------------------------

  /** A number in decimal, without leading zeros. */
  function Shown(n: nat): string {
    if n < 10 then [('0' as int + n) as char] else Shown(n / 10) + [('0' as int + n % 10) as char]
  }

  predicate AllDigits(s: string) {
    s != [] && forall i :: 0 <= i < |s| ==> s[i] in "0123456789"
  }

  lemma {:induction false} ShownIsDecimal(n: nat)
    ensures AllDigits(Shown(n)) && Digits(Shown(n)) && Decimal(Shown(n)) == n
  {
    var s := Shown(n);
    if n >= 10 {
      ShownIsDecimal(n / 10);
      assert s[..|s| - 1] == Shown(n / 10);
    } else {
      assert s[..0] == [];
    }
  }

  lemma DigitsAre(s: string)
    ensures AllDigits(s) <==> Digits(s)
  {
    if Digits(s) {
      forall i | 0 <= i < |s|
        ensures s[i] in "0123456789"
      {
        var k := s[i] as int - '0' as int;
        assert "0123456789"[k] == s[i];
      }
    }
  }

  /** The decimal form of a number below 2^64 is that index, with or without a plus sign. */
  lemma ShownIndex(n: nat)
    ensures ParseIndex(Shown(n)) == ParseIndex("+" + Shown(n)) == if n < 0x1_0000_0000_0000_0000 then Some(n) else None
  {
    ShownIsDecimal(n);
    assert Shown(n)[0] in Shown(n);
    assert ("+" + Shown(n))[1..] == Shown(n);
  }

  lemma {:induction false} ZeroInFront(s: string)
    requires AllDigits(s)
    ensures Digits(s) && Digits("0" + s) && Decimal("0" + s) == Decimal(s)
    decreases |s|
  {
    DigitsAre(s);
    DigitsAre("0" + s);
    forall i | 0 <= i < |s| + 1
      ensures ("0" + s)[i] in "0123456789"
    {
      assert i > 0 ==> ("0" + s)[i] == s[i - 1];
    }
    var t := s[..|s| - 1];
    assert ("0" + s)[..|s|] == "0" + t;
    if t == [] {
      assert "0" + t == "0" && "0"[..0] == "";
    } else {
      ZeroInFront(t);
    }
  }

  /** Zeros in front of an index change nothing, and what is not digits is no index. */
  lemma IndexShape(s: string)
    ensures AllDigits(s) ==> ParseIndex("0" + s) == ParseIndex(s)
    ensures ParseIndex(s).Some? ==> AllDigits(if s != [] && s[0] == '+' then s[1..] else s)
  {
    DigitsAre(if s != [] && s[0] == '+' then s[1..] else s);
    if AllDigits(s) {
      ZeroInFront(s);
      assert s[0] in s;
    }
  }

  // ---- one step -----------------------------------------------------------------

  predicate First(members: seq<Member>, i: nat, key: string) {
    i < |members| && members[i].key == key && forall k :: 0 <= k < i ==> members[k].key != key
  }

  predicate Lacks(members: seq<Member>, key: string) {
    forall k :: 0 <= k < |members| ==> members[k].key != key
  }

  /** A member is reached by its key, the first one if several have it. */
  lemma ObjectStep(members: seq<Member>, i: nat, key: string, rest: Path, v: Json)
    requires First(members, i, key)
    ensures Get(Object(members), [key] + rest) == Get(members[i].value, rest)
    ensures Set(Object(members), [key] + rest, v) == Object(members[i := Member(key, Set(members[i].value, rest, v))])
  {
    assert ([key] + rest)[1..] == rest;
    assert Position(members, key) == i;
    hide Position;
    GetMember(members, [key] + rest);
    SetMember(members, [key] + rest, v);
  }

  /** A missing member is not found; a write adds it at the end. */
  lemma MissingMember(members: seq<Member>, key: string, rest: Path, v: Json)
    requires Lacks(members, key)
    ensures Get(Object(members), [key] + rest) == None
    ensures Set(Object(members), [key] + rest, v) == Object(members + [Member(key, Set(Object([]), rest, v))])
  {
    assert ([key] + rest)[1..] == rest;
    assert Position(members, key) == |members|;
    hide Position;
    GetMember(members, [key] + rest);
    SetMember(members, [key] + rest, v);
    WrappedIsSet(rest, v);
  }

  /** An element is reached by its index; a write takes a step that is no index for element 0. */
  lemma ArrayStep(items: seq<Json>, step: string, i: nat, rest: Path, v: Json)
    requires i < |items| && (ParseIndex(step) == Some(i) || (ParseIndex(step) == None && i == 0))
    ensures Get(Array(items), [step] + rest) == if ParseIndex(step) == None then None else Get(items[i], rest)
    ensures Set(Array(items), [step] + rest, v) == Array(items[i := Set(items[i], rest, v)])
  {
    assert ([step] + rest)[1..] == rest;
    hide ParseIndex;
  }

  /** Beyond the end nothing is found, and a write adds an element at the end. */
  lemma MissingElement(items: seq<Json>, step: string, rest: Path, v: Json)
    requires match ParseIndex(step) case Some(i) => |items| <= i case None => items == []
    ensures Get(Array(items), [step] + rest) == None
    ensures Set(Array(items), [step] + rest, v) == Array(items + [Set(Object([]), rest, v)])
  {
    assert ([step] + rest)[1..] == rest;
    hide ParseIndex;
    WrappedIsSet(rest, v);
  }

  /** Below a scalar nothing is found, and a write replaces it. */
  lemma BelowScalar(j: Json, path: Path, v: Json)
    requires !j.Object? && !j.Array? && path != []
    ensures Get(j, path) == None && Set(j, path, v) == v
  {}

  lemma AtTheValue(j: Json, v: Json)
    ensures Get(j, []) == Some(j) && Set(j, [], v) == v
  {}

  // ---- containment --------------------------------------------------------------

  /** An object contains another if, for every member of the other, its own first member with that key
      contains that member's value; other members do not matter. */
  lemma ObjectContains(ms: seq<Member>, ns: seq<Member>)
    ensures Contains(Object(ms), Object(ns)) <==> forall k :: 0 <= k < |ns| ==> HoldsMember(ms, ns[k])
  {
    hide Position;
    if Contains(Object(ms), Object(ns)) {
      forall k | 0 <= k < |ns|
        ensures HoldsMember(ms, ns[k])
      {
        assert ns[k] in ns;
        assert First(ms, Position(ms, ns[k].key), ns[k].key);
      }
    }
    if forall k :: 0 <= k < |ns| ==> HoldsMember(ms, ns[k]) {
      forall n | n in ns
        ensures Has(ms, n.key) && Contains(ms[Position(ms, n.key)].value, n.value)
      {
        var i: nat :| First(ms, i, n.key) && Contains(ms[i].value, n.value);
        assert Position(ms, n.key) == i;
      }
    }
  }

  ghost predicate HoldsMember(ms: seq<Member>, n: Member) {
    exists i: nat :: First(ms, i, n.key) && Contains(ms[i].value, n.value)
  }

  /** An array contains another if every element of the other is contained in some element of it. */
  lemma ArrayContainsIff(xs: seq<Json>, ys: seq<Json>)
    ensures Contains(Array(xs), Array(ys)) <==> forall k :: 0 <= k < |ys| ==> HoldsElement(xs, ys[k])
  {
    if Contains(Array(xs), Array(ys)) {
      forall k | 0 <= k < |ys|
        ensures HoldsElement(xs, ys[k])
      {
        assert ys[k] in ys;
        var x :| x in xs && Contains(x, ys[k]);
        var i :| 0 <= i < |xs| && xs[i] == x;
      }
    }
  }

  ghost predicate HoldsElement(xs: seq<Json>, y: Json) {
    exists i :: 0 <= i < |xs| && Contains(xs[i], y)
  }

  /** Anything else contains only what equals it. */
  lemma ScalarContains(a: Json, b: Json)
    requires !(a.Object? && b.Object?) && !(a.Array? && b.Array?)
    ensures Contains(a, b) <==> a == b
  {}

  // ---- containment, by paths ------------------------------------------------------

  /** Objects and scalars only, no key twice. */
  predicate Plain(j: Json) {
    match j
    case Object(members) =>
      && (forall i, k :: 0 <= i < k < |members| ==> members[i].key != members[k].key)
      && forall m :: m in members ==> Plain(m.value)
    case Array(_) => false
    case _ => true
  }

  /** Both objects, or the same scalar. */
  predicate Alike(x: Option<Json>, y: Json) {
    x.Some? && ((x.value.Object? && y.Object?) || x.value == y)
  }

  ghost predicate AgreesOnPaths(a: Json, b: Json) {
    forall p: Path :: Get(b, p).Some? ==> Alike(Get(a, p), Get(b, p).value)
  }

  lemma PlainMember(members: seq<Member>, i: nat)
    requires Plain(Object(members)) && i < |members|
    ensures First(members, i, members[i].key) && Plain(members[i].value)
  {
    assert members[i] in members;
  }

  /** A plain object is contained in a value exactly if every path in it leads to the same scalar, or to
      an object where it has an object, in the value. */
  lemma {:induction false} ContainsByPaths(a: Json, b: Json)
    requires Plain(b)
    ensures Contains(a, b) <==> AgreesOnPaths(a, b)
    decreases b
  {
    AtTheValue(a, a);
    AtTheValue(b, b);
    if AgreesOnPaths(a, b) {
      assert Alike(Get(a, []), b);
    }
    if a.Object? && b.Object? {
      forall k | 0 <= k < |b.members|
        ensures HoldsMember(a.members, b.members[k]) <==> MemberAgrees(a, b, k)
      {
        MemberByPaths(a, b, k);
      }
      ObjectContains(a.members, b.members);
      AgreesByMembers(a, b);
    } else if b.Object? {
      ScalarContains(a, b);
    } else {
      ScalarContains(a, b);
      ScalarAgrees(a, b);
    }
  }

  /** The value agrees on the paths through one member. */
  ghost predicate MemberAgrees(a: Json, b: Json, k: nat)
    requires b.Object? && k < |b.members|
  {
    forall p: Path :: Get(b.members[k].value, p).Some? ==> Alike(Get(a, [b.members[k].key] + p), Get(b.members[k].value, p).value)
  }

  lemma AgreesByMembers(a: Json, b: Json)
    requires a.Object? && b.Object? && Plain(b)
    ensures AgreesOnPaths(a, b) <==> forall k: nat :: k < |b.members| ==> MemberAgrees(a, b, k)
  {
    AtTheValue(a, a);
    AtTheValue(b, b);
    if AgreesOnPaths(a, b) {
      forall k: nat | k < |b.members|
        ensures MemberAgrees(a, b, k)
      {
        PlainMember(b.members, k);
        forall p: Path {
          ObjectStep(b.members, k, b.members[k].key, p, b);
        }
      }
    }
    if forall k: nat :: k < |b.members| ==> MemberAgrees(a, b, k) {
      forall q: Path | Get(b, q).Some?
        ensures Alike(Get(a, q), Get(b, q).value)
      {
        if q != [] {
          var k := Position(b.members, q[0]);
          GetMember(b.members, q);
          assert q == [q[0]] + q[1..];
          assert MemberAgrees(a, b, k);
          ObjectStep(b.members, k, q[0], q[1..], b);
        }
      }
    }
  }

  lemma ScalarAgrees(a: Json, b: Json)
    requires !b.Object? && !b.Array?
    ensures AgreesOnPaths(a, b) <==> a == b
  {
    AtTheValue(a, a);
    AtTheValue(b, b);
    if a == b {
      forall p: Path | Get(b, p).Some?
        ensures Alike(Get(a, p), Get(b, p).value)
      {}
    } else {
      assert !Alike(Get(a, []), Get(b, []).value);
    }
  }

  lemma {:induction false} MemberByPaths(a: Json, b: Json, k: nat)
    requires a.Object? && b.Object? && Plain(b) && k < |b.members|
    ensures HoldsMember(a.members, b.members[k]) <==> MemberAgrees(a, b, k)
    decreases b, 0
  {
    var (key, y) := (b.members[k].key, b.members[k].value);
    PlainMember(b.members, k);
    var i := Position(a.members, key);
    if i < |a.members| {
      assert First(a.members, i, key);
      ContainsByPaths(a.members[i].value, y);
      forall p: Path
        ensures Get(a, [key] + p) == Get(a.members[i].value, p)
      {
        ObjectStep(a.members, i, key, p, a);
      }
      assert AgreesOnPaths(a.members[i].value, y) <==> MemberAgrees(a, b, k);
    } else {
      MissingMember(a.members, key, [], a);
      AtTheValue(y, y);
      assert Get(y, []).Some? && [key] + [] == [key];
    }
  }
}
