/** Lexicographic comparison, as Rust compares byte slices and strings.  Strings are
    compared by their code points, which is the order of their UTF-8 encodings. */
module Order {

  predicate Less(a: seq<int>, b: seq<int>) {
    if b == [] then false
    else if a == [] then true
    else a[0] < b[0] || (a[0] == b[0] && Less(a[1..], b[1..]))
  }

  /** What comes first in lexicographic order: at the first difference the smaller element, or the end. */
  ghost predicate Before(a: seq<int>, b: seq<int>) {
    exists k: nat :: DiffersAt(a, b, k)
  }

  predicate DiffersAt(a: seq<int>, b: seq<int>, k: nat) {
    k <= |a| && k < |b| && a[..k] == b[..k] && (k == |a| || a[k] < b[k])
  }

  lemma {:induction false} LessIsBefore(a: seq<int>, b: seq<int>)
    ensures Less(a, b) <==> Before(a, b)
    decreases |a|
  {
    if a == [] {
      assert b != [] ==> DiffersAt(a, b, 0);
    } else if b != [] {
      LessIsBefore(a[1..], b[1..]);
      if Less(a, b) {
        if a[0] < b[0] {
          assert DiffersAt(a, b, 0);
        } else {
          var k: nat :| DiffersAt(a[1..], b[1..], k);
          assert a[..k + 1] == [a[0]] + a[1..][..k] && b[..k + 1] == [b[0]] + b[1..][..k];
          assert DiffersAt(a, b, k + 1);
        }
      }
      if Before(a, b) {
        var k: nat :| DiffersAt(a, b, k);
        if k > 0 {
          assert a[0] == a[..k][0] == b[..k][0] == b[0];
          assert a[1..][..k - 1] == a[..k][1..] == b[..k][1..] == b[1..][..k - 1];
          assert DiffersAt(a[1..], b[1..], k - 1);
        }
      }
    }
  }

  predicate AtMost(a: seq<int>, b: seq<int>) {
    a == b || Less(a, b)
  }

  lemma {:induction false} Trichotomy(a: seq<int>, b: seq<int>)
    ensures Less(a, b) || a == b || Less(b, a)
    ensures !(Less(a, b) && Less(b, a))
    ensures !(Less(a, b) && a == b)
    decreases |a|
  {
    if a != [] && b != [] {
      Trichotomy(a[1..], b[1..]);
      if a[0] == b[0] && a[1..] == b[1..] {
        assert a == [a[0]] + a[1..] && b == [b[0]] + b[1..];
      }
    }
  }

  lemma {:induction false} Transitive(a: seq<int>, b: seq<int>, c: seq<int>)
    requires Less(a, b) && Less(b, c)
    ensures Less(a, c)
    decreases |a|
  {
    if a != [] && a[0] == b[0] && b[0] == c[0] {
      Transitive(a[1..], b[1..], c[1..]);
    }
  }

  function Codes(s: string): seq<int> {
    seq(|s|, i requires 0 <= i < |s| => s[i] as int)
  }

  lemma CodesInjective(a: string, b: string)
    requires Codes(a) == Codes(b)
    ensures a == b
  {
    assert |a| == |Codes(a)| == |Codes(b)| == |b|;
    forall i | 0 <= i < |a|
      ensures a[i] == b[i]
    {
      assert Codes(a)[i] == a[i] as int && Codes(b)[i] == b[i] as int;
    }
  }

  /** `a < b` on strings. */
  predicate TextLess(a: string, b: string) {
    Less(Codes(a), Codes(b))
  }

  /** `a <= b` on strings. */
  predicate TextAtMost(a: string, b: string) {
    !TextLess(b, a)
  }

  lemma TextTrichotomy(a: string, b: string)
    ensures TextLess(a, b) || a == b || TextLess(b, a)
    ensures !(TextLess(a, b) && TextLess(b, a))
    ensures a == b ==> !TextLess(a, b)
  {
    Trichotomy(Codes(a), Codes(b));
    if Codes(a) == Codes(b) {
      CodesInjective(a, b);
    }
  }

  lemma TextTransitive(a: string, b: string, c: string)
    requires TextLess(a, b) && TextLess(b, c)
    ensures TextLess(a, c)
  {
    Transitive(Codes(a), Codes(b), Codes(c));
  }

  lemma TextAtMostTransitive(a: string, b: string, c: string)
    requires TextAtMost(a, b) && TextAtMost(b, c)
    ensures TextAtMost(a, c)
  {
    TextTrichotomy(a, b);
    TextTrichotomy(b, c);
    if TextLess(c, a) {
      if a != b && b != c {
        TextTransitive(a, b, c);
        TextTrichotomy(a, c);
      }
    }
  }

  lemma TextLessAtMost(a: string, b: string, c: string)
    requires (TextLess(a, b) && TextAtMost(b, c)) || (TextAtMost(a, b) && TextLess(b, c))
    ensures TextLess(a, c)
  {
    TextTrichotomy(a, b);
    TextTrichotomy(b, c);
    if a != b && b != c {
      TextTransitive(a, b, c);
    }
  }

  /** One text comes before another if it has the smaller character where they first differ, or ends there. */
  ghost predicate TextBefore(a: string, b: string) {
    exists k: nat :: TextDiffersAt(a, b, k)
  }

  predicate TextDiffersAt(a: string, b: string, k: nat) {
    k <= |a| && k < |b| && a[..k] == b[..k] && (k == |a| || a[k] as int < b[k] as int)
  }

  lemma TextOrder(a: string, b: string)
    ensures TextLess(a, b) <==> TextBefore(a, b)
    ensures TextAtMost(a, b) <==> TextBefore(a, b) || a == b
  {
    LessIsBefore(Codes(a), Codes(b));
    TextTrichotomy(a, b);
    if TextBefore(a, b) {
      var k: nat :| TextDiffersAt(a, b, k);
      assert Codes(a)[..k] == Codes(a[..k]) && Codes(b)[..k] == Codes(b[..k]);
      assert DiffersAt(Codes(a), Codes(b), k);
    }
    if Before(Codes(a), Codes(b)) {
      var k: nat :| DiffersAt(Codes(a), Codes(b), k);
      assert Codes(a)[..k] == Codes(a[..k]) && Codes(b)[..k] == Codes(b[..k]);
      CodesInjective(a[..k], b[..k]);
      assert TextDiffersAt(a, b, k);
    }
  }
}
