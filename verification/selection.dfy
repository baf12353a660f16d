/** Parts of a list, said by the positions they are taken from. */
module Selections {

  ghost predicate Increasing(ps: seq<nat>) {
    forall a, b :: 0 <= a < b < |ps| ==> ps[a] < ps[b]
  }

  /** `r` holds the elements of `s` at these positions, one for one. */
  ghost predicate Taken<T(!new)>(r: seq<T>, s: seq<T>, ps: seq<nat>) {
    |r| == |ps| && forall k :: 0 <= k < |r| ==> ps[k] < |s| && r[k] == s[ps[k]]
  }

  /** Going one element further, left out or taken. */
  lemma TakenSnoc<T(!new)>(r: seq<T>, s: seq<T>, ps: seq<nat>, x: T)
    requires Increasing(ps) && Taken(r, s, ps)
    ensures Taken(r, s + [x], ps) && Taken(r + [x], s + [x], ps + [|s|]) && Increasing(ps + [|s|])
    ensures forall i: nat :: (i in ps ==> i < |s|) && (i in ps + [|s|] <==> i in ps || i == |s|)
  {
    forall k | 0 <= k < |ps|
      ensures ps[k] < |s|
    {
      assert r[k] == s[ps[k]];
    }
  }
}
