/** Deadlock detection of src/transaction/locks.rs: the wait-for graph built from the queue, and
    the depth-first search over it. */
module Deadlocks {
  import opened Wrappers
  import opened Locks

  type Graph = map<Xid, seq<Xid>>

  // ---- walks ----------------------------------------------------------------

  ghost predicate Edge(g: Graph, a: Xid, b: Xid) {
    a in g && b in g[a]
  }

  ghost predicate Walk(g: Graph, p: seq<Xid>) {
    p != [] && forall i :: 0 <= i < |p| - 1 ==> Edge(g, p[i], p[i + 1])
  }

  ghost predicate Reaches(g: Graph, a: Xid, b: Xid) {
    exists p :: Walk(g, p) && p[0] == a && p[|p| - 1] == b
  }

  ghost predicate ClosedWalk(g: Graph, p: seq<Xid>) {
    Walk(g, p) && |p| >= 2 && p[0] == p[|p| - 1]
  }

  lemma ReachesSelf(g: Graph, a: Xid)
    ensures Reaches(g, a, a)
  {
    assert Walk(g, [a]);
  }

  lemma ReachesStep(g: Graph, a: Xid, b: Xid, c: Xid)
    requires Reaches(g, a, b) && Edge(g, b, c)
    ensures Reaches(g, a, c)
  {
    var p :| Walk(g, p) && p[0] == a && p[|p| - 1] == b;
    var q := p + [c];
    forall i | 0 <= i < |q| - 1
      ensures Edge(g, q[i], q[i + 1])
    {
      if i < |p| - 1 {
        assert Edge(g, p[i], p[i + 1]);
      }
    }
    assert Walk(g, q);
  }

  /** An edge into something that reaches back closes a walk. */
  lemma EdgeAndBack(g: Graph, a: Xid, b: Xid) returns (p: seq<Xid>)
    requires Edge(g, a, b) && Reaches(g, b, a)
    ensures ClosedWalk(g, p) && p[0] == a
  {
    var q :| Walk(g, q) && q[0] == b && q[|q| - 1] == a;
    p := [a] + q;
    forall i | 0 <= i < |p| - 1
      ensures Edge(g, p[i], p[i + 1])
    {
      if i > 0 {
        assert Edge(g, q[i - 1], q[i - 1 + 1]);
      }
    }
  }

  /** A reported pair: an edge whose target leads back to its source. */
  ghost predicate OnCycle(g: Graph, pair: seq<Xid>) {
    |pair| == 2 && Edge(g, pair[0], pair[1]) && Reaches(g, pair[1], pair[0])
  }

  // ---- depth-first search ---------------------------------------------------

  /** Finished nodes: visited and off the stack.  All their successors are finished too. */
  ghost predicate FinishedClosed(g: Graph, finished: set<Xid>) {
    forall v, b :: v in finished && Edge(g, v, b) ==> b in finished
  }

  ghost predicate NoClosedWalkFrom(g: Graph, finished: set<Xid>) {
    forall p :: ClosedWalk(g, p) ==> p[0] !in finished
  }

  /** A node whose successors are all finished can be finished itself. */
  lemma FinishNode(g: Graph, finished: set<Xid>, x: Xid)
    requires FinishedClosed(g, finished) && NoClosedWalkFrom(g, finished)
    requires forall b :: Edge(g, x, b) ==> b in finished
    ensures FinishedClosed(g, finished + {x}) && NoClosedWalkFrom(g, finished + {x})
  {
    forall p | ClosedWalk(g, p)
      ensures p[0] != x
    {
      if p[0] == x {
        assert Edge(g, p[0], p[0 + 1]);
        var q := p[1..] + [p[1]];
        forall i | 0 <= i < |q| - 1
          ensures Edge(g, q[i], q[i + 1])
        {
          if i < |p| - 2 {
            assert Edge(g, p[i + 1], p[i + 1 + 1]);
          } else {
            assert Edge(g, p[0], p[0 + 1]);
          }
        }
        assert ClosedWalk(g, q);
      }
    }
  }

  lemma NoSelfEdge(g: Graph, finished: set<Xid>, x: Xid)
    requires NoClosedWalkFrom(g, finished) && x in finished
    ensures !Edge(g, x, x)
  {
    if Edge(g, x, x) {
      assert ClosedWalk(g, [x, x]);
    }
  }

  /** `detect_cycle`.  `visited` and `stack` are passed in and handed back changed.  A root that
      was visited before is explored again; its successors are all finished, so nothing happens. */
  method DetectCycle(x: Xid, g: Graph, visited: set<Xid>, stack: set<Xid>, ghost nodes: set<Xid>)
    returns (r: Option<seq<Xid>>, visited': set<Xid>, stack': set<Xid>)
    requires x in nodes && forall a, b :: Edge(g, a, b) ==> b in nodes
    requires stack <= visited && x !in stack
    requires forall s :: s in stack ==> Reaches(g, s, x)
    requires FinishedClosed(g, visited - stack) && NoClosedWalkFrom(g, visited - stack)
    ensures r.Some? ==> OnCycle(g, r.value)
    ensures r.None? ==> stack' == stack && visited + {x} <= visited'
    ensures r.None? ==> FinishedClosed(g, visited' - stack') && NoClosedWalkFrom(g, visited' - stack')
    decreases nodes - visited - {x}
  {
    visited' := visited + {x};
    stack' := stack + {x};
    ghost var unvisited := x !in visited;
    if !unvisited {
      NoSelfEdge(g, visited - stack, x);
    } else {
      assert visited' - stack' == visited - stack;
    }
    if x in g {
      var blockers := g[x];
      for i := 0 to |blockers|
        invariant visited + {x} <= visited' && stack' == stack + {x} && stack' <= visited'
        invariant !unvisited ==> visited' == visited
        invariant unvisited ==> FinishedClosed(g, visited' - stack') && NoClosedWalkFrom(g, visited' - stack')
        invariant forall k :: 0 <= k < i ==> blockers[k] in visited' && blockers[k] !in stack'
      {
        var blocker := blockers[i];
        assert Edge(g, x, blocker);
        if blocker !in visited' {
          forall s | s in stack'
            ensures Reaches(g, s, blocker)
          {
            ReachesSelf(g, x);
            ReachesStep(g, s, x, blocker);
          }
          r, visited', stack' := DetectCycle(blocker, g, visited', stack', nodes);
          if r.Some? {
            return;
          }
        } else if blocker in stack' {
          ReachesSelf(g, x);
          return Some([x, blocker]), visited', stack';
        }
      }
    }
    stack' := stack' - {x};
    assert stack' == stack;
    if unvisited {
      FinishNode(g, visited' - (stack + {x}), x);
      assert visited' - stack == visited' - (stack + {x}) + {x};
    }
    r := None;
  }

  lemma WalkStartsAtKey(g: Graph, p: seq<Xid>)
    ensures ClosedWalk(g, p) ==> p[0] in g.Keys
  {
    if ClosedWalk(g, p) {
      assert Edge(g, p[0], p[0 + 1]);
    }
  }

  method DetectAnyCycle(g: Graph) returns (r: Option<seq<Xid>>)
    ensures r.Some? <==> exists p :: ClosedWalk(g, p)
    ensures r.Some? ==> OnCycle(g, r.value)
  {
    ghost var nodes := g.Keys + set a, b | a in g && b in g[a] :: b;
    assert forall a, b :: Edge(g, a, b) ==> b in nodes;
    var visited, stack: set<Xid> := {}, {};
    var keys := g.Keys;
    while keys != {}
      invariant keys <= g.Keys && g.Keys <= keys + visited
      invariant stack == {} && FinishedClosed(g, visited) && NoClosedWalkFrom(g, visited)
      decreases keys
    {
      var x :| x in keys;
      keys := keys - {x};
      assert visited - stack == visited;
      r, visited, stack := DetectCycle(x, g, visited, stack, nodes);
      if r.Some? {
        ghost var p := EdgeAndBack(g, r.value[0], r.value[1]);
        return;
      }
      assert visited - stack == visited;
    }
    forall p
      ensures !ClosedWalk(g, p)
    {
      WalkStartsAtKey(g, p);
    }
    r := None;
  }

  // ---- the graph of a lock state --------------------------------------------

  /** Holders a queued request waits for, in table order. */
  function Blockers(entries: seq<LockEntry>, xid: Xid, mode: LockMode): seq<Xid> {
    if entries == [] then []
    else
      var n := |entries| - 1;
      Blockers(entries[..n], xid, mode)
      + if entries[n].holder != xid && ConflictsWith(mode, entries[n].mode) then [entries[n].holder] else []
  }

  lemma {:induction false} BlockersAre(entries: seq<LockEntry>, xid: Xid, mode: LockMode, b: Xid)
    ensures b in Blockers(entries, xid, mode)
       <==> exists e :: e in entries && e.holder == b && b != xid && ConflictsWith(mode, e.mode)
  {
    hide ConflictsWith;
    if entries != [] {
      var n := |entries| - 1;
      BlockersAre(entries[..n], xid, mode, b);
      assert entries == entries[..n] + [entries[n]];
    }
  }

  /** The first `n` queued requests, as edges. */
  ghost predicate QueueEdge(s: LockState, n: nat, x: Xid, b: Xid)
    requires n <= |s.queue|
  {
    exists i :: 0 <= i < n && s.queue[i].xid == x && b in Blockers(Entries(s, s.queue[i].target), x, s.queue[i].mode)
  }

  ghost predicate GraphOf(g: Graph, s: LockState, n: nat)
    requires n <= |s.queue|
  {
    forall x, b :: Edge(g, x, b) <==> QueueEdge(s, n, x, b)
  }

  method CollectBlockers(entries: seq<LockEntry>, xid: Xid, mode: LockMode) returns (blockers: seq<Xid>)
    ensures blockers == Blockers(entries, xid, mode)
  {
    hide ConflictsWith;
    blockers := [];
    for i := 0 to |entries|
      invariant blockers == Blockers(entries[..i], xid, mode)
    {
      assert entries[..i + 1][..i] == entries[..i];
      if entries[i].holder != xid && ConflictsWith(mode, entries[i].mode) {
        blockers := blockers + [entries[i].holder];
      }
    }
    assert entries[..|entries|] == entries;
  }

  method BuildGraph(s: LockState) returns (g: Graph)
    ensures GraphOf(g, s, |s.queue|)
  {
    hide ConflictsWith, Blockers;
    g := map[];
    for n := 0 to |s.queue|
      invariant GraphOf(g, s, n)
    {
      ghost var before := g;
      var request := s.queue[n];
      var blockers := CollectBlockers(Entries(s, request.target), request.xid, request.mode);
      if blockers != [] {
        g := g[request.xid := (if request.xid in g then g[request.xid] else []) + blockers];
      }
      forall x, b
        ensures Edge(g, x, b) <==> QueueEdge(s, n + 1, x, b)
      {
        assert Edge(g, x, b) <==> Edge(before, x, b) || (x == request.xid && b in blockers);
        assert QueueEdge(s, n + 1, x, b) <==> QueueEdge(s, n, x, b) || (x == request.xid && b in blockers);
      }
    }
  }

  /** The built graph is the wait-for relation of the state. */
  lemma GraphIsWaitsFor(g: Graph, s: LockState, x: Xid, b: Xid)
    requires GraphOf(g, s, |s.queue|)
    ensures Edge(g, x, b) <==> WaitsFor(s, x, b)
  {
    hide ConflictsWith, Blockers;
    forall i | 0 <= i < |s.queue| && s.queue[i].xid == x
      ensures b in Blockers(Entries(s, s.queue[i].target), x, s.queue[i].mode)
         <==> exists e :: e in Entries(s, s.queue[i].target) && e.holder == b && b != x && ConflictsWith(s.queue[i].mode, e.mode)
    {
      BlockersAre(Entries(s, s.queue[i].target), x, s.queue[i].mode, b);
    }
    assert Edge(g, x, b) <==> QueueEdge(s, |s.queue|, x, b);
  }

  lemma ClosedWalkIsCycle(g: Graph, s: LockState, p: seq<Xid>)
    requires GraphOf(g, s, |s.queue|)
    ensures ClosedWalk(g, p) <==> DeadlockCycle(s, p)
  {
    hide GraphOf, WaitsFor;
    forall x, b
      ensures Edge(g, x, b) <==> WaitsFor(s, x, b)
    {
      GraphIsWaitsFor(g, s, x, b);
    }
  }

  /** `b` can be reached from `a` along the wait-for relation. */
  ghost predicate WaitsThrough(s: LockState, a: Xid, b: Xid) {
    exists p: seq<Xid> :: p != [] && p[0] == a && p[|p| - 1] == b
      && forall i :: 0 <= i < |p| - 1 ==> WaitsFor(s, p[i], p[i + 1])
  }

  lemma ReachesIsWaitsThrough(g: Graph, s: LockState, a: Xid, b: Xid)
    requires GraphOf(g, s, |s.queue|) && Reaches(g, a, b)
    ensures WaitsThrough(s, a, b)
  {
    hide GraphOf, WaitsFor;
    var p :| Walk(g, p) && p[0] == a && p[|p| - 1] == b;
    forall i | 0 <= i < |p| - 1
      ensures WaitsFor(s, p[i], p[i + 1])
    {
      assert Edge(g, p[i], p[i + 1]);
      GraphIsWaitsFor(g, s, p[i], p[i + 1]);
    }
  }

  /** `detect_deadlock`: it answers exactly when some transactions wait for one another in a
      circle, and a reported pair [x, b] lies on one: x waits for b, and b, through others, for x. */
  method DetectDeadlock(s: LockState) returns (r: Option<seq<Xid>>)
    ensures r.Some? <==> Deadlocked(s)
    ensures r.Some? ==> |r.value| == 2 && WaitsFor(s, r.value[0], r.value[1]) && WaitsThrough(s, r.value[1], r.value[0])
  {
    hide ConflictsWith, WaitsFor;
    if s.queue == [] {
      EmptyQueueHasNoCycle(s);
      return None;
    }
    var g := BuildGraph(s);
    r := DetectAnyCycle(g);
    forall p
      ensures ClosedWalk(g, p) <==> DeadlockCycle(s, p)
    {
      ClosedWalkIsCycle(g, s, p);
    }
    if r.Some? {
      GraphIsWaitsFor(g, s, r.value[0], r.value[1]);
      ReachesIsWaitsThrough(g, s, r.value[1], r.value[0]);
    }
  }

  lemma EmptyQueueHasNoCycle(s: LockState)
    requires s.queue == []
    ensures forall p :: !DeadlockCycle(s, p)
  {
    forall p
      ensures !DeadlockCycle(s, p)
    {
      assert DeadlockCycle(s, p) ==> WaitsFor(s, p[0], p[0 + 1]);
    }
  }
}
