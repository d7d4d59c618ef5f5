/**
 What the startup wait map guarantees.

 `SafeWaiting` holds on every graph, and `AcyclicIsExact` says that nothing is
 lost when there is nothing to cut. Which dependency cycles survive the cuts is
 said in terms of the graph alone: `GuardedCycleIsBroken` by reachability,
 `RingExactly` exactly and by reachability when the cycles share their nodes,
 `CycleSurvivesExactly` and `NoCircularWaitExactly` by forward paths.
 `LongCycleSurvives` is an example.
 */
module StartupOrderTheorems {
  import opened StartupOrder

  /** A walk along dependencies. */
  ghost predicate Walk(g: Graph, p: seq<string>) {
    p != [] && forall i :: 0 <= i < |p| - 1 ==> Edge(g, p[i], p[i + 1])
  }

  ghost predicate Closed(g: Graph, p: seq<string>) {
    |p| >= 2 && p[0] == p[|p| - 1] && Walk(g, p)
  }

  ghost predicate Acyclic(g: Graph) {
    forall p :: !Closed(g, p)
  }

  /** The relation rows were read for the requested services. */
  ghost predicate Requested(sd: ServiceDependency) {
    forall u :: u in sd.sid2depsids ==> u in sd.serviceIDs
  }

  // ------------------------------------------------------------------ safety

  /** A service waits only for a dependency, never for one that depends on it, never for itself. */
  lemma SafeWaiting(sd: ServiceDependency, u: string, v: string)
    requires sd.WaitEdge(u, v)
    ensures Edge(sd.sid2depsids, u, v)
    ensures u != v && !Edge(sd.sid2depsids, v, u) && !sd.WaitEdge(v, u)
  {
    LastStepIsClean(sd, u, v);
    if sd.WaitEdge(v, u) {
      LastStepIsClean(sd, v, u);
    }
  }

  lemma LastStepIsClean(sd: ServiceDependency, u: string, v: string)
    requires sd.WaitEdge(u, v)
    ensures Edge(sd.sid2depsids, u, v) && u != v && !Edge(sd.sid2depsids, v, u)
  {
    var p :| sd.PathEndsWith(p, u, v);
    var n := |p| - 1;
    assert CleanStep(sd.sid2depsids, p[..n], p[n]);
    assert p[..n][n - 1] == u;
  }

  /** Of two services that depend on each other, neither waits for the other. */
  lemma MutualDependencyIsDropped(sd: ServiceDependency, u: string, v: string)
    requires Edge(sd.sid2depsids, u, v) && Edge(sd.sid2depsids, v, u)
    ensures !sd.WaitEdge(u, v) && !sd.WaitEdge(v, u)
  {
    if sd.WaitEdge(u, v) {
      LastStepIsClean(sd, u, v);
    }
    if sd.WaitEdge(v, u) {
      LastStepIsClean(sd, v, u);
    }
  }

  /** Every returned list is a duplicate-free walk in which no node depends on an earlier one. */
  lemma ListsAreSafe(g: Graph, h: string, q: seq<string>, i: nat, j: nat)
    requires q in Lists(g, [h])
    requires i < j < |q|
    ensures q[0] == h && Edge(g, q[j - 1], q[j]) && q[i] != q[j] && !Edge(g, q[j], q[i])
  {
    ListsExact(g, [h], q);
    assert CleanStep(g, q[..j], q[j]);
    assert q[..j][i] == q[i];
  }

  // --------------------------------------------------------- exact if acyclic

  lemma WalkSegment(g: Graph, p: seq<string>, i: nat, j: nat)
    requires Walk(g, p) && i < j <= |p|
    ensures Walk(g, p[i..j])
  {
    var q := p[i..j];
    forall k | 0 <= k < |q| - 1
      ensures Edge(g, q[k], q[k + 1])
    {
      assert q[k] == p[i + k] && q[k + 1] == p[i + k + 1];
    }
  }

  lemma WalkAppend(g: Graph, p: seq<string>, v: string)
    requires Walk(g, p) && Edge(g, p[|p| - 1], v)
    ensures Walk(g, p + [v])
  {
    var q := p + [v];
    forall k | 0 <= k < |q| - 1
      ensures Edge(g, q[k], q[k + 1])
    {
      if k == |p| - 1 {
        assert q[k + 1] == v;
      } else {
        assert Edge(g, p[k], p[k + 1]);
      }
    }
  }

  /** Walks of an acyclic graph never return. */
  lemma NoReturn(g: Graph, p: seq<string>, i: nat, j: nat)
    requires Acyclic(g) && Walk(g, p) && i <= j < |p|
    ensures i < j ==> p[i] != p[j]
    ensures !Edge(g, p[j], p[i])
  {
    var q := p[i..j + 1];
    WalkSegment(g, p, i, j + 1);
    assert !Closed(g, q);
    if Edge(g, p[j], p[i]) {
      CloseWalk(g, q);
    }
  }

  lemma CloseWalk(g: Graph, q: seq<string>)
    requires Walk(g, q) && Edge(g, q[|q| - 1], q[0])
    ensures !Acyclic(g)
  {
    WalkAppend(g, q, q[0]);
    assert Closed(g, q + [q[0]]);
  }

  lemma WalksAreClean(g: Graph, p: seq<string>)
    requires Acyclic(g) && Walk(g, p)
    ensures CleanFrom(g, 1, p)
  {
    forall n | 1 <= n < |p|
      ensures CleanStep(g, p[..n], p[n])
    {
      assert Edge(g, p[n - 1], p[n - 1 + 1]);
      forall x | x in p[..n]
        ensures x != p[n] && !Edge(g, p[n], x)
      {
        var i :| 0 <= i < n && p[i] == x;
        NoReturn(g, p, i, n);
      }
    }
  }

  lemma {:induction false} DistinctFitsIn(s: seq<string>, S: set<string>)
    requires NoDuplicates(s) && forall i :: 0 <= i < |s| ==> s[i] in S
    ensures |s| <= |S|
  {
    if s != [] {
      var n := |s| - 1;
      DistinctFitsIn(s[..n], S - {s[n]});
    }
  }

  /** Going backwards along dependencies of an acyclic graph ends at a head. */
  lemma {:induction false} BackToHead(sd: ServiceDependency, p: seq<string>) returns (q: seq<string>)
    requires sd.Consistent() && Requested(sd) && Acyclic(sd.sid2depsids)
    requires Walk(sd.sid2depsids, p)
    requires forall i :: 0 <= i < |p| ==> p[i] in sd.serviceIDs
    ensures Walk(sd.sid2depsids, q) && sd.IsHead(q[0]) && q[|q| - 1] == p[|p| - 1]
    decreases |Elems(sd.serviceIDs)| - |p|
  {
    var g := sd.sid2depsids;
    ReferencedExactly(sd, p[0]);
    if p[0] !in sd.depsid2sids {
      return p;
    }
    var w :| Edge(g, w, p[0]);
    var longer := [w] + p;
    forall k | 0 <= k < |longer| - 1
      ensures Edge(g, longer[k], longer[k + 1])
    {
      if k > 0 {
        assert Edge(g, p[k - 1], p[k - 1 + 1]);
      }
    }
    forall i, j | 0 <= i < j < |longer|
      ensures longer[i] != longer[j]
    {
      NoReturn(g, longer, i, j);
    }
    DistinctFitsIn(longer, Elems(sd.serviceIDs));
    q := BackToHead(sd, longer);
  }

  /** With no cycle to cut, a service waits for exactly its dependencies. */
  lemma AcyclicIsExact(sd: ServiceDependency, u: string, v: string)
    requires sd.Consistent() && Requested(sd) && Acyclic(sd.sid2depsids)
    ensures sd.WaitEdge(u, v) <==> Edge(sd.sid2depsids, u, v)
  {
    if sd.WaitEdge(u, v) {
      LastStepIsClean(sd, u, v);
    }
    if Edge(sd.sid2depsids, u, v) {
      var q := BackToHead(sd, [u]);
      WalkAppend(sd.sid2depsids, q, v);
      WalksAreClean(sd.sid2depsids, q + [v]);
      assert sd.PathEndsWith(q + [v], u, v);
    }
  }

  // ------------------------------------------------------- which cycles remain

  /** The relation has no cycle through three or more different services. */
  ghost predicate NoLongCycle(g: Graph) {
    forall p :: Closed(g, p) && NoDuplicates(p[1..]) ==> |p| <= 3
  }

  /** Every closed walk contains one that visits each of its nodes once. */
  lemma {:induction false} SimpleCycleIn(g: Graph, p: seq<string>) returns (q: seq<string>)
    requires Closed(g, p)
    ensures Closed(g, q) && NoDuplicates(q[1..])
    decreases |p|
  {
    var s := p[1..];
    if NoDuplicates(s) {
      return p;
    }
    var i, j :| 0 <= i < j < |s| && s[i] == s[j];
    var r := p[i + 1..j + 2];
    WalkSegment(g, p, i + 1, j + 2);
    assert r[0] == s[i] && r[|r| - 1] == s[j];
    q := SimpleCycleIn(g, r);
  }

  /** No node of p is v or a dependency of v. */
  ghost predicate Spares(g: Graph, p: seq<string>, v: string) {
    forall i :: 0 <= i < |p| ==> p[i] != v && !Edge(g, v, p[i])
  }

  /** A walk from a head to u. */
  ghost predicate WalkTo(sd: ServiceDependency, p: seq<string>, u: string) {
    Walk(sd.sid2depsids, p) && sd.IsHead(p[0]) && p[|p| - 1] == u
  }

  /** u can be reached from a head without touching v or a dependency of v. */
  ghost predicate Avoidable(sd: ServiceDependency, u: string, v: string) {
    exists p :: WalkTo(sd, p, u) && Spares(sd.sid2depsids, p, v)
  }

  /** A walk that never comes back: no node repeats, and none depends on an earlier one. */
  ghost predicate Forward(g: Graph, p: seq<string>) {
    Walk(g, p) && forall i, j :: 0 <= i < j < |p| ==> p[i] != p[j] && !Edge(g, p[j], p[i])
  }

  lemma CleanIsForward(g: Graph, p: seq<string>)
    requires p != []
    ensures CleanFrom(g, 1, p) <==> Forward(g, p)
  {
    if CleanFrom(g, 1, p) {
      forall i | 0 <= i < |p| - 1
        ensures Edge(g, p[i], p[i + 1])
      {
        assert CleanStep(g, p[..i + 1], p[i + 1]);
      }
      forall i, j | 0 <= i < j < |p|
        ensures p[i] != p[j] && !Edge(g, p[j], p[i])
      {
        assert CleanStep(g, p[..j], p[j]);
        assert p[..j][i] == p[i];
      }
    }
    if Forward(g, p) {
      forall n | 1 <= n < |p|
        ensures CleanStep(g, p[..n], p[n])
      {
        assert Edge(g, p[n - 1], p[n - 1 + 1]);
      }
    }
  }

  /** A forward path from a head leads to u around v and the dependencies of v. */
  ghost predicate ForwardAround(sd: ServiceDependency, p: seq<string>, u: string, v: string) {
    WalkTo(sd, p, u) && Forward(sd.sid2depsids, p) && Spares(sd.sid2depsids, p, v)
  }

  ghost predicate Evadable(sd: ServiceDependency, u: string, v: string) {
    exists p :: ForwardAround(sd, p, u, v)
  }

  lemma ForwardPrefix(g: Graph, p: seq<string>, n: nat)
    requires Forward(g, p) && n + 1 == |p| && n > 0
    ensures Forward(g, p[..n]) && Spares(g, p[..n], p[n]) && Edge(g, p[n - 1], p[n])
  {
    WalkSegment(g, p, 0, n);
    assert p[0..n] == p[..n];
    assert Edge(g, p[n - 1], p[n - 1 + 1]);
  }

  lemma ForwardAppend(g: Graph, p: seq<string>, v: string)
    requires Forward(g, p) && Spares(g, p, v) && Edge(g, p[|p| - 1], v)
    ensures Forward(g, p + [v])
  {
    WalkAppend(g, p, v);
  }

  lemma WaitHasPathAround(sd: ServiceDependency, u: string, v: string) returns (p: seq<string>)
    requires sd.WaitEdge(u, v)
    ensures Edge(sd.sid2depsids, u, v) && ForwardAround(sd, p, u, v)
  {
    var q :| sd.PathEndsWith(q, u, v);
    CleanIsForward(sd.sid2depsids, q);
    ForwardPrefix(sd.sid2depsids, q, |q| - 1);
    p := q[..|q| - 1];
  }

  lemma PathAroundIsWait(sd: ServiceDependency, p: seq<string>, u: string, v: string)
    requires Edge(sd.sid2depsids, u, v) && ForwardAround(sd, p, u, v)
    ensures sd.WaitEdge(u, v)
  {
    ForwardAppend(sd.sid2depsids, p, v);
    CleanIsForward(sd.sid2depsids, p + [v]);
    assert sd.PathEndsWith(p + [v], u, v);
  }

  /** On every graph: u waits for v exactly when it depends on v and a forward path from a head leads to u around v. */
  lemma WaitEdgeExactly(sd: ServiceDependency, u: string, v: string)
    ensures sd.WaitEdge(u, v) <==> Edge(sd.sid2depsids, u, v) && Evadable(sd, u, v)
  {
    if sd.WaitEdge(u, v) {
      var p := WaitHasPathAround(sd, u, v);
    }
    if p :| Edge(sd.sid2depsids, u, v) && ForwardAround(sd, p, u, v) {
      PathAroundIsWait(sd, p, u, v);
    }
  }

  /** What a wait costs: its service is reachable from a head around v and all dependencies of v. */
  lemma WaitIsAvoidable(sd: ServiceDependency, u: string, v: string)
    requires sd.WaitEdge(u, v)
    ensures Avoidable(sd, u, v)
  {
    var p := WaitHasPathAround(sd, u, v);
  }

  /**
   A dependency cycle with a guarded edge is never wholly in the wait map:
   every walk from a head to p[i] meets p[i + 1] or one of its dependencies.
   */
  lemma GuardedCycleIsBroken(sd: ServiceDependency, m: Graph, p: seq<string>, i: nat)
    requires forall u, v :: Edge(m, u, v) <==> sd.WaitEdge(u, v)
    requires GuardedAt(sd, p, i)
    ensures !Closed(m, p)
  {
    if Closed(m, p) {
      assert Edge(m, p[i], p[i + 1]);
      WaitIsAvoidable(sd, p[i], p[i + 1]);
    }
  }

  /** The edge of p at position i can only be reached through its end or a dependency of its end. */
  ghost predicate GuardedAt(sd: ServiceDependency, p: seq<string>, i: nat) {
    i + 1 < |p| && !Avoidable(sd, p[i], p[i + 1])
  }

  /** Every cycle of the relation has a guarded edge. */
  ghost predicate CyclesGuarded(sd: ServiceDependency) {
    forall p :: Closed(sd.sid2depsids, p) && NoDuplicates(p[1..]) ==> exists i: nat :: GuardedAt(sd, p, i)
  }

  /** If every cycle has a guarded edge, the wait map has no cycle at all. */
  lemma GuardedCyclesAreBroken(sd: ServiceDependency, m: Graph)
    requires forall u, v :: Edge(m, u, v) <==> sd.WaitEdge(u, v)
    requires CyclesGuarded(sd)
    ensures Acyclic(m)
  {
    forall p
      ensures !Closed(m, p)
    {
      if Closed(m, p) {
        var q := SimpleCycleIn(m, p);
        WaitsAreDependencies(sd, m, q);
        var i: nat :| GuardedAt(sd, q, i);
        GuardedCycleIsBroken(sd, m, q, i);
      }
    }
  }

  lemma WaitsAreDependencies(sd: ServiceDependency, m: Graph, p: seq<string>)
    requires forall u, v :: Edge(m, u, v) <==> sd.WaitEdge(u, v)
    requires Closed(m, p)
    ensures Closed(sd.sid2depsids, p)
  {
    forall i | 0 <= i < |p| - 1
      ensures Edge(sd.sid2depsids, p[i], p[i + 1])
    {
      SafeWaiting(sd, p[i], p[i + 1]);
    }
  }

  /** Exactly which dependency cycles lie in the wait map: those with a forward path around for every edge. */
  lemma CycleSurvivesExactly(sd: ServiceDependency, m: Graph, p: seq<string>)
    requires forall u, v :: Edge(m, u, v) <==> sd.WaitEdge(u, v)
    ensures Closed(m, p) <==>
      Closed(sd.sid2depsids, p) && forall i: nat :: i + 1 < |p| ==> Evadable(sd, p[i], p[i + 1])
  {
    if Closed(m, p) {
      WaitsAreDependencies(sd, m, p);
      forall i: nat | i + 1 < |p|
        ensures Evadable(sd, p[i], p[i + 1])
      {
        assert Edge(m, p[i], p[i + 1]);
        WaitEdgeExactly(sd, p[i], p[i + 1]);
      }
    }
    if Closed(sd.sid2depsids, p) && forall i: nat :: i + 1 < |p| ==> Evadable(sd, p[i], p[i + 1]) {
      forall i | 0 <= i < |p| - 1
        ensures Edge(m, p[i], p[i + 1])
      {
        assert Evadable(sd, p[i], p[i + 1]);
        WaitEdgeExactly(sd, p[i], p[i + 1]);
      }
    }
  }

  /** No forward path leads around the edge of p at position i. */
  ghost predicate CutAt(sd: ServiceDependency, p: seq<string>, i: nat) {
    i + 1 < |p| && !Evadable(sd, p[i], p[i + 1])
  }

  /** On every graph: nobody waits in a circle if and only if every dependency cycle has an edge with no forward path around. */
  lemma NoCircularWaitExactly(sd: ServiceDependency, m: Graph)
    requires forall u, v :: Edge(m, u, v) <==> sd.WaitEdge(u, v)
    ensures Acyclic(m) <==> forall p :: Closed(sd.sid2depsids, p) ==> exists i: nat :: CutAt(sd, p, i)
  {
    forall p
      ensures Closed(m, p) <==> Closed(sd.sid2depsids, p) && forall i: nat :: !CutAt(sd, p, i)
    {
      CycleSurvivesExactly(sd, m, p);
      assert forall i: nat :: i + 1 < |p| ==> (CutAt(sd, p, i) <==> !Evadable(sd, p[i], p[i + 1]));
    }
  }

  /** Every cycle passes through v. */
  ghost predicate Meets(g: Graph, v: string) {
    forall p :: Closed(g, p) ==> v in p
  }

  /** If every cycle passes through v, waiting for v is decided by reachability alone. */
  lemma WaitByReachability(sd: ServiceDependency, u: string, v: string)
    requires Meets(sd.sid2depsids, v)
    ensures sd.WaitEdge(u, v) <==> Edge(sd.sid2depsids, u, v) && Avoidable(sd, u, v)
  {
    var g := sd.sid2depsids;
    WaitEdgeExactly(sd, u, v);
    if Edge(g, u, v) && Avoidable(sd, u, v) {
      var p :| WalkTo(sd, p, u) && Spares(g, p, v);
      WalkAroundIsForward(g, p, v);
      assert ForwardAround(sd, p, u, v);
    }
  }

  lemma CycleAround(g: Graph, q: seq<string>, v: string)
    requires Walk(g, q) && Edge(g, q[|q| - 1], q[0]) && v !in q
    ensures !Meets(g, v)
  {
    WalkAppend(g, q, q[0]);
    assert Closed(g, q + [q[0]]);
  }

  lemma WalkAroundIsForward(g: Graph, p: seq<string>, v: string)
    requires Meets(g, v) && Walk(g, p) && Spares(g, p, v)
    ensures Forward(g, p)
  {
    forall i, j | 0 <= i < j < |p|
      ensures p[i] != p[j] && !Edge(g, p[j], p[i])
    {
      var q := p[i..j + 1];
      WalkSegment(g, p, i, j + 1);
      assert v !in q && !Closed(g, q);
      if Edge(g, p[j], p[i]) {
        CycleAround(g, q, v);
      }
    }
  }

  /**
   When all cycles of the relation run through the same services, those of the
   ring p: services end up waiting in a circle if and only if every service of
   the ring can be reached from a head around the next one and its dependencies.
   */
  lemma RingExactly(sd: ServiceDependency, m: Graph, p: seq<string>)
    requires forall u, v :: Edge(m, u, v) <==> sd.WaitEdge(u, v)
    requires Closed(sd.sid2depsids, p) && forall i :: 0 <= i < |p| ==> Meets(sd.sid2depsids, p[i])
    ensures Closed(m, p) <==> forall i: nat :: i + 1 < |p| ==> !GuardedAt(sd, p, i)
  {
    forall i: nat | i + 1 < |p|
      ensures Edge(m, p[i], p[i + 1]) <==> !GuardedAt(sd, p, i)
    {
      assert Edge(sd.sid2depsids, p[i], p[i + 1]);
      WaitByReachability(sd, p[i], p[i + 1]);
    }
  }

  /** If dependencies are circular only between pairs, every cycle is guarded and the wait map has no cycle. */
  lemma ShortCyclesAreBroken(sd: ServiceDependency, m: Graph)
    requires forall u, v :: Edge(m, u, v) <==> sd.WaitEdge(u, v)
    requires NoLongCycle(sd.sid2depsids)
    ensures Acyclic(m)
  {
    forall p | Closed(sd.sid2depsids, p) && NoDuplicates(p[1..])
      ensures exists i: nat :: GuardedAt(sd, p, i)
    {
      ShortCycleIsGuarded(sd, p);
    }
    GuardedCyclesAreBroken(sd, m);
  }

  /** A pair that depends on each other, or a service on itself, is always guarded. */
  lemma ShortCycleIsGuarded(sd: ServiceDependency, p: seq<string>)
    requires Closed(sd.sid2depsids, p) && |p| <= 3
    ensures GuardedAt(sd, p, 0)
  {
    var g := sd.sid2depsids;
    assert |p| == 3 ==> Edge(g, p[1], p[1 + 1]);
    forall q | WalkTo(sd, q, p[0])
      ensures !Spares(g, q, p[1])
    {
      assert q[|q| - 1] == p[0];
    }
  }

  /** h depends on a, b and c, which depend on each other in a ring. */
  function RingRows(): seq<Relation> {
    [Relation("h", "a"), Relation("h", "b"), Relation("h", "c"),
     Relation("a", "b"), Relation("b", "c"), Relation("c", "a")]
  }

  function RingIDs(): seq<string> {
    ["h", "a", "b", "c"]
  }

  predicate RingEdge(u: string, v: string) {
    (u == "h" && (v == "a" || v == "b" || v == "c")) || RingNext(u, v)
  }

  predicate RingNext(u: string, v: string) {
    (u == "a" && v == "b") || (u == "b" && v == "c") || (u == "c" && v == "a")
  }

  lemma RingRowsExact(u: string, v: string)
    ensures Relation(u, v) in RingRows() <==> RingEdge(u, v)
  {
    var rows := RingRows();
    assert rows[0] == Relation("h", "a") && rows[1] == Relation("h", "b") && rows[2] == Relation("h", "c");
    assert rows[3] == Relation("a", "b") && rows[4] == Relation("b", "c") && rows[5] == Relation("c", "a");
  }

  lemma ReferencedExactly(sd: ServiceDependency, v: string)
    requires sd.Consistent()
    ensures v in sd.depsid2sids <==> exists u :: Edge(sd.sid2depsids, u, v)
  {
    if v in sd.depsid2sids {
      assert Edge(sd.depsid2sids, v, sd.depsid2sids[v][0]);
    }
  }

  lemma RingWait(sd: ServiceDependency, x: string, y: string)
    requires sd.serviceIDs == RingIDs() && sd.Consistent()
    requires forall u, v :: Edge(sd.sid2depsids, u, v) <==> RingEdge(u, v)
    requires RingNext(x, y)
    ensures sd.WaitEdge(x, y)
  {
    var g, p := sd.sid2depsids, ["h", x];
    assert sd.serviceIDs[0] == "h";
    ReferencedExactly(sd, "h");
    assert sd.IsHead("h");
    assert RingEdge("h", x) && RingEdge(x, y);
    assert ForwardAround(sd, p, x, y);
    PathAroundIsWait(sd, p, x, y);
  }

  /** A batch whose wait map has a cycle: three services that all wait for each other. */
  method LongCycleSurvives() returns (waits: map<string, seq<string>>)
    ensures Edge(waits, "a", "b") && Edge(waits, "b", "c") && Edge(waits, "c", "a")
  {
    var sd := NewServiceDependency(RingIDs(), RingRows());
    waits := sd.StartupSequence();
    forall u, v
      ensures Edge(sd.sid2depsids, u, v) <==> RingEdge(u, v)
    {
      RingRowsExact(u, v);
    }
    RingWait(sd, "a", "b");
    RingWait(sd, "b", "c");
    RingWait(sd, "c", "a");
  }

  // ------------------------------------------------------------- the whole call

  /** u depends on something. */
  ghost predicate HasRow(rows: seq<Relation>, u: string) {
    exists r :: r in rows && r.serviceID == u
  }

  ghost predicate FirstWithRow(ids: seq<string>, rows: seq<Relation>, i: nat) {
    i < |ids| && HasRow(rows, ids[i]) && forall k :: 0 <= k < i ==> !HasRow(rows, ids[k])
  }

  /** A requested id that no row depends on, or the first requested one with a row. */
  ghost predicate StartsLists(ids: seq<string>, rows: seq<Relation>, h: string) {
    || (h in ids && forall r :: r in rows ==> r.dependServiceID != h)
    || (exists i: nat :: FirstWithRow(ids, rows, i) && ids[i] == h)
  }

  /** p follows rows from a head to u, never back, and touches neither v nor a dependency of v. */
  ghost predicate LeadsAround(ids: seq<string>, rows: seq<Relation>, p: seq<string>, u: string, v: string) {
    && p != [] && StartsLists(ids, rows, p[0]) && p[|p| - 1] == u
    && (forall i :: 0 <= i < |p| - 1 ==> Relation(p[i], p[i + 1]) in rows)
    && (forall i, j :: 0 <= i < j < |p| ==> p[i] != p[j] && Relation(p[j], p[i]) !in rows)
    && (forall i :: 0 <= i < |p| ==> p[i] != v && Relation(v, p[i]) !in rows)
  }

  /** In terms of the rows alone: u has to wait for v. */
  ghost predicate MustWait(ids: seq<string>, rows: seq<Relation>, u: string, v: string) {
    Relation(u, v) in rows && exists p :: LeadsAround(ids, rows, p, u, v)
  }

  ghost predicate FromRows(sd: ServiceDependency, rows: seq<Relation>) {
    sd.Consistent() && forall u, v :: Edge(sd.sid2depsids, u, v) <==> Relation(u, v) in rows
  }

  lemma HasRowExactly(sd: ServiceDependency, rows: seq<Relation>, u: string)
    requires FromRows(sd, rows)
    ensures u in sd.sid2depsids <==> HasRow(rows, u)
  {
    if u in sd.sid2depsids {
      assert Edge(sd.sid2depsids, u, sd.sid2depsids[u][0]);
      assert Relation(u, sd.sid2depsids[u][0]).serviceID == u;
    }
    if r :| r in rows && r.serviceID == u {
      assert r == Relation(u, r.dependServiceID);
      assert Edge(sd.sid2depsids, u, r.dependServiceID);
    }
  }

  lemma NoRowDependsExactly(sd: ServiceDependency, rows: seq<Relation>, h: string)
    requires FromRows(sd, rows)
    ensures h !in sd.depsid2sids <==> forall r :: r in rows ==> r.dependServiceID != h
  {
    ReferencedExactly(sd, h);
    if u :| Edge(sd.sid2depsids, u, h) {
      assert Relation(u, h).dependServiceID == h;
    }
    if r :| r in rows && r.dependServiceID == h {
      assert r == Relation(r.serviceID, h);
      assert Edge(sd.sid2depsids, r.serviceID, h);
    }
  }

  lemma HeadsByRows(sd: ServiceDependency, rows: seq<Relation>, h: string)
    requires FromRows(sd, rows)
    ensures sd.IsHead(h) <==> StartsLists(sd.serviceIDs, rows, h)
  {
    NoRowDependsExactly(sd, rows, h);
    forall i: nat
      ensures sd.FirstDependent(i) <==> FirstWithRow(sd.serviceIDs, rows, i)
    {
      forall k | 0 <= k < |sd.serviceIDs|
        ensures sd.serviceIDs[k] in sd.sid2depsids <==> HasRow(rows, sd.serviceIDs[k])
      {
        HasRowExactly(sd, rows, sd.serviceIDs[k]);
      }
    }
  }

  lemma PathsByRows(sd: ServiceDependency, rows: seq<Relation>, p: seq<string>, u: string, v: string)
    requires FromRows(sd, rows)
    ensures ForwardAround(sd, p, u, v) <==> LeadsAround(sd.serviceIDs, rows, p, u, v)
  {
    if p != [] {
      HeadsByRows(sd, rows, p[0]);
    }
  }

  lemma WaitsByRows(sd: ServiceDependency, rows: seq<Relation>, u: string, v: string)
    requires FromRows(sd, rows)
    ensures sd.WaitEdge(u, v) <==> MustWait(sd.serviceIDs, rows, u, v)
  {
    WaitEdgeExactly(sd, u, v);
    if p :| ForwardAround(sd, p, u, v) {
      PathsByRows(sd, rows, p, u, v);
    }
    if p :| LeadsAround(sd.serviceIDs, rows, p, u, v) {
      PathsByRows(sd, rows, p, u, v);
    }
  }

  /**
   serviceStartupSequence of a batch, from the relation rows to the wait map:
   the waits are exactly those the rows demand, on every relation.
   */
  method ServiceStartupSequence(serviceIDs: seq<string>, rows: seq<Relation>)
      returns (waits: map<string, seq<string>>)
    ensures forall u :: u in waits ==> waits[u] != [] && NoDuplicates(waits[u])
    ensures forall u, v :: Edge(waits, u, v) <==> MustWait(serviceIDs, rows, u, v)
    ensures var sd := Indexed(serviceIDs, rows); waits == FoldAll(sd.AllLists(sd.Heads()))
    ensures forall u, v :: Edge(waits, u, v) ==>
      Relation(u, v) in rows && Relation(v, u) !in rows && u != v && !Edge(waits, v, u)
    ensures (forall r :: r in rows ==> r.serviceID in serviceIDs) && Acyclic(GraphOf(rows)) ==>
      forall u, v :: Edge(waits, u, v) <==> Relation(u, v) in rows
    ensures NoLongCycle(GraphOf(rows)) ==> Acyclic(waits)
  {
    var sd := NewServiceDependency(serviceIDs, rows);
    waits := sd.StartupSequence();
    WaitMapByRows(sd, rows, waits);
    WaitMapIsOneWay(sd, rows, waits);
    WaitMapIfAcyclic(sd, rows, waits);
    if NoLongCycle(GraphOf(rows)) {
      ShortCyclesAreBroken(sd, waits);
    }
  }

  lemma WaitMapByRows(sd: ServiceDependency, rows: seq<Relation>, m: Graph)
    requires FromRows(sd, rows) && forall u, v :: Edge(m, u, v) <==> sd.WaitEdge(u, v)
    ensures forall u, v :: Edge(m, u, v) <==> MustWait(sd.serviceIDs, rows, u, v)
  {
    forall u, v
      ensures Edge(m, u, v) <==> MustWait(sd.serviceIDs, rows, u, v)
    {
      WaitsByRows(sd, rows, u, v);
    }
  }

  lemma WaitMapIsOneWay(sd: ServiceDependency, rows: seq<Relation>, m: Graph)
    requires FromRows(sd, rows) && forall u, v :: Edge(m, u, v) <==> sd.WaitEdge(u, v)
    ensures forall u, v :: Edge(m, u, v) ==>
      Relation(u, v) in rows && Relation(v, u) !in rows && u != v && !Edge(m, v, u)
  {
    forall u, v | Edge(m, u, v)
      ensures Relation(u, v) in rows && Relation(v, u) !in rows && u != v && !Edge(m, v, u)
    {
      SafeWaiting(sd, u, v);
    }
  }

  lemma WaitMapIfAcyclic(sd: ServiceDependency, rows: seq<Relation>, m: Graph)
    requires FromRows(sd, rows) && forall u, v :: Edge(m, u, v) <==> sd.WaitEdge(u, v)
    ensures (forall r :: r in rows ==> r.serviceID in sd.serviceIDs) && Acyclic(sd.sid2depsids) ==>
      forall u, v :: Edge(m, u, v) <==> Relation(u, v) in rows
  {
    if (forall r :: r in rows ==> r.serviceID in sd.serviceIDs) && Acyclic(sd.sid2depsids) {
      RequestedRows(sd, rows);
      forall u, v
        ensures Edge(m, u, v) <==> Relation(u, v) in rows
      {
        AcyclicIsExact(sd, u, v);
      }
    }
  }

  lemma RequestedRows(sd: ServiceDependency, rows: seq<Relation>)
    requires FromRows(sd, rows) && forall r :: r in rows ==> r.serviceID in sd.serviceIDs
    ensures Requested(sd)
  {
    forall u | u in sd.sid2depsids
      ensures u in sd.serviceIDs
    {
      HasRowExactly(sd, rows, u);
    }
  }
}
