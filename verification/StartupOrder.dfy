/**
 Startup ordering of services.

 A batch operation must not start a service before the services it depends on.
 `ServiceDependency` indexes the dependency rows of the requested services,
 enumerates dependency lists from the head nodes, cuts a list where it would
 close a cycle, and folds neighbours in those lists into a wait-for map.

 The wait-for map is characterised, on every graph, by `WaitEdge`: a
 declarative condition on paths that mentions neither the enumeration nor the
 fold. The consequences are in `StartupOrderTheorems`.
 */
module StartupOrder {

  type Graph = map<string, seq<string>>

  /** A row of the service relation table. */
  datatype Relation = Relation(serviceID: string, dependServiceID: string)

  /** u depends on v. */
  predicate Edge(g: Graph, u: string, v: string) {
    u in g && v in g[u]
  }

  ghost predicate AllEdges(g: Graph, u: string, ds: seq<string>) {
    forall i :: 0 <= i < |ds| ==> Edge(g, u, ds[i])
  }

  ghost function Elems(l: seq<string>): set<string> {
    set x | x in l
  }

  /** Every id that is a dependency of something. */
  ghost function Targets(g: Graph): set<string> {
    set u, v | u in g && v in g[u] :: v
  }

  /** The termination measure of list building: targets that are not yet in the list. */
  ghost function Unvisited(g: Graph, l: seq<string>): nat {
    |Targets(g) - Elems(l)|
  }

  lemma VisitingShrinks(g: Graph, l: seq<string>, u: string, d: string)
    requires Edge(g, u, d) && d !in l
    ensures Unvisited(g, l + [d]) < Unvisited(g, l)
  {
    assert Elems(l + [d]) == Elems(l) + {d};
    assert d in Targets(g) - Elems(l);
    assert Targets(g) - Elems(l + [d]) == (Targets(g) - Elems(l)) - {d};
  }

  // ---------------------------------------------------------------- cycle cuts

  ghost predicate ChildIn(g: Graph, l: seq<string>, d: string) {
    exists x :: x in l && Edge(g, d, x)
  }

  /** d may not follow l: it is in l already, or it depends on a member of l. */
  ghost predicate Blocked(g: Graph, l: seq<string>, d: string) {
    d in l || ChildIn(g, l, d)
  }

  method AlreadyInLinkedList(l: seq<string>, d: string) returns (found: bool)
    ensures found <==> d in l
  {
    var pre := |l|;
    while pre > 0
      invariant 0 <= pre <= |l|
      invariant d !in l[pre..]
    {
      pre := pre - 1;
      if l[pre] == d {
        return true;
      }
    }
    return false;
  }

  method ChildInLinkedList(g: Graph, l: seq<string>, d: string) returns (found: bool)
    ensures found <==> ChildIn(g, l, d)
  {
    if d !in g {
      return false;
    }
    var deps := g[d];
    for i := 0 to |deps|
      invariant forall k :: 0 <= k < i ==> deps[k] !in l
    {
      var hit := AlreadyInLinkedList(l, deps[i]);
      if hit {
        return true;
      }
    }
    return false;
  }

  // ------------------------------------------------------- dependency lists

  /** The lists built from l, in the order the code emits them. */
  ghost function Lists(g: Graph, l: seq<string>): seq<seq<string>>
    decreases Unvisited(g, l), 1, 0
  {
    if l == [] then []
    else if l[|l| - 1] !in g then [l]
    else ListsOver(g, l, g[l[|l| - 1]])
  }

  ghost function ListsOver(g: Graph, l: seq<string>, ds: seq<string>): seq<seq<string>>
    requires l != [] && AllEdges(g, l[|l| - 1], ds)
    decreases Unvisited(g, l), 0, |ds|
  {
    if ds == [] then []
    else
      ListsOver(g, l, ds[..|ds| - 1]) +
      (var d := ds[|ds| - 1];
       if Blocked(g, l, d) then [l]
       else
         VisitingShrinks(g, l, l[|l| - 1], d);
         var sub := Lists(g, l + [d]);
         if sub == [] then [l + [d]] else sub)
  }

  /** buildLinkListByHead: recursion through a loop over the dependencies of the last node. */
  method BuildLinkListByHead(g: Graph, l: seq<string>) returns (result: seq<seq<string>>)
    ensures result == Lists(g, l)
    decreases Unvisited(g, l)
  {
    if |l| == 0 {
      return [];
    }
    var sid := l[|l| - 1];
    if sid !in g {
      return [l];
    }
    var deps := g[sid];
    result := [];
    for i := 0 to |deps|
      invariant result == ListsOver(g, l, deps[..i])
    {
      var d := deps[i];
      assert deps[..i + 1][..i] == deps[..i];
      var inList := AlreadyInLinkedList(l, d);
      var childIn := ChildInLinkedList(g, l, d);
      if inList || childIn {
        result := result + [l];
      } else {
        VisitingShrinks(g, l, sid, d);
        var sub := BuildLinkListByHead(g, l + [d]);
        if |sub| == 0 {
          result := result + [l + [d]];
        } else {
          result := result + sub;
        }
      }
    }
    assert deps[..|deps|] == deps;
  }

  // ------------------------------------------------ declarative description

  /** d may be put after the non-empty list q. */
  ghost predicate CleanStep(g: Graph, q: seq<string>, d: string) {
    q != [] && Edge(g, q[|q| - 1], d) && !Blocked(g, q, d)
  }

  /** Every element of p from position n on is a clean step. */
  ghost predicate CleanFrom(g: Graph, n: nat, p: seq<string>) {
    forall i :: n <= i < |p| ==> CleanStep(g, p[..i], p[i])
  }

  /** Building may stop at p: its last node has nothing to wait for, or a cut applies. */
  ghost predicate Stops(g: Graph, p: seq<string>)
    requires p != []
  {
    var u := p[|p| - 1];
    u !in g || g[u] == [] || exists d :: d in g[u] && Blocked(g, p, d)
  }

  /** p is a finished dependency list that extends l. */
  ghost predicate FinishedFrom(g: Graph, l: seq<string>, p: seq<string>)
    requires l != []
  {
    && l <= p
    && CleanFrom(g, |l|, p)
    && Stops(g, p)
    && (p == l ==> l[|l| - 1] !in g || g[l[|l| - 1]] != [])
  }

  lemma NextIsEdge(g: Graph, l: seq<string>, p: seq<string>)
    requires l != [] && l < p && CleanFrom(g, |l|, p)
    ensures CleanStep(g, l, p[|l|])
  {
    assert p[..|l|] == l;
    assert CleanStep(g, p[..|l|], p[|l|]);
  }

  /** What the branch for dependency d contributes. */
  ghost predicate FinishedVia(g: Graph, l: seq<string>, d: string, p: seq<string>)
    requires l != []
  {
    if Blocked(g, l, d) then p == l
    else l + [d] <= p && CleanFrom(g, |l| + 1, p) && Stops(g, p)
  }

  lemma {:induction false} ListsOverExact(g: Graph, l: seq<string>, ds: seq<string>, p: seq<string>)
    requires l != [] && AllEdges(g, l[|l| - 1], ds)
    ensures p in ListsOver(g, l, ds) <==> exists d :: d in ds && FinishedVia(g, l, d, p)
    decreases Unvisited(g, l), 0, |ds|
  {
    if ds != [] {
      var d, rest := ds[|ds| - 1], ds[..|ds| - 1];
      ListsOverExact(g, l, rest, p);
      assert ds == rest + [d];
      if !Blocked(g, l, d) {
        VisitingShrinks(g, l, l[|l| - 1], d);
        ListsExact(g, l + [d], p);
        BranchExact(g, l, d, p);
      }
      assert p in ListsOver(g, l, ds) <==> p in ListsOver(g, l, rest) || FinishedVia(g, l, d, p);
      assert forall x :: x in ds <==> x in rest || x == d;
    }
  }

  /** The sub-lists of a branch, or the extended list itself when there are none. */
  lemma BranchExact(g: Graph, l: seq<string>, d: string, p: seq<string>)
    requires l != [] && !Blocked(g, l, d)
    requires p in Lists(g, l + [d]) <==> FinishedFrom(g, l + [d], p)
    ensures
      var sub := Lists(g, l + [d]);
      p in (if sub == [] then [l + [d]] else sub) <==> FinishedVia(g, l, d, p)
  {
    var newl := l + [d];
    var sub := Lists(g, newl);
    if d in g && g[d] == [] {
      assert sub == [];
      if newl < p && CleanFrom(g, |newl|, p) {
        NextIsEdge(g, newl, p);
      }
    } else {
      ListsNonEmpty(g, newl);
    }
  }

  lemma {:induction false} ListsNonEmpty(g: Graph, l: seq<string>)
    requires l != [] && (l[|l| - 1] in g ==> g[l[|l| - 1]] != [])
    ensures Lists(g, l) != []
  {
    if l[|l| - 1] in g {
      var ds := g[l[|l| - 1]];
      assert ListsOver(g, l, ds) != [];
    }
  }

  /** The lists returned for l are exactly the finished dependency lists that extend l. */
  lemma {:induction false} ListsExact(g: Graph, l: seq<string>, p: seq<string>)
    requires l != []
    ensures p in Lists(g, l) <==> FinishedFrom(g, l, p)
    decreases Unvisited(g, l), 1, 0
  {
    var u := l[|l| - 1];
    if u in g {
      ListsOverExact(g, l, g[u], p);
      if p in Lists(g, l) {
        var d :| d in g[u] && FinishedVia(g, l, d, p);
        ViaIsFinished(g, l, d, p);
      }
      if FinishedFrom(g, l, p) {
        FinishedGoesVia(g, l, p);
      }
    } else if FinishedFrom(g, l, p) && p != l {
      NextIsEdge(g, l, p);
    }
  }

  lemma ViaIsFinished(g: Graph, l: seq<string>, d: string, p: seq<string>)
    requires l != [] && Edge(g, l[|l| - 1], d) && FinishedVia(g, l, d, p)
    ensures FinishedFrom(g, l, p)
  {
    if !Blocked(g, l, d) {
      CleanPrefix(g, l, d, p);
    }
  }

  lemma FinishedGoesVia(g: Graph, l: seq<string>, p: seq<string>)
    requires l != [] && l[|l| - 1] in g && FinishedFrom(g, l, p)
    ensures exists d :: d in g[l[|l| - 1]] && FinishedVia(g, l, d, p)
  {
    if p == l {
      var d :| d in g[l[|l| - 1]] && Blocked(g, l, d);
      assert FinishedVia(g, l, d, p);
    } else {
      var d := p[|l|];
      NextIsEdge(g, l, p);
      assert p[..|l|] == l;
      assert p[..|l| + 1] == l + [d];
      assert FinishedVia(g, l, d, p);
    }
  }

  /** No clean path is lost: each one is the beginning of some returned list. */
  lemma {:induction false} CleanPathIsCovered(g: Graph, l: seq<string>, p: seq<string>)
      returns (q: seq<string>)
    requires l != [] && l < p && CleanFrom(g, |l|, p)
    ensures q in Lists(g, l) && p <= q
  {
    q := Finish(g, p);
    assert FinishedFrom(g, l, q) by {
      forall i | |l| <= i < |q|
        ensures CleanStep(g, q[..i], q[i])
      {
        if i < |p| {
          assert q[..i] == p[..i];
        }
      }
    }
    ListsExact(g, l, q);
  }

  /** A list can always be continued until it stops. */
  lemma {:induction false} Finish(g: Graph, p: seq<string>) returns (q: seq<string>)
    requires p != []
    ensures p <= q && CleanFrom(g, |p|, q) && Stops(g, q)
    decreases Unvisited(g, p)
  {
    if Stops(g, p) {
      return p;
    }
    var d := g[p[|p| - 1]][0];
    VisitingShrinks(g, p, p[|p| - 1], d);
    q := Finish(g, p + [d]);
    CleanPrefix(g, p, d, q);
  }

  lemma CleanUpTo(g: Graph, q: seq<string>, m: nat)
    requires CleanFrom(g, 1, q) && m <= |q|
    ensures CleanFrom(g, 1, q[..m])
  {
    var p := q[..m];
    forall n | 1 <= n < |p|
      ensures CleanStep(g, p[..n], p[n])
    {
      assert p[..n] == q[..n];
    }
  }

  lemma CleanPrefix(g: Graph, l: seq<string>, d: string, p: seq<string>)
    requires CleanStep(g, l, d) && l + [d] <= p && CleanFrom(g, |l| + 1, p)
    ensures l <= p && CleanFrom(g, |l|, p)
  {
    assert p[..|l| + 1] == l + [d];
    assert p[..|l|] == p[..|l| + 1][..|l|] == l;
    assert p[|l|] == p[..|l| + 1][|l|] == d;
  }

  // -------------------------------------------------------- ServiceDependency

  /** The dependencies of u in row order. */
  function DepsIn(rows: seq<Relation>, u: string): seq<string> {
    if rows == [] then []
    else
      var r := rows[|rows| - 1];
      DepsIn(rows[..|rows| - 1], u) + (if r.serviceID == u then [r.dependServiceID] else [])
  }

  /** The dependents of v in row order. */
  function DependentsIn(rows: seq<Relation>, v: string): seq<string> {
    if rows == [] then []
    else
      var r := rows[|rows| - 1];
      DependentsIn(rows[..|rows| - 1], v) + (if r.dependServiceID == v then [r.serviceID] else [])
  }

  lemma {:induction false} RowsGiveEdges(rows: seq<Relation>, u: string, v: string)
    ensures v in DepsIn(rows, u) <==> Relation(u, v) in rows
    ensures u in DependentsIn(rows, v) <==> Relation(u, v) in rows
  {
    if rows != [] {
      var rest, r := rows[..|rows| - 1], rows[|rows| - 1];
      RowsGiveEdges(rest, u, v);
      assert rows == rest + [r];
    }
  }

  /** The dependency graph of the rows. */
  ghost function GraphOf(rows: seq<Relation>): Graph {
    map u | u in (set r | r in rows :: r.serviceID) :: DepsIn(rows, u)
  }

  /** The dependents of every id that the rows depend on. */
  ghost function ReverseOf(rows: seq<Relation>): Graph {
    map v | v in (set r | r in rows :: r.dependServiceID) :: DependentsIn(rows, v)
  }

  datatype ServiceDependency = ServiceDependency(
    serviceIDs: seq<string>,
    sid2depsids: Graph,
    depsid2sids: Graph)
  {
    /** The two maps are inverse to each other and hold no empty entry. */
    ghost predicate Consistent() {
      && (forall u, v :: Edge(sid2depsids, u, v) <==> Edge(depsid2sids, v, u))
      && (forall u :: u in sid2depsids ==> sid2depsids[u] != [])
      && (forall v :: v in depsid2sids ==> depsid2sids[v] != [])
    }

    /** The first requested service that depends on something. */
    ghost predicate FirstDependent(i: nat) {
      && i < |serviceIDs|
      && serviceIDs[i] in sid2depsids
      && forall k :: 0 <= k < i ==> serviceIDs[k] !in sid2depsids
    }

    /** h starts dependency lists. */
    ghost predicate IsHead(h: string) {
      || (h in serviceIDs && h !in depsid2sids)
      || (exists i: nat :: FirstDependent(i) && serviceIDs[i] == h)
    }

    /** A path from a head along clean steps. */
    ghost predicate CleanPath(p: seq<string>) {
      p != [] && IsHead(p[0]) && CleanFrom(sid2depsids, 1, p)
    }

    ghost predicate PathEndsWith(p: seq<string>, u: string, v: string) {
      |p| >= 2 && p[|p| - 2] == u && p[|p| - 1] == v && CleanPath(p)
    }

    /** u has to wait for v. */
    ghost predicate WaitEdge(u: string, v: string) {
      exists p :: PathEndsWith(p, u, v)
    }

    /** The requested ids nobody depends on. */
    function Unreferenced(ids: seq<string>): seq<string> {
      if ids == [] then []
      else
        var last := ids[|ids| - 1];
        Unreferenced(ids[..|ids| - 1]) + (if last in depsid2sids then [] else [last])
    }

    /** The first of the ids that has dependencies, if any. */
    function FirstWithDeps(ids: seq<string>): seq<string> {
      if ids == [] then []
      else
        var first := FirstWithDeps(ids[..|ids| - 1]);
        if first == [] && ids[|ids| - 1] in sid2depsids then [ids[|ids| - 1]] else first
    }

    /** The head nodes in the order in which they are found. */
    function Heads(): seq<string> {
      Unreferenced(serviceIDs) + FirstWithDeps(serviceIDs)
    }

    method HeadNodes() returns (heads: seq<string>)
      ensures heads == Heads()
    {
      heads := [];
      for i := 0 to |serviceIDs|
        invariant heads == Unreferenced(serviceIDs[..i])
      {
        assert serviceIDs[..i + 1][..i] == serviceIDs[..i];
        if serviceIDs[i] in depsid2sids {
          continue;
        }
        heads := heads + [serviceIDs[i]];
      }
      assert serviceIDs[..|serviceIDs|] == serviceIDs;
      for i := 0 to |serviceIDs|
        invariant heads == Unreferenced(serviceIDs) && FirstWithDeps(serviceIDs[..i]) == []
      {
        assert serviceIDs[..i + 1][..i] == serviceIDs[..i];
        if serviceIDs[i] !in sid2depsids {
          continue;
        }
        heads := heads + [serviceIDs[i]];
        FirstStays(serviceIDs, i + 1);
        break;
      }
      assert serviceIDs[..|serviceIDs|] == serviceIDs;
    }

    /** A first service with dependencies stays the first. */
    lemma {:induction false} FirstStays(ids: seq<string>, n: nat)
      requires n <= |ids| && FirstWithDeps(ids[..n]) != []
      ensures FirstWithDeps(ids) == FirstWithDeps(ids[..n])
    {
      if n == |ids| {
        assert ids[..n] == ids;
      } else {
        assert ids[..|ids| - 1][..n] == ids[..n];
        FirstStays(ids[..|ids| - 1], n);
      }
    }

    lemma {:induction false} UnreferencedExact(ids: seq<string>, h: string)
      ensures h in Unreferenced(ids) <==> h in ids && h !in depsid2sids
    {
      if ids != [] {
        UnreferencedExact(ids[..|ids| - 1], h);
        assert ids == ids[..|ids| - 1] + [ids[|ids| - 1]];
      }
    }

    lemma {:induction false} FirstWithDepsExact(n: nat, h: string)
      requires n <= |serviceIDs|
      ensures h in FirstWithDeps(serviceIDs[..n]) <==> exists i: nat :: i < n && FirstDependent(i) && serviceIDs[i] == h
      ensures FirstWithDeps(serviceIDs[..n]) == [] <==> forall k :: 0 <= k < n ==> serviceIDs[k] !in sid2depsids
    {
      if n > 0 {
        FirstWithDepsExact(n - 1, h);
        assert serviceIDs[..n][..n - 1] == serviceIDs[..n - 1];
        if FirstWithDeps(serviceIDs[..n - 1]) == [] {
          assert FirstDependent(n - 1) <==> serviceIDs[n - 1] in sid2depsids;
        } else {
          assert !FirstDependent(n - 1);
        }
      }
    }

    /** The head nodes are the unreferenced services and the first one with dependencies. */
    lemma HeadsExact(h: string)
      ensures h in Heads() <==> IsHead(h)
    {
      UnreferencedExact(serviceIDs, h);
      FirstWithDepsExact(|serviceIDs|, h);
      assert serviceIDs[..|serviceIDs|] == serviceIDs;
    }

    /** The lists of all heads, one head after the other. */
    ghost function AllLists(heads: seq<string>): seq<seq<string>> {
      if heads == [] then []
      else AllLists(heads[..|heads| - 1]) + Lists(sid2depsids, [heads[|heads| - 1]])
    }

    lemma {:induction false} AllListsExact(heads: seq<string>, q: seq<string>)
      ensures q in AllLists(heads) <==> exists k :: 0 <= k < |heads| && q in Lists(sid2depsids, [heads[k]])
    {
      if heads != [] {
        AllListsExact(heads[..|heads| - 1], q);
      }
    }

    /**
     serviceStartupSequence: the wait lists of all services. Their entries
     stand in the order in which the pairs first occur in the lists.
     */
    method StartupSequence() returns (result: map<string, seq<string>>)
      ensures forall u, v :: Edge(result, u, v) <==> WaitEdge(u, v)
      ensures forall u :: u in result ==> result[u] != [] && NoDuplicates(result[u])
      ensures result == FoldAll(AllLists(Heads()))
    {
      var heads := HeadNodes();
      var lists: seq<seq<string>> := [];
      for i := 0 to |heads|
        invariant lists == AllLists(heads[..i])
      {
        assert heads[..i + 1][..i] == heads[..i];
        var more := BuildLinkListByHead(sid2depsids, [heads[i]]);
        lists := lists + more;
      }
      assert heads[..|heads|] == heads;
      result := map[];
      for i := 0 to |lists|
        invariant WellFormed(result) && result == FoldAll(lists[..i])
        invariant forall u, v :: Edge(result, u, v) <==> exists k :: 0 <= k < i && Adjacent(lists[k], |lists[k]|, u, v)
      {
        assert lists[..i + 1][..i] == lists[..i];
        result := FoldList(result, lists[i]);
      }
      assert lists[..|lists|] == lists;
      forall u, v
        ensures Edge(result, u, v) <==> WaitEdge(u, v)
      {
        PairsAreWaitEdges(u, v);
      }
    }

    /** Neighbours in the enumerated lists are the wait edges. */
    lemma PairsAreWaitEdges(u: string, v: string)
      ensures var lists := AllLists(Heads());
        WaitEdge(u, v) <==> exists k :: 0 <= k < |lists| && Adjacent(lists[k], |lists[k]|, u, v)
    {
      var heads, lists := Heads(), AllLists(Heads());
      if k :| 0 <= k < |lists| && Adjacent(lists[k], |lists[k]|, u, v) {
        assert lists[k] in lists;
        AllListsExact(heads, lists[k]);
        var j :| 0 <= j < |heads| && lists[k] in Lists(sid2depsids, [heads[j]]);
        HeadsExact(heads[j]);
        PairIsWaitEdge(heads[j], lists[k], u, v);
      }
      if WaitEdge(u, v) {
        var h, q := WaitEdgeIsPair(u, v);
        HeadsExact(h);
        var j :| 0 <= j < |heads| && heads[j] == h;
        AllListsExact(heads, q);
        var k :| 0 <= k < |lists| && lists[k] == q;
      }
    }

    lemma PairIsWaitEdge(h: string, q: seq<string>, u: string, v: string)
      requires IsHead(h) && q in Lists(sid2depsids, [h]) && Adjacent(q, |q|, u, v)
      ensures WaitEdge(u, v)
    {
      ListsExact(sid2depsids, [h], q);
      var i: nat :| PairAt(q, i, u, v);
      assert q[..1] == [h];
      assert q[0] == h;
      CleanUpTo(sid2depsids, q, i + 2);
      assert PathEndsWith(q[..i + 2], u, v);
    }

    lemma WaitEdgeIsPair(u: string, v: string) returns (h: string, q: seq<string>)
      requires WaitEdge(u, v)
      ensures IsHead(h) && q in Lists(sid2depsids, [h]) && Adjacent(q, |q|, u, v)
    {
      var p :| PathEndsWith(p, u, v);
      h := p[0];
      assert [h] == p[..1];
      q := CleanPathIsCovered(sid2depsids, [h], p);
      assert PairAt(q, |p| - 2, u, v);
    }
  }

  ghost predicate IndexesDeps(m: Graph, rows: seq<Relation>) {
    forall u :: (u in m <==> DepsIn(rows, u) != []) && (u in m ==> m[u] == DepsIn(rows, u))
  }

  ghost predicate IndexesDependents(m: Graph, rows: seq<Relation>) {
    forall v :: (v in m <==> DependentsIn(rows, v) != []) && (v in m ==> m[v] == DependentsIn(rows, v))
  }

  lemma IndexIsGraph(rows: seq<Relation>, m: Graph)
    requires IndexesDeps(m, rows)
    ensures m == GraphOf(rows)
  {
    forall u
      ensures u in m <==> u in GraphOf(rows)
    {
      if DepsIn(rows, u) != [] {
        RowsGiveEdges(rows, u, DepsIn(rows, u)[0]);
      }
      if r :| r in rows && r.serviceID == u {
        RowsGiveEdges(rows, u, r.dependServiceID);
      }
    }
  }

  lemma IndexIsReverse(rows: seq<Relation>, m: Graph)
    requires IndexesDependents(m, rows)
    ensures m == ReverseOf(rows)
  {
    forall v
      ensures v in m <==> v in ReverseOf(rows)
    {
      if DependentsIn(rows, v) != [] {
        RowsGiveEdges(rows, DependentsIn(rows, v)[0], v);
      }
      if r :| r in rows && r.dependServiceID == v {
        RowsGiveEdges(rows, r.serviceID, v);
      }
    }
  }

  /** The index of the rows for the requested ids. */
  ghost function Indexed(serviceIDs: seq<string>, rows: seq<Relation>): ServiceDependency {
    ServiceDependency(serviceIDs, GraphOf(rows), ReverseOf(rows))
  }

  /** NewServiceDependency: indexing the rows both ways. */
  method NewServiceDependency(serviceIDs: seq<string>, rows: seq<Relation>) returns (sd: ServiceDependency)
    ensures sd == Indexed(serviceIDs, rows) && sd.Consistent()
    ensures IndexesDeps(sd.sid2depsids, rows) && IndexesDependents(sd.depsid2sids, rows)
    ensures forall u, v :: Edge(sd.sid2depsids, u, v) <==> Relation(u, v) in rows
  {
    var fwd: Graph, bwd: Graph := map[], map[];
    for i := 0 to |rows|
      invariant IndexesDeps(fwd, rows[..i])
      invariant IndexesDependents(bwd, rows[..i])
    {
      var r := rows[i];
      assert rows[..i + 1][..i] == rows[..i];
      fwd := fwd[r.serviceID := (if r.serviceID in fwd then fwd[r.serviceID] else []) + [r.dependServiceID]];
      bwd := bwd[r.dependServiceID := (if r.dependServiceID in bwd then bwd[r.dependServiceID] else []) + [r.serviceID]];
    }
    assert rows[..|rows|] == rows;
    forall u, v
      ensures Edge(fwd, u, v) <==> Relation(u, v) in rows
      ensures Edge(bwd, v, u) <==> Relation(u, v) in rows
    {
      RowsGiveEdges(rows, u, v);
    }
    IndexIsGraph(rows, fwd);
    IndexIsReverse(rows, bwd);
    sd := ServiceDependency(serviceIDs, fwd, bwd);
  }

  // ------------------------------------------------------------------ the fold

  ghost predicate NoDuplicates(s: seq<string>) {
    forall i, j :: 0 <= i < j < |s| ==> s[i] != s[j]
  }

  ghost predicate WellFormed(m: map<string, seq<string>>) {
    forall u :: u in m ==> m[u] != [] && NoDuplicates(m[u])
  }

  ghost predicate PairAt(p: seq<string>, i: nat, u: string, v: string) {
    i + 1 < |p| && p[i] == u && p[i + 1] == v
  }

  /** u is directly followed by v within the first n elements of p. */
  ghost predicate Adjacent(p: seq<string>, n: nat, u: string, v: string) {
    exists i: nat :: PairAt(p, i, u, v) && i + 1 < n
  }

  /** v joins the wait list of u unless it is there. */
  function AddPair(m: map<string, seq<string>>, u: string, v: string): map<string, seq<string>> {
    var vals := if u in m then m[u] else [];
    if v in vals then m else m[u := vals + [v]]
  }

  function Fold(m: map<string, seq<string>>, l: seq<string>): map<string, seq<string>> {
    if |l| < 2 then m else AddPair(Fold(m, l[..|l| - 1]), l[|l| - 2], l[|l| - 1])
  }

  function FoldAll(lists: seq<seq<string>>): map<string, seq<string>> {
    if lists == [] then map[] else Fold(FoldAll(lists[..|lists| - 1]), lists[|lists| - 1])
  }

  /** Adds every neighbour pair of one list to the wait map, once. */
  method FoldList(m: map<string, seq<string>>, l: seq<string>) returns (r: map<string, seq<string>>)
    requires WellFormed(m)
    ensures WellFormed(r) && r == Fold(m, l)
    ensures forall u, v :: Edge(r, u, v) <==> Edge(m, u, v) || Adjacent(l, |l|, u, v)
  {
    r := m;
    var cur := 0;
    while cur + 1 < |l|
      invariant 0 <= cur && (cur < |l| || l == [])
      invariant r == Fold(m, if l == [] then l else l[..cur + 1])
    {
      var vals := if l[cur] in r then r[l[cur]] else [];
      var exist := false;
      for i := 0 to |vals|
        invariant exist <==> l[cur + 1] in vals[..i]
      {
        if vals[i] == l[cur + 1] {
          exist := true;
          break;
        }
      }
      assert exist <==> l[cur + 1] in vals;
      assert l[..cur + 2][..cur + 1] == l[..cur + 1];
      if !exist {
        r := r[l[cur] := vals + [l[cur + 1]]];
      }
      cur := cur + 1;
    }
    assert l[..|l|] == l;
    FoldExact(m, l, |l|);
  }

  /** Folding a list adds its neighbour pairs and nothing else. */
  lemma {:induction false} FoldExact(m: map<string, seq<string>>, l: seq<string>, n: nat)
    requires WellFormed(m) && n <= |l|
    ensures WellFormed(Fold(m, l[..n]))
    ensures forall u, v :: Edge(Fold(m, l[..n]), u, v) <==> Edge(m, u, v) || Adjacent(l, n, u, v)
  {
    if n >= 2 {
      FoldExact(m, l, n - 1);
      var before := Fold(m, l[..n - 1]);
      assert l[..n][..n - 1] == l[..n - 1];
      AddPairExact(before, l[n - 2], l[n - 1]);
      forall u, v
        ensures Edge(Fold(m, l[..n]), u, v) <==> Edge(m, u, v) || Adjacent(l, n, u, v)
      {
        AdjacentGrows(l, n - 2, u, v);
      }
    }
  }

  /** Later lists only append: what a service waits for already keeps its place. */
  lemma {:induction false} FoldAppends(m: map<string, seq<string>>, l: seq<string>, u: string)
    requires u in m
    ensures u in Fold(m, l) && m[u] <= Fold(m, l)[u]
  {
    if |l| >= 2 {
      FoldAppends(m, l[..|l| - 1], u);
    }
  }

  lemma AddPairExact(m: map<string, seq<string>>, x: string, y: string)
    requires WellFormed(m)
    ensures WellFormed(AddPair(m, x, y))
    ensures forall u, v :: Edge(AddPair(m, x, y), u, v) <==> Edge(m, u, v) || (u == x && v == y)
  {
  }

  lemma AdjacentGrows(l: seq<string>, cur: nat, u: string, v: string)
    requires cur + 1 < |l|
    ensures Adjacent(l, cur + 2, u, v) <==> Adjacent(l, cur + 1, u, v) || (u == l[cur] && v == l[cur + 1])
  {
    if u == l[cur] && v == l[cur + 1] {
      assert PairAt(l, cur, u, v);
    }
  }
}
