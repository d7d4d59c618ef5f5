/**
 Choosing a load balancer port.

 `SelectAvailablePort` sorts the used ports, continues after the largest one,
 and falls back to a scan for gaps. The scan is described without any order:
 it finds the least port k for which at most k - lo used entries lie at or
 below k (`Room`). The consequences, good and bad, follow from that.
 */
module PortSelection {

  // ------------------------------------------------------------------- counting

  /** How many entries of s are at most k. */
  function CountAtMost(s: seq<int>, k: int): nat {
    if s == [] then 0 else CountAtMost(s[..|s| - 1], k) + (if s[|s| - 1] <= k then 1 else 0)
  }

  lemma {:induction false} CountAppend(a: seq<int>, b: seq<int>, k: int)
    ensures CountAtMost(a + b, k) == CountAtMost(a, k) + CountAtMost(b, k)
  {
    if b == [] {
      assert a + b == a;
    } else {
      CountAppend(a, b[..|b| - 1], k);
      assert (a + b)[..|a + b| - 1] == a + b[..|b| - 1];
    }
  }

  lemma {:induction false} CountBounds(s: seq<int>, k: int)
    ensures CountAtMost(s, k) <= |s|
    ensures CountAtMost(s, k) == |s| <==> forall i :: 0 <= i < |s| ==> s[i] <= k
  {
    if s != [] {
      CountBounds(s[..|s| - 1], k);
    }
  }

  /** The entries equal to k are what two neighbouring counts differ by. */
  lemma {:induction false} CountStep(s: seq<int>, k: int)
    ensures CountAtMost(s, k - 1) <= CountAtMost(s, k)
    ensures CountAtMost(s, k - 1) < CountAtMost(s, k) <==> k in s
  {
    if s != [] {
      CountStep(s[..|s| - 1], k);
      assert s == s[..|s| - 1] + [s[|s| - 1]];
    }
  }

  // -------------------------------------------------------------------- sort.Ints

  ghost predicate Sorted(s: seq<int>) {
    forall i, j :: 0 <= i <= j < |s| ==> s[i] <= s[j]
  }

  /** Same entries, with their multiplicities. */
  ghost predicate SameEntries(s: seq<int>, t: seq<int>) {
    |s| == |t| && multiset(s) == multiset(t) && forall k :: CountAtMost(s, k) == CountAtMost(t, k)
  }

  method Insert(s: seq<int>, x: int) returns (r: seq<int>)
    requires Sorted(s)
    ensures Sorted(r) && SameEntries(r, s + [x])
  {
    var i := |s|;
    while i > 0 && s[i - 1] > x
      invariant 0 <= i <= |s|
      invariant forall j :: i <= j < |s| ==> s[j] > x
    {
      i := i - 1;
    }
    r := s[..i] + [x] + s[i..];
    InsertedAt(s, i, x);
  }

  lemma InsertedAt(s: seq<int>, i: nat, x: int)
    requires i <= |s|
    ensures SameEntries(s[..i] + [x] + s[i..], s + [x])
  {
    var a, b := s[..i], s[i..];
    assert s == a + b;
    forall k
      ensures CountAtMost(a + [x] + b, k) == CountAtMost(s + [x], k)
    {
      CountAppend(a + [x], b, k);
      CountAppend(a, [x], k);
      CountAppend(a, b, k);
      CountAppend(s, [x], k);
    }
  }

  /** sort.Ints: sorts the slice in place. */
  method SortInts(a: array<int>)
    modifies a
    ensures Sorted(a[..]) && SameEntries(a[..], old(a[..]))
  {
    var s: seq<int> := [];
    for i := 0 to a.Length
      invariant a[..] == old(a[..]) && Sorted(s) && SameEntries(s, a[..i])
    {
      ghost var before := s;
      s := Insert(s, a[i]);
      assert a[..i + 1] == a[..i] + [a[i]];
      forall k
        ensures CountAtMost(s, k) == CountAtMost(a[..i + 1], k)
      {
        CountAppend(before, [a[i]], k);
        CountAppend(a[..i], [a[i]], k);
      }
    }
    assert a[..a.Length] == a[..];
    forall i | 0 <= i < a.Length {
      a[i] := s[i];
    }
    assert a[..] == s;
  }

  /** In a sorted list, entry i exceeds v exactly when at most i entries are at most v. */
  lemma {:induction false} SortedCount(s: seq<int>, i: nat, v: int)
    requires Sorted(s) && i < |s|
    ensures s[i] > v <==> CountAtMost(s, v) <= i
  {
    var n := |s| - 1;
    if i < n {
      SortedCount(s[..n], i, v);
    } else {
      CountBounds(s[..n], v);
    }
  }

  // ------------------------------------------------------------------- the choice

  /** At most k - lo used entries are at or below k, so lo..k cannot be full. */
  predicate Room(used: seq<int>, lo: int, k: int) {
    lo <= k && CountAtMost(used, k) <= k - lo
  }

  ghost predicate IsLargest(used: seq<int>, m: int) {
    m in used && forall i :: 0 <= i < |used| ==> used[i] <= m
  }

  /** The first port with room, within the |used| ports from lo on. */
  ghost predicate FirstRoom(used: seq<int>, lo: int, k: int) {
    k < lo + |used| && Room(used, lo, k) && forall j :: lo <= j < k ==> !Room(used, lo, j)
  }

  ghost predicate NoRoom(used: seq<int>, lo: int) {
    forall k :: lo <= k < lo + |used| ==> !Room(used, lo, k)
  }

  /** Used ports reach the end of the range: no port is left after the largest one. */
  ghost predicate EndReached(used: seq<int>, lo: int, hi: int) {
    lo > hi || exists i :: 0 <= i < |used| && used[i] >= hi
  }

  /** r is the answer for these used ports. */
  ghost predicate Selected(used: seq<int>, lo: int, hi: int, r: int) {
    if used == [] then r == lo
    else if !EndReached(used, lo, hi) then
      exists m :: IsLargest(used, m) && r == if m + 1 < lo then lo else m + 1
    else FirstRoom(used, lo, r) || (NoRoom(used, lo) && r == 0)
  }

  /** minEnv and maxEnv are MIN_LB_PORT and MAX_LB_PORT as parsed; 0 stands for unset or not a number. */
  method SelectAvailablePort(used: array<int>, minEnv: int, maxEnv: int) returns (port: int)
    modifies used
    ensures SameEntries(used[..], old(used[..]))
    ensures Selected(old(used[..]), if minEnv == 0 then 10000 else minEnv, if maxEnv == 0 then 65535 else maxEnv, port)
  {
    var minPort, maxPort := minEnv, maxEnv;
    if minPort == 0 {
      minPort := 10000;
    }
    if maxPort == 0 {
      maxPort := 65535;
    }
    if used.Length == 0 {
      return minPort;
    }
    ghost var u := used[..];
    SortInts(used);
    ghost var s := used[..];
    var last := used[used.Length - 1];
    SameLargest(s, u, last);
    var selectPort := last + 1;
    if selectPort < minPort {
      selectPort := minPort;
    }
    if selectPort <= maxPort {
      return selectPort;
    }
    selectPort := minPort;
    for i := 0 to used.Length
      invariant used[..] == s && selectPort == minPort + i
      invariant forall j :: minPort <= j < selectPort ==> !Room(u, minPort, j)
    {
      var p := used[i];
      SortedCount(s, i, selectPort);
      if p == selectPort {
        selectPort := selectPort + 1;
        continue;
      }
      if p > selectPort {
        return selectPort;
      }
      selectPort := selectPort + 1;
    }
    SortedCount(s, used.Length - 1, selectPort - 1);
    assert !Room(u, minPort, selectPort - 1);
    assert selectPort > maxPort;
    if selectPort <= maxPort {
      return selectPort;
    }
    return 0;
  }

  lemma SameLargest(s: seq<int>, u: seq<int>, m: int)
    requires s != [] && Sorted(s) && SameEntries(s, u) && m == s[|s| - 1]
    ensures IsLargest(u, m)
  {
    assert m in multiset(s);
    CountBounds(s, m);
    CountBounds(u, m);
  }

  /** The answer depends on the entries, not on their order. */
  lemma OrderIsIrrelevant(s: seq<int>, u: seq<int>, lo: int, hi: int, r: int)
    requires SameEntries(s, u)
    ensures Selected(s, lo, hi, r) <==> Selected(u, lo, hi, r)
  {
    forall m
      ensures m in s <==> m in u
      ensures IsLargest(s, m) <==> IsLargest(u, m)
    {
      assert m in multiset(s) <==> m in multiset(u);
      CountBounds(s, m);
      CountBounds(u, m);
    }
    CountBounds(s, hi - 1);
    CountBounds(u, hi - 1);
    assert EndReached(s, lo, hi) <==> EndReached(u, lo, hi);
    assert forall k :: Room(s, lo, k) <==> Room(u, lo, k);
  }

  /** The used ports determine the answer. */
  lemma SelectedUnique(used: seq<int>, lo: int, hi: int, r1: int, r2: int)
    requires Selected(used, lo, hi, r1) && Selected(used, lo, hi, r2)
    ensures r1 == r2
  {
    if used != [] && EndReached(used, lo, hi) && FirstRoom(used, lo, r1) {
      assert Room(used, lo, r1) && !NoRoom(used, lo);
    }
  }

  // ------------------------------------------------------------------ consequences

  /** Whatever the used list, a port that is handed out is not in it and not below the minimum. */
  lemma SelectedIsFree(used: seq<int>, lo: int, hi: int, r: int)
    requires Selected(used, lo, hi, r) && r != 0
    ensures r !in used && lo <= r
  {
    if used != [] && EndReached(used, lo, hi) {
      CountStep(used, r);
      if r > lo {
        assert !Room(used, lo, r - 1);
      }
    }
  }

  /** Some port in the range is still unused. */
  ghost predicate HasFree(used: seq<int>, lo: int, hi: int) {
    exists k :: lo <= k <= hi && k !in used
  }

  /** Exactly when a port above the maximum is handed out. */
  lemma AboveMaximum(used: seq<int>, lo: int, hi: int, r: int)
    requires lo <= hi && 0 <= hi && Selected(used, lo, hi, r)
    ensures r > hi <==>
      && EndReached(used, lo, hi)
      && (forall k :: lo <= k <= hi ==> !Room(used, lo, k))
      && (exists k :: hi < k < lo + |used| && Room(used, lo, k))
  {
    if EndReached(used, lo, hi) && r > hi {
      assert Room(used, lo, r);
    }
  }

  /** It never happens while no used port is above the maximum. */
  lemma WithinMaximum(used: seq<int>, lo: int, hi: int, r: int)
    requires lo <= hi && 0 <= hi && Selected(used, lo, hi, r)
    requires forall i :: 0 <= i < |used| ==> used[i] <= hi
    ensures r <= hi
  {
    if r > hi {
      AboveMaximum(used, lo, hi, r);
      var k :| hi < k < lo + |used| && Room(used, lo, k);
      CountBounds(used, k);
    }
  }

  /** Range 1..2, used ports 1, 2 and 4: port 3 is handed out. */
  lemma AboveMaximumExample()
    ensures Selected([1, 2, 4], 1, 2, 3)
  {
    var u := [1, 2, 4];
    assert u[2] >= 2;
    assert u[..2] == [1, 2] && [1, 2][..1] == [1];
    assert CountAtMost([1], 1) == 1 && CountAtMost([1], 2) == 1 && CountAtMost([1], 3) == 1;
    assert CountAtMost([1, 2], 1) == 1 && CountAtMost([1, 2], 2) == 2 && CountAtMost([1, 2], 3) == 2;
    assert FirstRoom(u, 1, 3);
  }

  /** Ports lo..k as a set. */
  ghost function Range(lo: int, k: int): (r: set<int>)
    ensures forall p :: p in r <==> lo <= p <= k
    decreases k - lo
  {
    if k < lo then {} else Range(lo, k - 1) + {k}
  }

  lemma {:induction false} RangeSize(lo: int, k: int)
    requires lo <= k + 1
    ensures |Range(lo, k)| == k - lo + 1
    decreases k - lo
  {
    if lo <= k {
      RangeSize(lo, k - 1);
      assert Range(lo, k) == Range(lo, k - 1) + {k};
    }
  }

  ghost predicate Distinct(s: seq<int>) {
    forall i, j :: 0 <= i < j < |s| ==> s[i] != s[j]
  }

  ghost function UsedUpTo(used: seq<int>, k: int): set<int> {
    set p | p in used && p <= k
  }

  lemma {:induction false} DistinctCount(used: seq<int>, k: int)
    requires Distinct(used)
    ensures CountAtMost(used, k) == |UsedUpTo(used, k)|
  {
    if used == [] {
      assert UsedUpTo(used, k) == {};
    } else {
      var rest, x := used[..|used| - 1], used[|used| - 1];
      DistinctCount(rest, k);
      UsedUpToStep(rest, x, k);
      assert used == rest + [x];
      assert x !in UsedUpTo(rest, k);
    }
  }

  lemma UsedUpToStep(rest: seq<int>, x: int, k: int)
    ensures UsedUpTo(rest + [x], k) == UsedUpTo(rest, k) + (if x <= k then {x} else {})
  {
  }

  lemma SubsetOfSameSize(a: set<int>, b: set<int>)
    requires a <= b && |a| >= |b|
    ensures a == b
  {
    assert b == a + (b - a);
    assert |b| == |a| + |b - a|;
    assert b - a == {};
  }

  /** For distinct ports of the range, no room up to k means that lo..k is full. */
  lemma NoRoomMeansFull(used: seq<int>, lo: int, k: int)
    requires Distinct(used) && (forall i :: 0 <= i < |used| ==> lo <= used[i]) && lo <= k
    ensures !Room(used, lo, k) <==> forall p :: lo <= p <= k ==> p in used
  {
    DistinctCount(used, k);
    RangeSize(lo, k);
    if !Room(used, lo, k) {
      SubsetOfSameSize(UsedUpTo(used, k), Range(lo, k));
      forall p | lo <= p <= k
        ensures p in used
      {
        assert p in Range(lo, k);
      }
    }
    if forall p :: lo <= p <= k ==> p in used {
      assert UsedUpTo(used, k) == Range(lo, k);
    }
  }

  /** With distinct used ports inside the range: 0 means full, and a gap is filled from below. */
  lemma DistinctSelection(used: seq<int>, lo: int, hi: int, r: int)
    requires 0 < lo <= hi && Selected(used, lo, hi, r)
    requires Distinct(used) && forall i :: 0 <= i < |used| ==> lo <= used[i] <= hi
    ensures r == 0 <==> !HasFree(used, lo, hi)
    ensures r != 0 && hi in used ==> forall p :: lo <= p < r ==> p in used
  {
    WithinMaximum(used, lo, hi, r);
    if r != 0 {
      SelectedIsFree(used, lo, hi, r);
      if hi in used {
        assert EndReached(used, lo, hi);
        if lo < r {
          NoRoomMeansFull(used, lo, r - 1);
        }
      }
    } else {
      var last := lo + |used| - 1;
      assert !Room(used, lo, last);
      NoRoomMeansFull(used, lo, last);
      CountBounds(used, last);
    }
  }

  /** Range 1..3, used ports 1, 1 and 3: port 2 is free, yet nothing is handed out. */
  lemma RepeatedPortHidesGap()
    ensures Selected([1, 1, 3], 1, 3, 0) && 2 !in [1, 1, 3]
  {
    var u := [1, 1, 3];
    assert u[2] >= 3;
    assert u[..2] == [1, 1] && [1, 1][..1] == [1];
    assert CountAtMost([1], 1) == 1 && CountAtMost([1], 2) == 1 && CountAtMost([1], 3) == 1;
    assert CountAtMost([1, 1], 1) == 2 && CountAtMost([1, 1], 2) == 2 && CountAtMost([1, 1], 3) == 2;
    assert NoRoom(u, 1);
  }

  lemma {:induction false} CountCovers(used: seq<int>, k: int)
    ensures |UsedUpTo(used, k)| <= CountAtMost(used, k)
  {
    if used == [] {
      assert UsedUpTo(used, k) == {};
    } else {
      var rest, x := used[..|used| - 1], used[|used| - 1];
      CountCovers(rest, k);
      UsedUpToStep(rest, x, k);
      assert used == rest + [x];
    }
  }

  lemma SubsetIsSmaller(a: set<int>, b: set<int>)
    requires a <= b
    ensures |a| <= |b|
  {
    assert b == a + (b - a);
  }

  /** For every list, room up to k means a free port in lo..k; the converse fails when ports repeat. */
  lemma RoomMeansFree(used: seq<int>, lo: int, k: int)
    requires Room(used, lo, k)
    ensures HasFree(used, lo, k)
  {
    if !HasFree(used, lo, k) {
      CountCovers(used, k);
      RangeSize(lo, k);
      SubsetIsSmaller(Range(lo, k), UsedUpTo(used, k));
    }
  }

  /**
   Exactly when no port of the range is handed out, for every list: the end of
   the range is reached, and at every port of the range repeated entries, or
   entries below the minimum, make up for the gaps. A full range is such a
   list, and so are the lists whose gaps are missed. The answer is then 0 or,
   with room above the maximum, too large.
   */
  lemma MissedGap(used: seq<int>, lo: int, hi: int, r: int)
    requires 0 < lo <= hi && Selected(used, lo, hi, r)
    ensures r == 0 <==> used != [] && EndReached(used, lo, hi) && NoRoom(used, lo)
    ensures (r == 0 || r > hi) <==>
      used != [] && EndReached(used, lo, hi) && forall k :: lo <= k <= hi ==> !Room(used, lo, k)
    ensures !HasFree(used, lo, hi) ==> r == 0 || r > hi
  {
    if used != [] && EndReached(used, lo, hi) && NoRoom(used, lo) {
      NoRoomAtAll(used, lo);
    }
    if !HasFree(used, lo, hi) && r != 0 {
      SelectedIsFree(used, lo, hi, r);
    }
  }

  /** No room within |used| ports from lo on means no room anywhere below the largest used port. */
  lemma NoRoomAtAll(used: seq<int>, lo: int)
    requires used != [] && NoRoom(used, lo)
    ensures forall k :: Room(used, lo, k) ==> k >= lo + |used|
    ensures forall i :: 0 <= i < |used| ==> used[i] < lo + |used|
  {
    var last := lo + |used| - 1;
    assert !Room(used, lo, last);
    CountBounds(used, last);
  }

  /** Range 1..3, used ports 1, 1, 1 and 4: ports 2 and 3 are free, the maximum is unused, nothing is handed out. */
  lemma PortAboveHidesGap()
    ensures Selected([1, 1, 1, 4], 1, 3, 0) && 2 !in [1, 1, 1, 4] && 3 !in [1, 1, 1, 4]
  {
    var u := [1, 1, 1, 4];
    assert u[3] >= 3;
    assert u[..3] == [1, 1, 1] && [1, 1, 1][..2] == [1, 1] && [1, 1][..1] == [1];
    forall k | 1 <= k <= 4
      ensures !Room(u, 1, k)
    {
      assert CountAtMost([1], k) == 1 && CountAtMost([1, 1], k) == 2 && CountAtMost([1, 1, 1], k) == 3;
    }
    assert NoRoom(u, 1);
  }
}
