/**
 The gateway's port allocator: TCP rules in the database, leased port locks in
 etcd, and the allocation that reads both. Proved over every run of
 allocations, lease expiries and rule changes. Calls that overlap choose a port
 and lock it in separate steps.
 */
module PortAllocator {
  import opened Wrappers
  import opened PortSelection

  datatype Rule = Rule(ip: string, port: int)

  /** The TCP rules of the database, and the port locks that are alive. */
  datatype Store = Store(rules: seq<Rule>, locks: seq<int>)

  /** The rule binds the ip: same address, or one of them stands for all addresses. */
  predicate Binds(r: Rule, ip: string) {
    ip == "0.0.0.0" || r.ip == ip || r.ip == "0.0.0.0"
  }

  function PortsFor(rules: seq<Rule>, ip: string): seq<int> {
    if rules == [] then []
    else
      var r := rules[|rules| - 1];
      PortsFor(rules[..|rules| - 1], ip) + (if Binds(r, ip) then [r.port] else [])
  }

  function RulePorts(st: Store, ip: string): seq<int> {
    PortsFor(st.rules, ip)
  }

  /** The port is bound by a rule of the ip or for all addresses; for all addresses every rule binds. */
  ghost predicate Bound(rules: seq<Rule>, ip: string, port: int) {
    exists r :: r in rules && (r.ip == ip || r.ip == "0.0.0.0" || ip == "0.0.0.0") && r.port == port
  }

  lemma {:induction false} PortsForExact(rules: seq<Rule>, ip: string, port: int)
    ensures port in PortsFor(rules, ip) <==> Bound(rules, ip, port)
  {
    if rules != [] {
      var rest, last := rules[..|rules| - 1], rules[|rules| - 1];
      PortsForExact(rest, ip, port);
      assert rules == rest + [last];
      assert forall r :: r in rules <==> r in rest || r == last;
    }
  }

  /** The positions of the rules that bind the port for the ip. */
  ghost function BindingRules(rules: seq<Rule>, ip: string, port: int): set<int> {
    set i | 0 <= i < |rules| &&
      (rules[i].ip == ip || rules[i].ip == "0.0.0.0" || ip == "0.0.0.0") && rules[i].port == port
  }

  lemma BindingStep(rules: seq<Rule>, r: Rule, ip: string, port: int)
    ensures
      var binds := (r.ip == ip || r.ip == "0.0.0.0" || ip == "0.0.0.0") && r.port == port;
      BindingRules(rules + [r], ip, port) == BindingRules(rules, ip, port) + if binds then {|rules|} else {}
  {
    assert (rules + [r])[..|rules|] == rules;
  }

  /** Every binding rule counts, also if several hold the same port. */
  lemma {:induction false} PortsForCount(rules: seq<Rule>, ip: string, port: int)
    ensures multiset(PortsFor(rules, ip))[port] == |BindingRules(rules, ip, port)|
  {
    if rules != [] {
      var n := |rules| - 1;
      PortsForCount(rules[..n], ip, port);
      BindingStep(rules[..n], rules[n], ip, port);
      assert rules == rules[..n] + [rules[n]];
      PortsForStep(rules, n, ip);
    }
  }

  /** A rule of a third address makes no port unavailable. */
  lemma OtherAddress(rules: seq<Rule>, rule: Rule, ip: string, port: int)
    requires ip != "0.0.0.0" && rule.ip != ip && rule.ip != "0.0.0.0"
    ensures port in PortsFor(rules + [rule], ip) <==> port in PortsFor(rules, ip)
  {
    PortsForExact(rules, ip, port);
    PortsForExact(rules + [rule], ip, port);
  }

  lemma PortsForStep(rules: seq<Rule>, i: nat, ip: string)
    requires i < |rules|
    ensures PortsFor(rules[..i + 1], ip) ==
      if Binds(rules[i], ip) then PortsFor(rules[..i], ip) + [rules[i].port] else PortsFor(rules[..i], ip)
  {
    assert rules[..i + 1][..i] == rules[..i];
  }

  /** Ports that count as used for an ip: its rules, and the locks of every ip. */
  function Used(st: Store, ip: string): seq<int> {
    RulePorts(st, ip) + st.locks
  }

  /** The range the environment sets, with the defaults applied. */
  datatype Config = Config(minEnv: int, maxEnv: int) {
    function Lo(): int { if minEnv == 0 then 10000 else minEnv }
    function Hi(): int { if maxEnv == 0 then 65535 else maxEnv }
  }

  /** The port is in the range, locked by nobody, and bound by no rule that concerns the ip. */
  ghost predicate Available(c: Config, st: Store, ip: string, port: int) {
    && (if c.minEnv == 0 then 10000 else c.minEnv) <= port <= (if c.maxEnv == 0 then 65535 else c.maxEnv)
    && port !in st.locks && !Bound(st.rules, ip, port)
  }

  lemma AvailableExactly(c: Config, st: Store, ip: string, port: int)
    ensures Available(c, st, ip, port) <==> port !in Used(st, ip) && c.Lo() <= port <= c.Hi()
  {
    PortsForExact(st.rules, ip, port);
  }

  /** Writing the lock key of a port; a key that exists gets a new lease. */
  function WithLock(st: Store, port: int): Store {
    if port in st.locks then st else st.(locks := st.locks + [port])
  }

  /**
   What the databases do during one call: whether the rule query answers, the
   lock listing answers, and the lease is granted and its key stored.
   */
  datatype Backends = Backends(queried: bool, listed: bool, leased: bool)

  /** A failed lock listing is only logged, and its missing response is then dereferenced. */
  datatype Lookup = Listed(ports: seq<int>) | QueryFailed | Panicked

  datatype Answer = Port(port: int) | NoMorePort | LookupFailed(reason: Lookup)

  /** The used ports as they are listed: the ports of the rules, ascending, then the locks. */
  ghost predicate ListsUsed(st: Store, ip: string, ports: seq<int>) {
    var n := |PortsFor(st.rules, ip)|;
    && n <= |ports|
    && Sorted(ports[..n]) && SameEntries(ports[..n], PortsFor(st.rules, ip))
    && ports[n..] == st.locks
  }

  lemma ListedAreUsed(st: Store, ip: string, ports: seq<int>)
    requires ListsUsed(st, ip, ports)
    ensures SameEntries(ports, Used(st, ip))
  {
    var n := |PortsFor(st.rules, ip)|;
    assert ports == ports[..n] + st.locks;
    forall k
      ensures CountAtMost(ports, k) == CountAtMost(Used(st, ip), k)
    {
      CountAppend(ports[..n], st.locks, k);
      CountAppend(PortsFor(st.rules, ip), st.locks, k);
    }
  }

  class Gateway {
    const config: Config
    var rules: seq<Rule>
    var locks: seq<int>

    constructor (config: Config, rules: seq<Rule>, locks: seq<int>)
      ensures this.config == config && Abs() == Store(rules, locks)
    {
      this.config := config;
      this.rules, this.locks := rules, locks;
    }

    ghost function Abs(): Store
      reads this
    {
      Store(rules, locks)
    }

    /** GetUsedPortsByIP: the ports of the rules that bind the ip, in ascending order. */
    method GetUsedPortsByIP(ip: string) returns (ports: seq<int>)
      ensures Sorted(ports) && SameEntries(ports, PortsFor(rules, ip))
    {
      ports := [];
      for i := 0 to |rules|
        invariant Sorted(ports) && SameEntries(ports, PortsFor(rules[..i], ip))
      {
        PortsForStep(rules, i, ip);
        if ip == "0.0.0.0" || rules[i].ip == ip || rules[i].ip == "0.0.0.0" {
          var more := Insert(ports, rules[i].port);
          SameEntriesGrow(more, ports, PortsFor(rules[..i], ip), rules[i].port);
          ports := more;
        }
      }
      assert rules[..|rules|] == rules;
    }

    method UsedPorts(ip: string, b: Backends) returns (r: Lookup)
      ensures r == QueryFailed <==> !b.queried
      ensures r == Panicked <==> b.queried && !b.listed
      ensures r.Listed? ==> ListsUsed(Abs(), ip, r.ports)
    {
      if !b.queried {
        return QueryFailed;
      }
      var ports := GetUsedPortsByIP(ip);
      if !b.listed {
        return Panicked;
      }
      ghost var first := ports;
      for i := 0 to |locks|
        invariant ports == first + locks[..i]
      {
        ports := ports + [locks[i]];
      }
      assert ports[..|first|] == first && ports[|first|..] == locks;
      return Listed(ports);
    }

    /** None stands for the panic. */
    method IsPortAvailable(ip: string, port: int, b: Backends) returns (r: Option<bool>)
      ensures r == None <==> b.queried && !b.listed
      ensures r == Some(true) <==> b.queried && b.listed && Available(config, Abs(), ip, port)
    {
      AvailableExactly(config, Abs(), ip, port);
      var lookup := UsedPorts(ip, b);
      if lookup == Panicked {
        return None;
      }
      if lookup == QueryFailed {
        return Some(false);
      }
      var used := lookup.ports;
      ListedAreUsed(Abs(), ip, used);
      assert port in used <==> port in multiset(Used(Abs(), ip));
      for i := 0 to |used|
        invariant port !in used[..i]
      {
        if used[i] == port {
          return Some(false);
        }
      }
      var minPort, maxPort := config.minEnv, config.maxEnv;
      if minPort == 0 {
        minPort := 10000;
      }
      if maxPort == 0 {
        maxPort := 65535;
      }
      if port < minPort || port > maxPort {
        return Some(false);
      }
      return Some(true);
    }

    method GetAvailablePort(ip: string, lock: bool, b: Backends) returns (r: Answer)
      modifies this
      ensures Allocates(config, old(Abs()), ip, lock, b, r, Abs())
    {
      var lookup := UsedPorts(ip, b);
      if !lookup.Listed? {
        return LookupFailed(lookup);
      }
      var ports := lookup.ports;
      ListedAreUsed(Abs(), ip, ports);
      var used := new int[|ports|](i requires 0 <= i < |ports| => ports[i]);
      assert used[..] == ports;
      var port := SelectAvailablePort(used, config.minEnv, config.maxEnv);
      OrderIsIrrelevant(ports, Used(Abs(), ip), config.Lo(), config.Hi(), port);
      if port != 0 {
        if lock && b.leased {
          if port !in locks {
            locks := locks + [port];
          }
        }
        return Port(port);
      }
      return NoMorePort;
    }
  }

  lemma SameEntriesGrow(more: seq<int>, s: seq<int>, t: seq<int>, x: int)
    requires SameEntries(more, s + [x]) && SameEntries(s, t)
    ensures SameEntries(more, t + [x])
  {
    forall k
      ensures CountAtMost(more, k) == CountAtMost(t + [x], k)
    {
      CountAppend(s, [x], k);
      CountAppend(t, [x], k);
    }
  }

  /** One call: the answer, and the new store. */
  ghost predicate Allocates(c: Config, st: Store, ip: string, lock: bool, b: Backends, r: Answer, st': Store) {
    if !b.queried then r == LookupFailed(QueryFailed) && st' == st
    else if !b.listed then r == LookupFailed(Panicked) && st' == st
    else
      && !r.LookupFailed?
      && Selected(Used(st, ip), c.Lo(), c.Hi(), if r.Port? then r.port else 0)
      && (r.Port? ==> r.port != 0)
      && st' == (if r.Port? && lock && b.leased then WithLock(st, r.port) else st)
  }

  // ---------------------------------------------------------------------- one call

  ghost predicate NoneAbove(c: Config, st: Store, ip: string) {
    forall p :: p in Used(st, ip) ==> p <= c.Hi()
  }

  /** A port that is handed out is free for the ip and not locked; once locked it is refused for every ip. */
  lemma AllocationIsSafe(c: Config, st: Store, ip: string, lock: bool, b: Backends, r: Answer, st': Store)
    requires Allocates(c, st, ip, lock, b, r, st') && r.Port?
    ensures forall rule :: rule in st.rules && (rule.ip == ip || rule.ip == "0.0.0.0" || ip == "0.0.0.0") ==>
      rule.port != r.port
    ensures r.port !in st.locks && c.Lo() <= r.port
    ensures c.Lo() <= c.Hi() && 0 <= c.Hi() && NoneAbove(c, st, ip) ==> Available(c, st, ip, r.port)
    ensures lock && b.leased ==> forall other :: !Available(c, st', other, r.port)
  {
    var used := Used(st, ip);
    SelectedIsFree(used, c.Lo(), c.Hi(), r.port);
    if c.Lo() <= c.Hi() && 0 <= c.Hi() && NoneAbove(c, st, ip) {
      assert forall i :: 0 <= i < |used| ==> used[i] in used;
      WithinMaximum(used, c.Lo(), c.Hi(), r.port);
    }
    if lock && b.leased {
      assert r.port in st'.locks;
    }
    PortsForExact(st.rules, ip, r.port);
  }

  // -------------------------------------------------------------------------- runs

  datatype Op =
    | Allocate(ip: string, lock: bool, b: Backends, r: Answer)
    | LockLater(port: int)       // the lock of a call that chose the port in an earlier step
    | Expire(port: int)
    | AddRule(rule: Rule)
    | DeleteRule(index: nat)

  function Without(s: seq<int>, x: int): seq<int> {
    if s == [] then []
    else Without(s[..|s| - 1], x) + (if s[|s| - 1] == x then [] else [s[|s| - 1]])
  }

  lemma {:induction false} WithoutKeeps(s: seq<int>, x: int, y: int)
    ensures y in Without(s, x) <==> y in s && y != x
  {
    if s != [] {
      WithoutKeeps(s[..|s| - 1], x, y);
      assert s == s[..|s| - 1] + [s[|s| - 1]];
    }
  }

  ghost predicate Step(c: Config, st: Store, op: Op, st': Store) {
    match op
    case Allocate(ip, lock, b, r) => Allocates(c, st, ip, lock, b, r, st')
    case LockLater(port) => st' == WithLock(st, port)
    case Expire(port) => st' == st.(locks := Without(st.locks, port))
    case AddRule(rule) => st' == st.(rules := st.rules + [rule])
    case DeleteRule(k) => k < |st.rules| && st' == st.(rules := st.rules[..k] + st.rules[k + 1..])
  }

  ghost predicate Run(c: Config, ops: seq<Op>, states: seq<Store>) {
    |states| == |ops| + 1 && forall i :: 0 <= i < |ops| ==> Step(c, states[i], ops[i], states[i + 1])
  }

  /** An expired lock frees its port for every ip whose rules leave it free. */
  lemma ExpiryFrees(c: Config, st: Store, port: int, st': Store, ip: string)
    requires Step(c, st, Expire(port), st') && c.Lo() <= port <= c.Hi() && !Bound(st.rules, ip, port)
    ensures Available(c, st', ip, port)
    ensures forall p :: p in st'.locks <==> p in st.locks && p != port
  {
    forall p
      ensures p in st'.locks <==> p in st.locks && p != port
    {
      WithoutKeeps(st.locks, port, p);
    }
  }

  /** A deleted rule is gone, and no other; an added one binds. */
  lemma RuleChanges(c: Config, st: Store, op: Op, st': Store)
    requires Step(c, st, op, st')
    ensures op.DeleteRule? ==> multiset(st.rules) == multiset(st'.rules) + multiset{st.rules[op.index]}
    ensures op.AddRule? ==> multiset(st'.rules) == multiset(st.rules) + multiset{op.rule}
    ensures op.AddRule? ==> !Available(c, st', op.rule.ip, op.rule.port)
    ensures op.AddRule? || op.DeleteRule? ==> st'.locks == st.locks
  {
    if op.DeleteRule? {
      var k := op.index;
      assert st.rules == st.rules[..k] + [st.rules[k]] + st.rules[k + 1..];
    }
    if op.AddRule? {
      assert op.rule in st'.rules;
    }
  }

  /** A lock lives until its lease expires. */
  lemma {:induction false} LockLives(c: Config, ops: seq<Op>, states: seq<Store>, port: int, i: nat, j: nat)
    requires Run(c, ops, states) && i <= j <= |ops| && port in states[i].locks
    requires forall k :: i <= k < j ==> ops[k] != Expire(port)
    ensures port in states[j].locks
    decreases j - i
  {
    if i < j {
      assert Step(c, states[i], ops[i], states[i + 1]);
      if ops[i].Expire? {
        WithoutKeeps(states[i].locks, ops[i].port, port);
      }
      LockLives(c, ops, states, port, i + 1, j);
    }
  }

  /** The step locks the port. */
  predicate Locks(op: Op, port: int) {
    op == LockLater(port) || (op.Allocate? && op.lock && op.b.leased && op.r == Port(port))
  }

  /**
   Over every run, also of overlapping calls: once a port is locked and until
   the lock expires, it is handed out to nobody and offered to nobody.
   */
  lemma NoDoubleAllocation(c: Config, ops: seq<Op>, states: seq<Store>, port: int, i: nat, j: nat)
    requires Run(c, ops, states) && i < j < |ops| && Locks(ops[i], port)
    requires forall k :: i < k < j ==> ops[k] != Expire(port)
    ensures ops[j].Allocate? ==> ops[j].r != Port(port)
    ensures forall ip :: !Available(c, states[j], ip, port)
  {
    assert Step(c, states[i], ops[i], states[i + 1]);
    assert port in states[i + 1].locks;
    LockLives(c, ops, states, port, i + 1, j);
    assert Step(c, states[j], ops[j], states[j + 1]);
    if ops[j].Allocate? && ops[j].r.Port? {
      AllocationIsSafe(c, states[j], ops[j].ip, ops[j].lock, ops[j].b, ops[j].r, states[j + 1]);
    }
  }

  /** Choosing and locking are not atomic: calls for an ip that read the same store always collide. */
  lemma OverlappingCallsCollide(c: Config, st: Store, ip: string, b1: Backends, b2: Backends, r1: Answer, r2: Answer)
    requires Allocates(c, st, ip, false, b1, r1, st) && Allocates(c, st, ip, false, b2, r2, st)
    requires b1.queried && b1.listed && b2.queried && b2.listed
    ensures r1 == r2
  {
    SelectedUnique(Used(st, ip), c.Lo(), c.Hi(), if r1.Port? then r1.port else 0, if r2.Port? then r2.port else 0);
  }

  /** No rule and no lock is above the maximum. */
  ghost predicate Bounded(c: Config, st: Store) {
    (forall r :: r in st.rules ==> r.port <= c.Hi()) && (forall p :: p in st.locks ==> p <= c.Hi())
  }

  lemma BoundedMeansNoneAbove(c: Config, st: Store, ip: string)
    requires Bounded(c, st)
    ensures NoneAbove(c, st, ip)
  {
    forall p | p in Used(st, ip)
      ensures p <= c.Hi()
    {
      PortsForExact(st.rules, ip, p);
    }
  }

  lemma StepKeepsBounded(c: Config, st: Store, op: Op, st': Store)
    requires c.Lo() <= c.Hi() && 0 <= c.Hi() && Step(c, st, op, st') && Bounded(c, st)
    requires (op.AddRule? ==> op.rule.port <= c.Hi()) && (op.LockLater? ==> op.port <= c.Hi())
    ensures Bounded(c, st')
  {
    if op.Allocate? && op.r.Port? {
      BoundedMeansNoneAbove(c, st, op.ip);
      AllocationIsSafe(c, st, op.ip, op.lock, op.b, op.r, st');
    }
    if op.Expire? {
      forall p | p in st'.locks
        ensures p <= c.Hi()
      {
        WithoutKeeps(st.locks, op.port, p);
      }
    }
  }

  /** Only ports that were handed out are locked. */
  ghost predicate LocksWereChosen(ops: seq<Op>) {
    forall k :: 0 <= k < |ops| && ops[k].LockLater? ==> ChosenBefore(ops, k, ops[k].port)
  }

  ghost predicate ChosenBefore(ops: seq<Op>, k: nat, port: int)
    requires k <= |ops|
  {
    exists i :: 0 <= i < k && ops[i].Allocate? && ops[i].r == Port(port)
  }

  /**
   Over every run that starts without ports above the maximum and adds no rule
   above it: the allocator adds none either, so every port it hands out is one
   that IsPortAvailable accepts just before.
   */
  lemma {:induction false} RunsStayInRange(c: Config, ops: seq<Op>, states: seq<Store>, k: nat)
    requires c.Lo() <= c.Hi() && 0 <= c.Hi()
    requires Run(c, ops, states) && LocksWereChosen(ops) && k <= |ops| && Bounded(c, states[0])
    requires forall i :: 0 <= i < |ops| && ops[i].AddRule? ==> ops[i].rule.port <= c.Hi()
    ensures Bounded(c, states[k]) && forall ip :: NoneAbove(c, states[k], ip)
    ensures k < |ops| && ops[k].Allocate? && ops[k].r.Port? ==> Available(c, states[k], ops[k].ip, ops[k].r.port)
  {
    if k > 0 {
      var op := ops[k - 1];
      RunsStayInRange(c, ops, states, k - 1);
      if op.LockLater? {
        assert ChosenBefore(ops, k - 1, op.port);
        var i :| 0 <= i < k - 1 && ops[i].Allocate? && ops[i].r == Port(op.port);
        RunsStayInRange(c, ops, states, i);
      }
      assert Step(c, states[k - 1], op, states[k - 1 + 1]);
      StepKeepsBounded(c, states[k - 1], op, states[k]);
    }
    forall ip
      ensures NoneAbove(c, states[k], ip)
    {
      BoundedMeansNoneAbove(c, states[k], ip);
    }
    if k < |ops| && ops[k].Allocate? && ops[k].r.Port? {
      assert Step(c, states[k], ops[k], states[k + 1]);
      AllocationIsSafe(c, states[k], ops[k].ip, ops[k].lock, ops[k].b, ops[k].r, states[k + 1]);
    }
  }
}
