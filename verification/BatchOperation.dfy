/**
 Batch operations: greedy memory admission and the accounting of results.
 A batch returns one result item per request; requests that do not pass the
 memory or the event check are reported as failures and not dispatched.
 */
module BatchOperation {
  import opened Wrappers
  import opened Text
  import opened StartupOrder
  import opened StartupOrderTheorems

  datatype Request = Request(componentID: string, eventID: string)

  datatype Component = Component(containerMemory: int, replicas: int) {
    /** Memory for all replicas. */
    function Need(): int { containerMemory * replicas }
  }

  datatype Message =
    | NoMessage
    | NotFound
    | OverLimit(allocatable: int)
    | EventPending
    | Failed(text: string)

  /** A result item; `ok` is its status. */
  datatype Item = Item(componentID: string, eventID: string, ok: bool, message: Message)

  function Success(r: Request): Item {
    Item(r.componentID, r.eventID, true, NoMessage)
  }

  function FailureItem(r: Request, m: Message): Item {
    Item(r.componentID, r.eventID, false, m)
  }

  // ------------------------------------------------------------- memory admission

  type Components = map<string, Component>

  /** The component is known and its memory is still there. */
  predicate Fits(cs: Components, left: int, id: string) {
    id in cs && cs[id].Need() <= left
  }

  function Refusal(cs: Components, left: int, id: string): Message {
    if id in cs then OverLimit(left) else NotFound
  }

  datatype Admission = Admission(left: int, accepted: seq<Request>, rejected: seq<Request>, items: seq<Item>)

  /** First come, first served. */
  function Admit(cs: Components, allocatable: int, reqs: seq<Request>): Admission {
    if reqs == [] then Admission(allocatable, [], [], [])
    else
      var r := reqs[|reqs| - 1];
      var a := Admit(cs, allocatable, reqs[..|reqs| - 1]);
      if Fits(cs, a.left, r.componentID) then
        a.(left := a.left - cs[r.componentID].Need(), accepted := a.accepted + [r])
      else
        a.(rejected := a.rejected + [r], items := a.items + [FailureItem(r, Refusal(cs, a.left, r.componentID))])
  }

  class AllocMemory {
    var allcm: int
    const components: Components
    var batchOpResult: seq<Item>
    var batchOpRequests: seq<Request>
    var badOpRequest: seq<Request>

    /** NewAllocMemory, once the allocatable memory and the components are known. */
    constructor (components: Components, allocatable: int, reqs: seq<Request>)
      ensures this.components == components
      ensures Admission(allcm, batchOpRequests, badOpRequest, batchOpResult) == Admit(components, allocatable, reqs)
    {
      this.components := components;
      allcm := allocatable;
      batchOpResult, batchOpRequests, badOpRequest := [], [], [];
      new;
      for i := 0 to |reqs|
        invariant this.components == components
        invariant Admission(allcm, batchOpRequests, badOpRequest, batchOpResult) ==
          Admit(components, allocatable, reqs[..i])
      {
        assert reqs[..i + 1][..i] == reqs[..i];
        var err := Check(reqs[i].componentID);
        if err != NoMessage {
          batchOpResult := batchOpResult + [FailureItem(reqs[i], err)];
          badOpRequest := badOpRequest + [reqs[i]];
          continue;
        }
        batchOpRequests := batchOpRequests + [reqs[i]];
      }
      assert reqs[..|reqs|] == reqs;
    }

    /** Takes the memory of a component, all replicas together, or says why not. */
    method Check(componentID: string) returns (err: Message)
      modifies this`allcm
      ensures componentID !in components ==> err == NotFound && allcm == old(allcm)
      ensures componentID in components ==>
        var need := components[componentID].containerMemory * components[componentID].replicas;
        if need <= old(allcm) then err == NoMessage && allcm == old(allcm) - need
        else err == OverLimit(old(allcm)) && allcm == old(allcm)
    {
      if componentID !in components {
        return NotFound;
      }
      var component := components[componentID];
      var requestMemory := component.containerMemory * component.replicas;
      if requestMemory > allcm {
        return OverLimit(allcm);
      }
      allcm := allcm - requestMemory;
      return NoMessage;
    }
  }

  /** Memory asked for by known components. */
  function TotalNeed(cs: Components, reqs: seq<Request>): int {
    if reqs == [] then 0
    else
      var r := reqs[|reqs| - 1];
      TotalNeed(cs, reqs[..|reqs| - 1]) +
      (if r.componentID in cs then cs[r.componentID].containerMemory * cs[r.componentID].replicas else 0)
  }

  /** s is an interleaving of a and b: both keep their order and nothing else is in s. */
  ghost predicate Interleaves<T>(a: seq<T>, b: seq<T>, s: seq<T>) {
    if s == [] then a == [] && b == []
    else
      var n := |s| - 1;
      || (a != [] && a[|a| - 1] == s[n] && Interleaves(a[..|a| - 1], b, s[..n]))
      || (b != [] && b[|b| - 1] == s[n] && Interleaves(a, b[..|b| - 1], s[..n]))
  }

  ghost predicate NonNegative(cs: Components) {
    forall id :: id in cs ==> cs[id].Need() >= 0
  }

  lemma AppendNeed(cs: Components, reqs: seq<Request>, r: Request)
    ensures TotalNeed(cs, reqs + [r]) ==
      TotalNeed(cs, reqs) +
      (if r.componentID in cs then cs[r.componentID].containerMemory * cs[r.componentID].replicas else 0)
  {
    assert (reqs + [r])[..|reqs|] == reqs;
  }

  /** Admission splits the batch in order and hands out exactly what it takes away. */
  lemma {:induction false} AdmissionConserves(cs: Components, allocatable: int, reqs: seq<Request>)
    ensures var a := Admit(cs, allocatable, reqs);
      && Interleaves(a.accepted, a.rejected, reqs)
      && allocatable - a.left == TotalNeed(cs, a.accepted)
      && (forall r :: r in a.accepted ==> r.componentID in cs)
  {
    if reqs != [] {
      var n := |reqs| - 1;
      AdmissionConserves(cs, allocatable, reqs[..n]);
      var p := Admit(cs, allocatable, reqs[..n]);
      AppendNeed(cs, p.accepted, reqs[n]);
      assert (p.accepted + [reqs[n]])[..|p.accepted|] == p.accepted;
      assert (p.rejected + [reqs[n]])[..|p.rejected|] == p.rejected;
    }
  }

  /**
   First come, first served: what becomes of request i depends on the memory
   that the requests accepted before it have left.
   */
  lemma AdmitNext(cs: Components, allocatable: int, reqs: seq<Request>, i: nat)
    requires i < |reqs|
    ensures
      var before, after := Admit(cs, allocatable, reqs[..i]), Admit(cs, allocatable, reqs[..i + 1]);
      var r, left := reqs[i], allocatable - TotalNeed(cs, before.accepted);
      if r.componentID in cs && cs[r.componentID].containerMemory * cs[r.componentID].replicas <= left then
        after.accepted == before.accepted + [r] && after.rejected == before.rejected && after.items == before.items
      else
        && after.accepted == before.accepted && after.rejected == before.rejected + [r]
        && after.items == before.items +
          [Item(r.componentID, r.eventID, false, if r.componentID in cs then OverLimit(left) else NotFound)]
  {
    assert reqs[..i + 1][..i] == reqs[..i];
    AdmissionConserves(cs, allocatable, reqs[..i]);
  }

  /** Memory is never over-committed, and nothing that was refused would still fit at the end. */
  lemma {:induction false} AdmissionIsMaximal(cs: Components, allocatable: int, reqs: seq<Request>)
    requires NonNegative(cs)
    ensures var a := Admit(cs, allocatable, reqs);
      && a.left <= allocatable
      && (a.accepted != [] ==> 0 <= a.left && TotalNeed(cs, a.accepted) <= allocatable)
      && (forall r :: r in a.rejected ==> !Fits(cs, a.left, r.componentID))
  {
    AdmissionConserves(cs, allocatable, reqs);
    if reqs != [] {
      AdmissionIsMaximal(cs, allocatable, reqs[..|reqs| - 1]);
    }
  }

  /** If everything fits together, everything is accepted. */
  lemma {:induction false} EnoughForAll(cs: Components, allocatable: int, reqs: seq<Request>)
    requires NonNegative(cs) && TotalNeed(cs, reqs) <= allocatable
    requires forall i :: 0 <= i < |reqs| ==> reqs[i].componentID in cs
    ensures Admit(cs, allocatable, reqs).accepted == reqs && Admit(cs, allocatable, reqs).rejected == []
    ensures Admit(cs, allocatable, reqs).left == allocatable - TotalNeed(cs, reqs)
  {
    if reqs != [] {
      EnoughForAll(cs, allocatable, reqs[..|reqs| - 1]);
    }
  }

  // ------------------------------------------------------------------ event check

  /** The last asynchronous event of a component; one that runs has timed out after ten seconds. */
  datatype LastEvent = NoRecord | QueryError | Finished | Running(timedOut: bool)

  /** synType 1 is a synchronous event. */
  predicate MayRun(synType: int, kind: string, last: LastEvent) {
    synType == 1 || kind == "third_party" || !(last.QueryError? || (last.Running? && !last.timedOut))
  }

  method CanDoEvent(synType: int, kind: string, last: LastEvent) returns (ok: bool)
    ensures ok <==> MayRun(synType, kind, last)
  {
    if synType == 1 || kind == "third_party" {
      return true;
    }
    if last.NoRecord? {
      return true;
    }
    if last.QueryError? {
      return false;
    }
    if last.Finished? {
      return true;
    }
    if !last.timedOut {
      return false;
    }
    return true;
  }

  function Passing(reqs: seq<Request>, idle: string -> bool): seq<Request> {
    if reqs == [] then []
    else
      var r := reqs[|reqs| - 1];
      Passing(reqs[..|reqs| - 1], idle) + (if idle(r.componentID) then [r] else [])
  }

  function Pending(reqs: seq<Request>, idle: string -> bool): seq<Item> {
    if reqs == [] then []
    else
      var r := reqs[|reqs| - 1];
      Pending(reqs[..|reqs| - 1], idle) + (if idle(r.componentID) then [] else [FailureItem(r, EventPending)])
  }

  method CheckEvents(reqs: seq<Request>, canDo: string -> bool) returns (valid: seq<Request>, items: seq<Item>)
    ensures valid == Passing(reqs, canDo) && items == Pending(reqs, canDo)
  {
    valid, items := [], [];
    for i := 0 to |reqs|
      invariant valid == Passing(reqs[..i], canDo) && items == Pending(reqs[..i], canDo)
    {
      assert reqs[..i + 1][..i] == reqs[..i];
      if canDo(reqs[i].componentID) {
        valid := valid + [reqs[i]];
        continue;
      }
      items := items + [FailureItem(reqs[i], EventPending)];
    }
    assert reqs[..|reqs|] == reqs;
  }

  // -------------------------------------------------------------------- the batch

  /** A request handed to the operation handler with its boot_seq_dep_service_ids. */
  datatype Dispatch = Dispatch(request: Request, bootSequence: string)

  function WaitList(waits: map<string, seq<string>>, id: string): seq<string> {
    if id in waits then waits[id] else []
  }

  /** The ids a component has to wait for, as its configuration holds them. */
  function BootSequence(waits: map<string, seq<string>>, id: string): string {
    Join(WaitList(waits, id), ',')
  }

  function ResultItem(r: Request, error: Option<string>): Item {
    if error.None? then Success(r) else FailureItem(r, Failed(error.value))
  }

  /** The answers to the dispatched requests, in their order. */
  function Answers(reqs: seq<Request>, run: Request -> Option<string>): seq<Item> {
    seq(|reqs|, i requires 0 <= i < |reqs| => ResultItem(reqs[i], run(reqs[i])))
  }

  /** The dispatch loop shared by all operations; `run` is what the operation handler answers. */
  method DispatchAll(reqs: seq<Request>, waits: map<string, seq<string>>, run: Request -> Option<string>)
      returns (items: seq<Item>, log: seq<Dispatch>)
    ensures items == Answers(reqs, run) && Dispatched(log, reqs, waits)
  {
    items, log := [], [];
    for i := 0 to |reqs|
      invariant |items| == |log| == i
      invariant forall k :: 0 <= k < i ==>
        items[k] == ResultItem(reqs[k], run(reqs[k])) && log[k] == Dispatch(reqs[k], BootSequence(waits, reqs[k].componentID))
    {
      var id := reqs[i].componentID;
      log := log + [Dispatch(reqs[i], Join(if id in waits then waits[id] else [], ','))];
      var err := run(reqs[i]);
      var item := Item(id, reqs[i].eventID, false, NoMessage);
      if err.Some? {
        item := item.(message := Failed(err.value));
      } else {
        item := item.(ok := true);
      }
      items := items + [item];
    }
  }

  // ------------------------------------------------------------------- accounting

  /** Requests about component c and event e. */
  ghost function RequestCount(reqs: seq<Request>, c: string, e: string): nat {
    if reqs == [] then 0
    else RequestCount(reqs[..|reqs| - 1], c, e) + (if reqs[|reqs| - 1] == Request(c, e) then 1 else 0)
  }

  /** Result items about component c and event e. */
  ghost function ItemCount(items: seq<Item>, c: string, e: string): nat {
    if items == [] then 0
    else
      var i := items[|items| - 1];
      ItemCount(items[..|items| - 1], c, e) + (if i.componentID == c && i.eventID == e then 1 else 0)
  }

  /** Every request has its own result item and there is no other item. */
  ghost predicate OneItemEach(items: seq<Item>, reqs: seq<Request>) {
    forall c, e :: ItemCount(items, c, e) == RequestCount(reqs, c, e)
  }

  lemma {:induction false} ItemCountAppend(a: seq<Item>, b: seq<Item>, c: string, e: string)
    ensures ItemCount(a + b, c, e) == ItemCount(a, c, e) + ItemCount(b, c, e)
  {
    if b == [] {
      assert a + b == a;
    } else {
      var n := |b| - 1;
      ItemCountAppend(a, b[..n], c, e);
      assert (a + b)[..|a + b| - 1] == a + b[..n];
    }
  }

  lemma RequestCountAppend(a: seq<Request>, r: Request, c: string, e: string)
    ensures RequestCount(a + [r], c, e) == RequestCount(a, c, e) + (if r == Request(c, e) then 1 else 0)
  {
    assert (a + [r])[..|a|] == a;
  }

  lemma {:induction false} EventCheckCount(reqs: seq<Request>, canDo: string -> bool, c: string, e: string)
    ensures RequestCount(Passing(reqs, canDo), c, e) + ItemCount(Pending(reqs, canDo), c, e) == RequestCount(reqs, c, e)
  {
    if reqs != [] {
      var n := |reqs| - 1;
      EventCheckCount(reqs[..n], canDo, c, e);
      if canDo(reqs[n].componentID) {
        RequestCountAppend(Passing(reqs[..n], canDo), reqs[n], c, e);
        assert Pending(reqs, canDo) == Pending(reqs[..n], canDo);
      } else {
        ItemCountAppend(Pending(reqs[..n], canDo), [FailureItem(reqs[n], EventPending)], c, e);
        assert Passing(reqs, canDo) == Passing(reqs[..n], canDo);
      }
    }
  }

  lemma {:induction false} AdmissionCount(cs: Components, m: int, reqs: seq<Request>, c: string, e: string)
    ensures var a := Admit(cs, m, reqs);
      RequestCount(a.accepted, c, e) + ItemCount(a.items, c, e) == RequestCount(reqs, c, e)
  {
    if reqs != [] {
      var n := |reqs| - 1;
      AdmissionCount(cs, m, reqs[..n], c, e);
      var a := Admit(cs, m, reqs[..n]);
      RequestCountAppend(a.accepted, reqs[n], c, e);
      ItemCountAppend(a.items, [FailureItem(reqs[n], Refusal(cs, a.left, reqs[n].componentID))], c, e);
    }
  }

  lemma {:induction false} DispatchCount(reqs: seq<Request>, run: Request -> Option<string>, c: string, e: string)
    ensures ItemCount(Answers(reqs, run), c, e) == RequestCount(reqs, c, e)
  {
    if reqs != [] {
      var n := |reqs| - 1;
      DispatchCount(reqs[..n], run, c, e);
      assert Answers(reqs, run)[..n] == Answers(reqs[..n], run);
    }
  }

  /** Refusals of the memory check, of the event check, and the answers add up. */
  lemma BatchCount(a: seq<Item>, b: seq<Item>, more: seq<Item>, c: string, e: string)
    ensures ItemCount(a + b + more, c, e) == ItemCount(a, c, e) + ItemCount(b, c, e) + ItemCount(more, c, e)
  {
    ItemCountAppend(a + b, more, c, e);
    ItemCountAppend(a, b, c, e);
  }

  // -------------------------------------------------------------------- operations

  function ComponentIDs(reqs: seq<Request>): (ids: seq<string>)
    ensures |ids| == |reqs| && forall i :: 0 <= i < |reqs| ==> ids[i] == reqs[i].componentID
  {
    seq(|reqs|, i requires 0 <= i < |reqs| => reqs[i].componentID)
  }

  /** The dispatched requests, each with its wait list. */
  ghost predicate Dispatched(log: seq<Dispatch>, reqs: seq<Request>, waits: map<string, seq<string>>) {
    |log| == |reqs| && forall i :: 0 <= i < |reqs| ==> log[i] == Dispatch(reqs[i], BootSequence(waits, reqs[i].componentID))
  }

  /** Stop: event check, then dispatch. None is the error of creating events. */
  method Stop(reqs: seq<Request>, canDo: string -> bool, eventsCreated: bool, run: Request -> Option<string>)
      returns (result: Option<seq<Item>>, log: seq<Dispatch>)
    ensures result.Some? <==> eventsCreated
    ensures result.Some? ==> result.value == Pending(reqs, canDo) + Answers(Passing(reqs, canDo), run)
    ensures result.Some? ==> OneItemEach(result.value, reqs)
    ensures Dispatched(log, if eventsCreated then Passing(reqs, canDo) else [], map[])
  {
    var valid, items := CheckEvents(reqs, canDo);
    if !eventsCreated {
      return None, [];
    }
    var more;
    more, log := DispatchAll(valid, map[], run);
    forall c, e
      ensures ItemCount(items + more, c, e) == RequestCount(reqs, c, e)
    {
      EventCheckCount(reqs, canDo, c, e);
      DispatchCount(valid, run, c, e);
      ItemCountAppend(items, more, c, e);
    }
    result := Some(items + more);
  }

  /** Refusals of the memory check, refusals of the event check, and the answers to the rest. */
  function UpgradeItems(cs: Components, m: int, reqs: seq<Request>, canDo: string -> bool,
                        run: Request -> Option<string>): seq<Item>
  {
    var a := Admit(cs, m, reqs);
    a.items + Pending(a.accepted, canDo) + Answers(Passing(a.accepted, canDo), run)
  }

  /** The result reports a success for exactly the requests that passed both checks and were carried out. */
  lemma SuccessExactly(cs: Components, m: int, reqs: seq<Request>, canDo: string -> bool,
                       run: Request -> Option<string>, r: Request)
    ensures Item(r.componentID, r.eventID, true, NoMessage) in UpgradeItems(cs, m, reqs, canDo, run) <==>
      r in Admit(cs, m, reqs).accepted && canDo(r.componentID) && run(r).None?
    ensures forall item :: item in UpgradeItems(cs, m, reqs, canDo, run) ==> (item.ok <==> item.message == NoMessage)
  {
    var a := Admit(cs, m, reqs);
    RefusalsFail(cs, m, reqs);
    PendingFails(a.accepted, canDo);
    PassingExactly(a.accepted, canDo, r);
    AnswersExactly(Passing(a.accepted, canDo), run, r);
  }

  lemma AnswersExactly(reqs: seq<Request>, run: Request -> Option<string>, r: Request)
    ensures Success(r) in Answers(reqs, run) <==> r in reqs && run(r).None?
    ensures r in reqs && run(r).Some? ==>
      Item(r.componentID, r.eventID, false, Failed(run(r).value)) in Answers(reqs, run)
    ensures forall item :: item in Answers(reqs, run) ==> (item.ok <==> item.message == NoMessage)
  {
    if r in reqs && run(r).None? {
      var i :| 0 <= i < |reqs| && reqs[i] == r;
      assert Answers(reqs, run)[i] == Success(r);
    }
    if r in reqs && run(r).Some? {
      var i :| 0 <= i < |reqs| && reqs[i] == r;
      assert Answers(reqs, run)[i] == Item(r.componentID, r.eventID, false, Failed(run(r).value));
    }
  }

  /** A refused item says why. */
  ghost predicate Fails(items: seq<Item>) {
    forall i :: 0 <= i < |items| ==> !items[i].ok && items[i].message != NoMessage
  }

  /** Every request that the memory check refuses is reported as a failure, in order. */
  lemma {:induction false} RefusalsFail(cs: Components, m: int, reqs: seq<Request>)
    ensures var a := Admit(cs, m, reqs);
      && Fails(a.items) && |a.items| == |a.rejected|
      && forall i :: 0 <= i < |a.rejected| ==> a.items[i] == FailureItem(a.rejected[i], a.items[i].message)
  {
    if reqs != [] {
      RefusalsFail(cs, m, reqs[..|reqs| - 1]);
    }
  }

  lemma {:induction false} PendingFails(reqs: seq<Request>, canDo: string -> bool)
    ensures Fails(Pending(reqs, canDo))
  {
    if reqs != [] {
      PendingFails(reqs[..|reqs| - 1], canDo);
    }
  }

  lemma {:induction false} PassingExactly(reqs: seq<Request>, canDo: string -> bool, r: Request)
    ensures r in Passing(reqs, canDo) <==> r in reqs && canDo(r.componentID)
  {
    if reqs != [] {
      var n := |reqs| - 1;
      PassingExactly(reqs[..n], canDo, r);
      assert reqs == reqs[..n] + [reqs[n]];
    }
  }

  /** Upgrade: memory check, event check of what passed, dispatch of what is left with its startup wait list. */
  method Upgrade(reqs: seq<Request>, waits: map<string, seq<string>>, cs: Components, allocatable: Option<int>,
                 canDo: string -> bool, eventsCreated: bool, run: Request -> Option<string>)
      returns (result: Option<seq<Item>>, log: seq<Dispatch>)
    ensures result.Some? <==> allocatable.Some? && eventsCreated
    ensures result.Some? ==> result.value == UpgradeItems(cs, allocatable.value, reqs, canDo, run)
    ensures result.Some? ==> OneItemEach(result.value, reqs)
    ensures Dispatched(log,
      if result.Some? then Passing(Admit(cs, allocatable.value, reqs).accepted, canDo) else [], waits)
  {
    if allocatable.None? {
      return None, [];
    }
    var am := new AllocMemory(cs, allocatable.value, reqs);
    var items, accepted := am.batchOpResult, am.batchOpRequests;
    var valid, items2 := CheckEvents(accepted, canDo);
    if !eventsCreated {
      return None, [];
    }
    var more;
    more, log := DispatchAll(valid, waits, run);
    forall c, e
      ensures ItemCount(items + items2 + more, c, e) == RequestCount(reqs, c, e)
    {
      AdmissionCount(cs, allocatable.value, reqs, c, e);
      EventCheckCount(accepted, canDo, c, e);
      DispatchCount(valid, run, c, e);
      BatchCount(items, items2, more, c, e);
    }
    result := Some(items + items2 + more);
  }

  /** The whole upgrade call, with the startup order computed from the relation rows. */
  method UpgradeBatch(reqs: seq<Request>, rows: seq<Relation>, cs: Components, allocatable: Option<int>,
                      canDo: string -> bool, eventsCreated: bool, run: Request -> Option<string>)
      returns (result: Option<seq<Item>>, log: seq<Dispatch>, ghost waits: map<string, seq<string>>)
    ensures result.Some? <==> allocatable.Some? && eventsCreated
    ensures result.Some? ==> result.value == UpgradeItems(cs, allocatable.value, reqs, canDo, run)
    ensures result.Some? ==> OneItemEach(result.value, reqs)
    ensures Dispatched(log,
      if result.Some? then Passing(Admit(cs, allocatable.value, reqs).accepted, canDo) else [], waits)
    ensures forall u, v :: Edge(waits, u, v) <==> MustWait(ComponentIDs(reqs), rows, u, v)
    ensures var sd := Indexed(ComponentIDs(reqs), rows); waits == FoldAll(sd.AllLists(sd.Heads()))
    ensures (forall r :: r in rows ==> r.serviceID in ComponentIDs(reqs)) && Acyclic(GraphOf(rows)) ==>
      forall u, v :: Edge(waits, u, v) <==> Relation(u, v) in rows
    ensures PlainIds(rows) ==> forall i, v :: 0 <= i < |log| && Relation(log[i].request.componentID, v) in rows ==>
      (Contains(log[i].bootSequence, v) <==> Edge(waits, log[i].request.componentID, v))
  {
    var startup := ServiceStartupSequence(ComponentIDs(reqs), rows);
    waits := startup;
    result, log := Upgrade(reqs, startup, cs, allocatable, canDo, eventsCreated, run);
    forall i, v | PlainIds(rows) && 0 <= i < |log| && Relation(log[i].request.componentID, v) in rows
      ensures Contains(log[i].bootSequence, v) <==> Edge(waits, log[i].request.componentID, v)
    {
      BootSequenceIsRead(waits, rows, log[i].request.componentID, v);
    }
  }

  // ------------------------------------------------------ reading the boot sequence

  /** Service ids are non-empty, of one length, and free of commas, as generated ids are. */
  ghost predicate PlainIds(rows: seq<Relation>) {
    forall r, s :: r in rows && s in rows ==>
      && r.dependServiceID != "" && ',' !in r.dependServiceID
      && |r.dependServiceID| == |s.dependServiceID|
  }

  /** A dependency of a service, with its alias. */
  datatype Dependency = Dependency(id: string, alias: string)

  /** The aliases of the dependencies whose id the configuration mentions, in their order. */
  function Mentioned(deps: seq<Dependency>, boot: string): seq<string> {
    if deps == [] then []
    else
      var d := deps[|deps| - 1];
      Mentioned(deps[..|deps| - 1], boot) + (if boot != "" && Contains(boot, d.id) then [d.alias] else [])
  }

  /** The worker's STARTUP_SEQUENCE_DEPENDENCIES: a substring search per dependency. */
  method StartupDependencies(deps: seq<Dependency>, boot: string) returns (aliases: seq<string>)
    ensures aliases == Mentioned(deps, boot)
  {
    aliases := [];
    for i := 0 to |deps|
      invariant aliases == Mentioned(deps[..i], boot)
    {
      assert deps[..i + 1][..i] == deps[..i];
      if boot != "" && Contains(boot, deps[i].id) {
        aliases := aliases + [deps[i].alias];
      }
    }
    assert deps[..|deps|] == deps;
  }

  /** Without a configuration nothing is waited for, not even a dependency with an empty id. */
  lemma {:induction false} NothingConfigured(deps: seq<Dependency>)
    ensures Mentioned(deps, "") == []
  {
    if deps != [] {
      NothingConfigured(deps[..|deps| - 1]);
    }
  }

  /** The aliases of the dependencies that are waited for, in their order. */
  function WaitedFor(deps: seq<Dependency>, ids: seq<string>): seq<string> {
    if deps == [] then []
    else
      var d := deps[|deps| - 1];
      WaitedFor(deps[..|deps| - 1], ids) + (if d.id in ids then [d.alias] else [])
  }

  /**
   The substring search finds an id exactly when it is waited for, unless the
   id is part of a longer one that is.
   */
  lemma SearchExactly(ids: seq<string>, id: string)
    requires id != "" && ',' !in id
    ensures (Contains(Join(ids, ','), id) <==> id in ids) <==>
      (id in ids || forall k :: 0 <= k < |ids| ==> !Contains(ids[k], id))
  {
    ContainsJoin(ids, ',', id);
    ContainsItself(id);
  }

  /** Waiting for "ab" only, a dependency "a" is waited for as well. */
  lemma SearchExample()
    ensures Mentioned([Dependency("a", "x"), Dependency("ab", "y")], Join(["ab"], ',')) == ["x", "y"]
  {
    var deps := [Dependency("a", "x"), Dependency("ab", "y")];
    assert deps[..1] == [Dependency("a", "x")];
    assert Occurs("ab", "a", 0);
    ContainsItself("ab");
    assert Mentioned(deps[..1], "ab") == ["x"];
  }

  /** Ids of the same length are told apart. */
  lemma PlainSearch(ids: seq<string>, id: string)
    requires id != "" && ',' !in id && forall k :: 0 <= k < |ids| ==> |ids[k]| == |id|
    ensures Contains(Join(ids, ','), id) <==> id in ids
  {
    SearchExactly(ids, id);
    forall k | 0 <= k < |ids|
      ensures Contains(ids[k], id) <==> ids[k] == id
    {
      SameLengthContains(ids[k], id);
    }
  }

  lemma BootSequenceIsRead(waits: map<string, seq<string>>, rows: seq<Relation>, u: string, v: string)
    requires PlainIds(rows) && Relation(u, v) in rows
    requires forall x, y :: Edge(waits, x, y) ==> Relation(x, y) in rows
    ensures Contains(BootSequence(waits, u), v) <==> Edge(waits, u, v)
  {
    var ids := WaitList(waits, u);
    forall k | 0 <= k < |ids|
      ensures |ids[k]| == |v|
    {
      assert Edge(waits, u, ids[k]);
      assert Relation(u, ids[k]).dependServiceID == ids[k] && Relation(u, v).dependServiceID == v;
    }
    assert Relation(u, v).dependServiceID == v;
    PlainSearch(ids, v);
  }

  /** The configuration holds the wait list: splitting it at the commas gives it back, in order. */
  lemma BootSequenceHolds(waits: map<string, seq<string>>, id: string)
    requires id in waits && waits[id] != [] && Plain(waits[id], ',')
    ensures Split(BootSequence(waits, id), ',') == waits[id]
  {
    JoinSplit(waits[id], ',');
  }

  /** From the wait map to the worker: a service starts after exactly the dependencies it waits for. */
  lemma {:induction false} WorkerWaits(waits: map<string, seq<string>>, rows: seq<Relation>, u: string,
                                       deps: seq<Dependency>)
    requires PlainIds(rows) && forall i :: 0 <= i < |deps| ==> Relation(u, deps[i].id) in rows
    requires forall x, y :: Edge(waits, x, y) ==> Relation(x, y) in rows
    ensures Mentioned(deps, BootSequence(waits, u)) == WaitedFor(deps, WaitList(waits, u))
  {
    if deps != [] {
      var n := |deps| - 1;
      WorkerWaits(waits, rows, u, deps[..n]);
      BootSequenceIsRead(waits, rows, u, deps[n].id);
      assert Relation(u, deps[n].id).dependServiceID == deps[n].id;
      if BootSequence(waits, u) == "" {
        assert !Contains("", deps[n].id);
      }
    }
  }

  /** Build and Start: the event check looks at the whole batch, but what passed the memory check is dispatched. */
  method BuildOrStart(reqs: seq<Request>, waits: map<string, seq<string>>, cs: Components, allocatable: Option<int>,
                      canDo: string -> bool, eventsCreated: bool, run: Request -> Option<string>)
      returns (result: Option<seq<Item>>, log: seq<Dispatch>)
    ensures result.Some? <==> allocatable.Some? && eventsCreated
    ensures result.Some? ==>
      var a := Admit(cs, allocatable.value, reqs);
      result.value == a.items + Pending(reqs, canDo) + Answers(a.accepted, run)
    ensures Dispatched(log, if result.Some? then Admit(cs, allocatable.value, reqs).accepted else [], waits)
    ensures result.Some? ==>
      (OneItemEach(result.value, reqs) <==> forall i :: 0 <= i < |reqs| ==> canDo(reqs[i].componentID))
  {
    if allocatable.None? {
      return None, [];
    }
    var am := new AllocMemory(cs, allocatable.value, reqs);
    var items, accepted := am.batchOpResult, am.batchOpRequests;
    var _, items2 := CheckEvents(reqs, canDo);
    if !eventsCreated {
      return None, [];
    }
    var more;
    more, log := DispatchAll(accepted, waits, run);
    forall c, e
      ensures ItemCount(items + items2 + more, c, e) == RequestCount(reqs, c, e) + ItemCount(items2, c, e)
    {
      AdmissionCount(cs, allocatable.value, reqs, c, e);
      DispatchCount(accepted, run, c, e);
      BatchCount(items, items2, more, c, e);
    }
    ExtraItems(items + items2 + more, reqs, canDo);
    result := Some(items + items2 + more);
  }

  /** The whole build or start call, with the startup order computed from the relation rows. */
  method BuildOrStartBatch(reqs: seq<Request>, rows: seq<Relation>, cs: Components, allocatable: Option<int>,
                           canDo: string -> bool, eventsCreated: bool, run: Request -> Option<string>)
      returns (result: Option<seq<Item>>, log: seq<Dispatch>, ghost waits: map<string, seq<string>>)
    ensures result.Some? <==> allocatable.Some? && eventsCreated
    ensures result.Some? ==>
      var a := Admit(cs, allocatable.value, reqs);
      result.value == a.items + Pending(reqs, canDo) + Answers(a.accepted, run)
    ensures Dispatched(log, if result.Some? then Admit(cs, allocatable.value, reqs).accepted else [], waits)
    ensures forall u, v :: Edge(waits, u, v) <==> MustWait(ComponentIDs(reqs), rows, u, v)
    ensures var sd := Indexed(ComponentIDs(reqs), rows); waits == FoldAll(sd.AllLists(sd.Heads()))
  {
    var startup := ServiceStartupSequence(ComponentIDs(reqs), rows);
    waits := startup;
    result, log := BuildOrStart(reqs, startup, cs, allocatable, canDo, eventsCreated, run);
  }

  /** Items on top of one each are the refusals of the event check. */
  lemma ExtraItems(all: seq<Item>, reqs: seq<Request>, canDo: string -> bool)
    requires forall c, e ::
      ItemCount(all, c, e) == RequestCount(reqs, c, e) + ItemCount(Pending(reqs, canDo), c, e)
    ensures OneItemEach(all, reqs) <==> forall i :: 0 <= i < |reqs| ==> canDo(reqs[i].componentID)
  {
    PendingEmpty(reqs, canDo);
    var p := Pending(reqs, canDo);
    if p != [] {
      var last := p[|p| - 1];
      assert ItemCount(p, last.componentID, last.eventID) > 0;
      assert ItemCount(all, last.componentID, last.eventID) != RequestCount(reqs, last.componentID, last.eventID);
    }
  }

  lemma {:induction false} PendingEmpty(reqs: seq<Request>, canDo: string -> bool)
    ensures Pending(reqs, canDo) == [] <==> forall i :: 0 <= i < |reqs| ==> canDo(reqs[i].componentID)
  {
    if reqs != [] {
      var n := |reqs| - 1;
      var rest := reqs[..n];
      PendingEmpty(rest, canDo);
      assert forall i :: 0 <= i < n ==> rest[i] == reqs[i];
    }
  }

  /** The handlers ask for a synchronous event, which CanDoEvent never refuses: the event check drops nobody. */
  lemma SyncEventsPass(reqs: seq<Request>, canDo: string -> bool, last: string -> LastEvent)
    requires forall i :: 0 <= i < |reqs| ==>
      canDo(reqs[i].componentID) == MayRun(1, "", last(reqs[i].componentID))
    ensures Passing(reqs, canDo) == reqs && Pending(reqs, canDo) == []
  {
    PendingEmpty(reqs, canDo);
    AllPass(reqs, canDo);
  }

  lemma {:induction false} AllPass(reqs: seq<Request>, canDo: string -> bool)
    requires forall i :: 0 <= i < |reqs| ==> canDo(reqs[i].componentID)
    ensures Passing(reqs, canDo) == reqs
  {
    if reqs != [] {
      var n := |reqs| - 1;
      var rest := reqs[..n];
      assert canDo(reqs[n].componentID);
      assert reqs == rest + [reqs[n]];
      AllPass(rest, canDo);
    }
  }
}
