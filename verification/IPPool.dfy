/**
 The host ip pool: each poll compares the interface addresses with the last
 ones and emits events. A consumer that replays the events from the start has
 the pool's address set after every poll.
 */
module IPPool {
  import opened Wrappers
  import opened MapOrder

  /** The four bytes of an IPv4 address. */
  type Quad = seq<int>

  /** An interface address: a net.IP, of 4 or 16 bytes. */
  datatype IP = IP(bytes: seq<int>) {
    /** net.IP.To4: the IPv4 address, also out of its 16-byte form. */
    function To4(): Option<Quad> {
      if |bytes| == 4 then Some(bytes)
      else if |bytes| == 16 && (forall i :: 0 <= i < 10 ==> bytes[i] == 0) && bytes[10] == 255 && bytes[11] == 255
      then Some(bytes[12..16])
      else None
    }
  }

  /** Exactly the 4-byte addresses and the 16-byte forms of them count. */
  lemma To4Exactly(ip: IP, q: Quad)
    ensures ip.To4() == Some(q) <==>
      |q| == 4 && (ip.bytes == q || ip.bytes == [0, 0, 0, 0, 0, 0, 0, 0, 0, 0, 255, 255] + q)
  {
    var prefix := [0, 0, 0, 0, 0, 0, 0, 0, 0, 0, 255, 255];
    if |ip.bytes| == 16 {
      assert ip.bytes == ip.bytes[..12] + ip.bytes[12..16];
      if ip.To4() == Some(q) {
        assert ip.bytes[..12] == prefix;
      }
      if |q| == 4 && ip.bytes == prefix + q {
        assert ip.bytes[12..16] == q;
      }
    }
  }

  /** A poll keeps exactly the listed IPv4 addresses, by their printed form. */
  lemma {:induction false} SnapshotExactly(ips: seq<IP>, text: Quad -> string, k: string)
    ensures k in Snapshot(ips, text) <==>
      exists i :: 0 <= i < |ips| && ips[i].To4().Some? && text(ips[i].To4().value) == k
  {
    if ips != [] {
      SnapshotExactly(ips[..|ips| - 1], text, k);
    }
  }

  datatype Kind = ADD | DEL | UPDATE

  datatype Event = Event(kind: Kind, ip: Quad)

  type Addresses = map<string, Quad>

  /** What a consumer makes of one event; text is the printed form of an address. */
  function Consume(m: Addresses, e: Event, text: Quad -> string): Addresses {
    if e.kind == DEL then m - {text(e.ip)} else m[text(e.ip) := e.ip]
  }

  function Replay(m: Addresses, es: seq<Event>, text: Quad -> string): Addresses {
    if es == [] then m else Consume(Replay(m, es[..|es| - 1], text), es[|es| - 1], text)
  }

  /** The IPv4 addresses of a listing. */
  function Snapshot(ips: seq<IP>, text: Quad -> string): Addresses {
    if ips == [] then map[]
    else
      var rest := Snapshot(ips[..|ips| - 1], text);
      match ips[|ips| - 1].To4() case None => rest case Some(q) => rest[text(q) := q]
  }

  lemma {:induction false} ReplayAppend(m: Addresses, a: seq<Event>, b: seq<Event>, text: Quad -> string)
    ensures Replay(m, a + b, text) == Replay(Replay(m, a, text), b, text)
  {
    if b == [] {
      assert a + b == a;
    } else {
      ReplayAppend(m, a, b[..|b| - 1], text);
      assert (a + b)[..|a + b| - 1] == a + b[..|b| - 1];
    }
  }

  /** The event says what happened to its address. */
  ghost predicate Tells(e: Event, was: Addresses, now: Addresses, text: Quad -> string) {
    match e.kind
    case ADD => text(e.ip) !in was && text(e.ip) in now
    case UPDATE => text(e.ip) in was && text(e.ip) in now
    case DEL => text(e.ip) in was && text(e.ip) !in now
  }

  ghost predicate Truthful(es: seq<Event>, was: Addresses, now: Addresses, text: Quad -> string) {
    forall i :: 0 <= i < |es| ==> Tells(es[i], was, now, text)
  }

  // -------------------------------------------------------------- the events of a poll

  /** ADD or UPDATE for every listed IPv4 address. */
  function Announcements(ips: seq<IP>, was: Addresses, text: Quad -> string): seq<Event> {
    if ips == [] then []
    else
      var rest := Announcements(ips[..|ips| - 1], was, text);
      match ips[|ips| - 1].To4()
      case None => rest
      case Some(q) => rest + [Event(if text(q) in was then UPDATE else ADD, q)]
  }

  /** DEL for every old address, in the given order, that is gone. */
  function Deletions(order: seq<string>, was: Addresses, now: Addresses): seq<Event>
    requires forall i :: 0 <= i < |order| ==> order[i] in was
  {
    if order == [] then []
    else
      var n := |order| - 1;
      Deletions(order[..n], was, now) + (if order[n] in now then [] else [Event(DEL, was[order[n]])])
  }

  lemma ReplayOne(m: Addresses, es: seq<Event>, e: Event, text: Quad -> string)
    ensures Replay(m, es + [e], text) == Consume(Replay(m, es, text), e, text)
  {
    assert (es + [e])[..|es|] == es;
  }

  ghost predicate Printed(m: Addresses, text: Quad -> string) {
    forall k :: k in m ==> text(m[k]) == k
  }

  lemma {:induction false} SnapshotPrinted(ips: seq<IP>, text: Quad -> string)
    ensures Printed(Snapshot(ips, text), text)
  {
    if ips != [] {
      SnapshotPrinted(ips[..|ips| - 1], text);
    }
  }

  lemma UpdateUnion(a: Addresses, b: Addresses, k: string, q: Quad)
    ensures (a + b)[k := q] == a + b[k := q]
  {
  }

  lemma RemoveMore(m: Addresses, a: set<string>, k: string)
    ensures m - a - {k} == m - (a + {k})
  {
  }

  /** The visited names that the new addresses lack. */
  ghost function Lacking(order: seq<string>, now: Addresses): set<string> {
    set k | k in order && k !in now
  }

  lemma LackingStep(order: seq<string>, now: Addresses)
    requires order != []
    ensures var n := |order| - 1;
      Lacking(order, now) == Lacking(order[..n], now) + (if order[n] in now then {} else {order[n]})
  {
    var n := |order| - 1;
    assert order == order[..n] + [order[n]];
  }

  /** Replaying the announcements adds what is listed. */
  lemma {:induction false} AnnouncementsReplay(ips: seq<IP>, was: Addresses, text: Quad -> string)
    ensures Replay(was, Announcements(ips, was, text), text) == was + Snapshot(ips, text)
  {
    if ips == [] {
      assert was + map[] == was;
    } else {
      var rest, v := ips[..|ips| - 1], ips[|ips| - 1].To4();
      AnnouncementsReplay(rest, was, text);
      if v.Some? {
        var e := Event(if text(v.value) in was then UPDATE else ADD, v.value);
        ReplayOne(was, Announcements(rest, was, text), e, text);
        UpdateUnion(was, Snapshot(rest, text), text(v.value), v.value);
      }
    }
  }

  lemma {:induction false} AnnouncementsTell(ips: seq<IP>, was: Addresses, text: Quad -> string, now: Addresses)
    requires forall k :: k in Snapshot(ips, text) ==> k in now
    ensures Truthful(Announcements(ips, was, text), was, now, text)
  {
    if ips != [] {
      AnnouncementsTell(ips[..|ips| - 1], was, text, now);
    }
  }

  /** Replaying the deletions removes the old addresses that were visited and are gone. */
  lemma {:induction false} DeletionsReplay(m: Addresses, order: seq<string>, was: Addresses, now: Addresses,
                                           text: Quad -> string)
    requires Printed(was, text) && forall i :: 0 <= i < |order| ==> order[i] in was
    ensures Replay(m, Deletions(order, was, now), text) == m - Lacking(order, now)
    ensures Truthful(Deletions(order, was, now), was, now, text)
  {
    if order != [] {
      var n := |order| - 1;
      DeletionsReplay(m, order[..n], was, now, text);
      LackingStep(order, now);
      if order[n] !in now {
        ReplayOne(m, Deletions(order[..n], was, now), Event(DEL, was[order[n]]), text);
        RemoveMore(m, Lacking(order[..n], now), order[n]);
      } else {
        assert Deletions(order, was, now) == Deletions(order[..n], was, now);
        assert Lacking(order, now) == Lacking(order[..n], now);
      }
    }
  }

  /** Replaying a whole poll turns the old addresses into the new ones. */
  lemma PollReplays(was: Addresses, ips: seq<IP>, order: seq<string>, text: Quad -> string)
    requires Printed(was, text) && IsOrder(order, was.Keys)
    ensures var now := Snapshot(ips, text);
      var sent := Announcements(ips, was, text) + Deletions(order, was, now);
      Replay(was, sent, text) == now && Truthful(sent, was, now, text)
  {
    var now := Snapshot(ips, text);
    var a, d := Announcements(ips, was, text), Deletions(order, was, now);
    AnnouncementsReplay(ips, was, text);
    AnnouncementsTell(ips, was, text, now);
    DeletionsReplay(was + now, order, was, now, text);
    ReplayAppend(was, a, d, text);
    OnlyNew(was, now, order);
  }

  lemma OnlyNew(was: Addresses, now: Addresses, order: seq<string>)
    requires IsOrder(order, was.Keys)
    ensures (was + now) - Lacking(order, now) == now
  {
  }

  /** The addresses of the last listing that succeeded. */
  function Current(listings: seq<Option<seq<IP>>>, first: Addresses, text: Quad -> string): Addresses {
    if listings == [] then first
    else
      match listings[|listings| - 1]
      case None => Current(listings[..|listings| - 1], first, text)
      case Some(ips) => Snapshot(ips, text)
  }

  function Joined(polls: seq<seq<Event>>): seq<Event> {
    if polls == [] then [] else Joined(polls[..|polls| - 1]) + polls[|polls| - 1]
  }

  /**
   What a poll sends: ADD or UPDATE for every listed IPv4 address in turn, then
   DEL for every old address that is gone, in some order; nothing if it fails.
   */
  ghost predicate Sends(sent: seq<Event>, was: Addresses, listing: Option<seq<IP>>, text: Quad -> string) {
    match listing
    case None => sent == []
    case Some(ips) => exists order :: SendsInOrder(sent, was, ips, order, text)
  }

  ghost predicate SendsInOrder(sent: seq<Event>, was: Addresses, ips: seq<IP>, order: seq<string>, text: Quad -> string) {
    IsOrder(order, was.Keys) && sent == Announcements(ips, was, text) + Deletions(order, was, Snapshot(ips, text))
  }

  /** Every poll sends what it should, and each event is true of the addresses before and after its poll. */
  ghost predicate TruthfulPolls(polls: seq<seq<Event>>, listings: seq<Option<seq<IP>>>, first: Addresses,
                                text: Quad -> string)
  {
    |polls| == |listings| && (listings != [] ==>
      var n := |listings| - 1;
      && TruthfulPolls(polls[..n], listings[..n], first, text)
      && Truthful(polls[n], Current(listings[..n], first, text), Current(listings, first, text), text)
      && Sends(polls[n], Current(listings[..n], first, text), listings[n], text))
  }

  class Pool {
    var hostIPs: Addresses
    var eventCh: seq<Event>     // everything sent so far

    constructor ()
      ensures hostIPs == map[] && eventCh == []
    {
      hostIPs, eventCh := map[], [];
    }

    /** Replaying everything sent gives the pool's addresses. */
    ghost predicate InStep(text: Quad -> string)
      reads this
    {
      Replay(map[], eventCh, text) == hostIPs && Printed(hostIPs, text)
    }

    /** One poll; None is a failure to list the interfaces. */
    method Poll(ips: Option<seq<IP>>, text: Quad -> string) returns (ghost sent: seq<Event>)
      requires InStep(text)
      modifies this
      ensures InStep(text) && eventCh == old(eventCh) + sent
      ensures hostIPs == if ips.Some? then Snapshot(ips.value, text) else old(hostIPs)
      ensures Sends(sent, old(hostIPs), ips, text)
      ensures Truthful(sent, old(hostIPs), hostIPs, text)
    {
      if ips.None? {
        return [];
      }
      ghost var start := eventCh;
      var newIP := Announce(ips.value, text);
      ghost var order := Retire(newIP);
      sent := Announcements(ips.value, hostIPs, text) + Deletions(order, hostIPs, newIP);
      assert eventCh == start + sent;
      assert SendsInOrder(sent, hostIPs, ips.value, order, text);
      PollReplays(hostIPs, ips.value, order, text);
      ReplayAppend(map[], start, sent, text);
      SnapshotPrinted(ips.value, text);
      hostIPs := newIP;
    }

    /** LoopCheckIPs: any number of polls, each with what the interfaces answered. */
    method LoopCheckIPs(listings: seq<Option<seq<IP>>>, text: Quad -> string) returns (ghost polls: seq<seq<Event>>)
      requires InStep(text)
      modifies this
      ensures InStep(text) && hostIPs == Current(listings, old(hostIPs), text)
      ensures eventCh == old(eventCh) + Joined(polls) && TruthfulPolls(polls, listings, old(hostIPs), text)
    {
      polls := [];
      ghost var first, start := hostIPs, eventCh;
      for i := 0 to |listings|
        invariant InStep(text) && hostIPs == Current(listings[..i], first, text)
        invariant eventCh == start + Joined(polls) && TruthfulPolls(polls, listings[..i], first, text)
      {
        CurrentStep(listings, first, i, text);
        ghost var sent := Poll(listings[i], text);
        PollsGrow(polls, listings, first, i, sent, text);
        JoinedGrows(start, polls, sent);
        polls := polls + [sent];
      }
      assert listings[..|listings|] == listings;
    }

    /** The loop over the listed addresses. */
    method Announce(ips: seq<IP>, text: Quad -> string) returns (newIP: Addresses)
      modifies this`eventCh
      ensures newIP == Snapshot(ips, text) && eventCh == old(eventCh) + Announcements(ips, hostIPs, text)
    {
      newIP := map[];
      for i := 0 to |ips|
        invariant newIP == Snapshot(ips[..i], text)
        invariant eventCh == old(eventCh) + Announcements(ips[..i], hostIPs, text)
      {
        assert ips[..i + 1][..i] == ips[..i];
        var v := ips[i].To4();
        if v.None? {
          continue;
        }
        var known := text(v.value) in hostIPs;
        if known {
          eventCh := eventCh + [Event(UPDATE, v.value)];
        }
        if !known {
          eventCh := eventCh + [Event(ADD, v.value)];
        }
        newIP := newIP[text(v.value) := v.value];
      }
      assert ips[..|ips|] == ips;
    }

    /** The loop over the old addresses, in map order. */
    method Retire(newIP: Addresses) returns (ghost visited: seq<string>)
      modifies this`eventCh
      ensures IsOrder(visited, hostIPs.Keys) && eventCh == old(eventCh) + Deletions(visited, hostIPs, newIP)
    {
      var order := SomeOrder(hostIPs.Keys);
      for i := 0 to |order|
        invariant eventCh == old(eventCh) + Deletions(order[..i], hostIPs, newIP)
      {
        assert order[..i + 1][..i] == order[..i];
        if order[i] !in newIP {
          eventCh := eventCh + [Event(DEL, hostIPs[order[i]])];
        }
      }
      assert order[..|order|] == order;
      visited := order;
    }
  }

  lemma CurrentStep(listings: seq<Option<seq<IP>>>, first: Addresses, i: nat, text: Quad -> string)
    requires i < |listings|
    ensures Current(listings[..i + 1], first, text) ==
      if listings[i].Some? then Snapshot(listings[i].value, text) else Current(listings[..i], first, text)
  {
    assert listings[..i + 1][..i] == listings[..i];
  }

  lemma JoinedGrows(start: seq<Event>, polls: seq<seq<Event>>, sent: seq<Event>)
    ensures start + Joined(polls + [sent]) == start + Joined(polls) + sent
  {
    assert (polls + [sent])[..|polls|] == polls;
  }

  /** One more poll. */
  lemma PollsGrow(polls: seq<seq<Event>>, listings: seq<Option<seq<IP>>>, first: Addresses, i: nat,
                  sent: seq<Event>, text: Quad -> string)
    requires i < |listings| && TruthfulPolls(polls, listings[..i], first, text)
    requires Truthful(sent, Current(listings[..i], first, text), Current(listings[..i + 1], first, text), text)
    requires Sends(sent, Current(listings[..i], first, text), listings[i], text)
    ensures TruthfulPolls(polls + [sent], listings[..i + 1], first, text)
  {
    assert (polls + [sent])[..i] == polls;
    assert listings[..i + 1][..i] == listings[..i];
  }
}
