/**
 Discovery over one key per server (discover.v2): the cache replicates the
 etcd store through listings and watch events, and the callback is told. A run
 is a sequence of steps: events that the watch delivers, changes that happen
 while nobody watches, and the restarts that list the store again.
 */
module DiscoverReplication {
  import opened Wrappers
  import opened EndpointCache
  import opened MapOrder
  import opened Text

  // --------------------------------------------------------------------- key names

  /** The server a key is about. */
  function ServerName(key: string): Option<string> {
    var k := Split(key, '/');
    if |k| > 2 then Some(k[|k| - 1]) else None
  }

  /** A server registered under a project prefix is recognised by its name. */
  lemma RegisteredName(root: string, project: string, name: string)
    requires '/' !in project && '/' !in name
    ensures ServerName(root + "/" + project + "/" + name) == Some(name)
  {
    SplitAppend(root, '/', project);
    SplitAppend(root + "/" + project, '/', name);
  }

  /** n follows the last of at least two slashes. */
  ghost predicate EndsIn(key: string, prefix: string, n: string) {
    key == prefix + "/" + n && '/' in prefix && '/' !in n
  }

  /** Exactly the keys with two slashes name a server, and the name follows the last one. */
  lemma ServerNameExactly(key: string, n: string)
    ensures ServerName(key) == Some(n) <==> exists prefix :: EndsIn(key, prefix, n)
  {
    if prefix :| EndsIn(key, prefix, n) {
      SplitAppend(prefix, '/', n);
      PartsExactly(prefix, '/');
    }
    if ServerName(key) == Some(n) {
      SplitJoin(key, '/');
      var k := Split(key, '/');
      var prefix := Join(k[..|k| - 1], '/');
      JoinSplit(k[..|k| - 1], '/');
      PartsExactly(prefix, '/');
      assert EndsIn(key, prefix, n);
    }
  }

  // ------------------------------------------------------------------ store and events

  type Store = map<string, string>

  datatype Event = Put(key: string, value: string, version: nat) | Del(key: string)

  function Changed(st: Store, ev: Event): Store {
    match ev
    case Put(key, value, _) => st[key := value]
    case Del(key) => st - {key}
  }

  /** etcd numbers the versions of a key from 1 at its creation. */
  predicate Versioned(st: Store, ev: Event) {
    ev.Put? ==> (ev.version == 1 <==> ev.key !in st)
  }

  /** What the watch loop does with one event. */
  function Deliver(v: View, ev: Event): View {
    match ServerName(ev.key)
    case None => v
    case Some(name) =>
      match ev
      case Del(_) => Apply(v, DELETE, Update(name, Value("", 0), 0))
      case Put(_, value, version) => Apply(v, if version == 1 then ADD else UPDATE, Update(name, Value(value, 0), 0))
  }

  method HandleEvent(cache: Cache, ev: Event) returns (published: Option<seq<Endpoint>>)
    requires cache.Valid()
    modifies cache, cache.endpoints.Values
    ensures cache.Valid() && cache.GetView() == Deliver(old(cache.GetView()), ev)
    ensures forall o :: o in cache.endpoints.Values ==> o in old(cache.endpoints.Values) || fresh(o)
    ensures published.Some? <==> ServerName(ev.key).Some?
    ensures published.Some? ==> Publishes(published.value, cache.GetView())
  {
    var name := ServerName(ev.key);
    if name.None? {
      return None;
    }
    var end := new Endpoint(name.value, if ev.Put? then ev.value else "", 0, 0);
    var op := if ev.Del? then DELETE else if ev.version == 1 then ADD else UPDATE;
    ghost var us := [end.AsUpdate()];
    ghost var before := cache.GetView();
    assert ApplyAll(before, op, us) == Apply(before, op, us[0]) by {
      assert us[..0] == [];
    }
    var re := cache.UpdateEndpoints(op, [end], us);
    published := Some(re);
  }

  /** A later version or a deletion of a server that is not cached changes nothing. */
  lemma UnknownServer(v: View, ev: Event)
    requires ServerName(ev.key).Some? && ServerName(ev.key).value !in v && (ev.Put? ==> ev.version != 1)
    ensures Deliver(v, ev) == v
  {
  }

  // ----------------------------------------------------------------------- snapshot

  /** The last value listed for every server. */
  function Latest(kvs: seq<(string, string)>): map<string, string> {
    if kvs == [] then map[]
    else
      var rest := Latest(kvs[..|kvs| - 1]);
      var (key, value) := kvs[|kvs| - 1];
      if ServerName(key).Some? then rest[ServerName(key).value := value] else rest
  }

  /** Updates with different names that set these URLs. */
  ghost predicate SetsUrls(us: seq<Update>, urls: map<string, string>) {
    && (forall i, j :: 0 <= i < j < |us| ==> us[i].name != us[j].name)
    && (forall i :: 0 <= i < |us| ==>
          us[i].mode == 0 && us[i].name in urls && us[i].value == Value(urls[us[i].name], 0))
    && (forall n :: n in urls ==> Named(us, n))
  }

  ghost predicate Named(us: seq<Update>, n: string) {
    exists i :: 0 <= i < |us| && us[i].name == n
  }

  lemma NamedAppend(us: seq<Update>, u: Update, n: string)
    ensures Named(us + [u], n) <==> Named(us, n) || u.name == n
  {
    var all := us + [u];
    assert all[|us|] == u;
    if i :| 0 <= i < |us| && us[i].name == n {
      assert all[i].name == n;
    }
  }

  /** The endpoints indexed so far: one object per server. */
  ghost predicate Indexed(ends: map<string, Endpoint>, urls: map<string, string>)
    reads ends.Values
  {
    && ends.Keys == urls.Keys
    && forall n :: n in ends ==> ends[n].AsUpdate() == Update(n, Value(urls[n], 0), 0)
  }

  method IndexKvs(kvs: seq<(string, string)>) returns (ends: map<string, Endpoint>)
    ensures (forall n :: n in ends ==> fresh(ends[n])) && Indexed(ends, Latest(kvs))
  {
    ends := map[];
    for i := 0 to |kvs|
      invariant forall n :: n in ends ==> fresh(ends[n])
      invariant Indexed(ends, Latest(kvs[..i]))
    {
      assert kvs[..i + 1][..i] == kvs[..i];
      var (key, value) := kvs[i];
      var name := ServerName(key);
      if name.Some? {
        if name.value in ends {
          var en := ends[name.value];
          en.url := value;
        } else {
          var en := new Endpoint(name.value, value, 0, 0);
          ends := ends[name.value := en];
        }
      }
    }
    assert kvs[..|kvs|] == kvs;
  }

  /** makeEndpointForKvs: one endpoint per server name, in the order of a map. */
  method MakeEndpoints(kvs: seq<(string, string)>) returns (res: seq<Endpoint>, ghost us: seq<Update>)
    ensures (forall i :: 0 <= i < |res| ==> fresh(res[i])) && Incoming(res, us) && SetsUrls(us, Latest(kvs))
  {
    var ends := IndexKvs(kvs);
    ghost var urls := Latest(kvs);
    var order := SomeOrder(ends.Keys);
    res := [];
    for i := 0 to |order|
      invariant |res| == i && forall k :: 0 <= k < i ==> res[k] == ends[order[k]]
    {
      res := res + [ends[order[i]]];
    }
    us := UpdatesFor(order, urls);
    OrderedUpdates(order, urls);
    forall i | 0 <= i < |res|
      ensures us[i] == res[i].AsUpdate()
    {
    }
  }

  ghost function UpdatesFor(order: seq<string>, urls: map<string, string>): seq<Update>
    requires IsOrder(order, urls.Keys)
  {
    seq(|order|, i requires 0 <= i < |order| => Update(order[i], Value(urls[order[i]], 0), 0))
  }

  lemma OrderedUpdates(order: seq<string>, urls: map<string, string>)
    requires IsOrder(order, urls.Keys)
    ensures SetsUrls(UpdatesFor(order, urls), urls)
  {
    var us := UpdatesFor(order, urls);
    forall n | n in urls
      ensures Named(us, n)
    {
      var i :| 0 <= i < |order| && order[i] == n;
      assert us[i].name == n;
    }
  }

  /** The listed URLs are set, and nothing else is touched. */
  ghost function Synced(v: View, urls: map<string, string>): View {
    map n | n in v.Keys + urls.Keys ::
      Value(if n in urls then urls[n] else v[n].url, if n in v then v[n].weight else 0)
  }

  /** That is what a SYNC does, whatever its order. */
  lemma SyncSets(v: View, us: seq<Update>, urls: map<string, string>)
    requires SetsUrls(us, urls)
    ensures ApplyAll(v, SYNC, us) == Synced(v, urls)
  {
    var w := ApplyAll(v, SYNC, us);
    forall n
      ensures n in w <==> n in Synced(v, urls)
      ensures n in w ==> w[n] == Synced(v, urls)[n]
    {
      SyncPart(v, us, urls, |us|, n);
      assert us[..|us|] == us;
    }
  }

  lemma SyncOne(v: View, u: Update, n: string)
    requires u.mode == 0
    ensures var w := Apply(v, SYNC, u);
      && (n in w <==> n in v || n == u.name)
      && (n in w && n != u.name ==> w[n] == v[n])
      && (n == u.name ==> w[n] == Value(u.value.url, if n in v then v[n].weight else u.value.weight))
  {
  }

  /** What a SYNC has done to one server after some of its updates. */
  ghost predicate SyncedAt(v: View, us: seq<Update>, urls: map<string, string>, w: View, n: string) {
    && (Named(us, n) ==> n in urls)
    && (n in w <==> n in v || Named(us, n))
    && (n in w ==> w[n] == Value(if Named(us, n) then urls[n] else v[n].url, if n in v then v[n].weight else 0))
  }

  lemma SyncStep(v: View, us: seq<Update>, u: Update, urls: map<string, string>, w: View, n: string)
    requires SyncedAt(v, us, urls, w, n) && !Named(us, u.name)
    requires u.mode == 0 && u.name in urls && u.value == Value(urls[u.name], 0)
    ensures SyncedAt(v, us + [u], urls, Apply(w, SYNC, u), n)
  {
    NamedAppend(us, u, n);
    SyncOne(w, u, n);
  }

  lemma {:induction false} SyncPart(v: View, us: seq<Update>, urls: map<string, string>, k: nat, n: string)
    requires SetsUrls(us, urls) && k <= |us|
    ensures SyncedAt(v, us[..k], urls, ApplyAll(v, SYNC, us[..k]), n)
  {
    if k > 0 {
      SyncPart(v, us, urls, k - 1, n);
      ApplyAllStep(v, SYNC, us, k - 1);
      var init, u := us[..k - 1], us[k - 1];
      assert us[..k] == init + [u];
      NewName(us, urls, k - 1);
      SyncStep(v, init, u, urls, ApplyAll(v, SYNC, init), n);
    }
  }

  lemma NewName(us: seq<Update>, urls: map<string, string>, k: nat)
    requires SetsUrls(us, urls) && k < |us|
    ensures !Named(us[..k], us[k].name)
    ensures us[k].mode == 0 && us[k].name in urls && us[k].value == Value(urls[us[k].name], 0)
  {
  }

  // -------------------------------------------------------------------- replication

  /** Different keys are about different servers. */
  ghost predicate DistinctNames(keys: set<string>) {
    forall a, b :: a in keys && b in keys && ServerName(a).Some? && ServerName(a) == ServerName(b) ==> a == b
  }

  ghost predicate About(st: Store, key: string, n: string) {
    key in st && ServerName(key) == Some(n)
  }

  /** The cache holds the URL of every stored server, and no other URL. */
  ghost predicate Replicates(st: Store, v: View) {
    && (forall k, n :: About(st, k, n) ==> n in v && v[n].url == st[k])
    && (forall n :: n in v && v[n].url != "" ==> exists k :: About(st, k, n))
    && (forall n :: n in v ==> v[n].weight == 0)
  }

  /** The published endpoints are exactly the stored servers with a non-empty URL. */
  ghost predicate PublishesStore(st: Store, v: View) {
    forall n, url :: Shown(v, n, url) <==> Stored(st, n, url)
  }

  ghost predicate Shown(v: View, n: string, url: string) {
    url != "" && n in v && v[n].url == url
  }

  ghost predicate Stored(st: Store, n: string, url: string) {
    url != "" && exists k :: About(st, k, n) && st[k] == url
  }

  lemma ReplicaPublishes(st: Store, v: View)
    requires Replicates(st, v)
    ensures PublishesStore(st, v)
  {
  }

  /** No server is cached with a URL unless it is stored. */
  ghost predicate Tidy(st: Store, v: View) {
    && (forall n :: n in v && v[n].url != "" ==> exists k :: About(st, k, n))
    && (forall n :: n in v ==> v[n].weight == 0)
  }

  lemma EventKeepsTidy(st: Store, v: View, ev: Event)
    requires Tidy(st, v)
    ensures Tidy(Changed(st, ev), Deliver(v, ev))
  {
    var st', v' := Changed(st, ev), Deliver(v, ev);
    forall n | n in v' && v'[n].url != ""
      ensures exists k :: About(st', k, n)
    {
      if ServerName(ev.key) == Some(n) {
        assert About(st', ev.key, n);
      } else {
        var k :| About(st, k, n);
        assert About(st', k, n);
      }
    }
  }

  /** Every event keeps the replica exact. */
  lemma EventKeepsReplica(st: Store, v: View, ev: Event)
    requires Replicates(st, v) && Versioned(st, ev) && DistinctNames(st.Keys + {ev.key})
    ensures Replicates(Changed(st, ev), Deliver(v, ev))
  {
    var st', v' := Changed(st, ev), Deliver(v, ev);
    EventKeepsTidy(st, v, ev);
    forall k, n | About(st', k, n)
      ensures n in v' && v'[n].url == st'[k]
    {
      if k != ev.key {
        assert About(st, k, n);
      } else if k in st {
        assert About(st, k, n);
      }
    }
  }

  /** A listing of the store. */
  ghost predicate Lists(kvs: seq<(string, string)>, st: Store) {
    forall k, x :: (k, x) in kvs <==> k in st && st[k] == x
  }

  lemma {:induction false} LatestIn(kvs: seq<(string, string)>, n: string)
    ensures n in Latest(kvs) <==> exists i :: 0 <= i < |kvs| && ServerName(kvs[i].0) == Some(n)
    ensures n in Latest(kvs) ==> exists i :: 0 <= i < |kvs| && ServerName(kvs[i].0) == Some(n) && kvs[i].1 == Latest(kvs)[n]
  {
    if kvs != [] {
      LatestIn(kvs[..|kvs| - 1], n);
    }
  }

  /** Listing a store with distinct names gives the URL of every server. */
  lemma LatestOfStore(kvs: seq<(string, string)>, st: Store, n: string)
    requires Lists(kvs, st) && DistinctNames(st.Keys)
    ensures n in Latest(kvs) <==> exists k :: About(st, k, n)
    ensures forall k :: About(st, k, n) ==> n in Latest(kvs) && Latest(kvs)[n] == st[k]
  {
    LatestIn(kvs, n);
    forall k | About(st, k, n)
      ensures n in Latest(kvs) && Latest(kvs)[n] == st[k]
    {
      assert (k, st[k]) in kvs;
      var i :| 0 <= i < |kvs| && kvs[i] == (k, st[k]);
      assert ServerName(kvs[i].0) == Some(n);
      var j :| 0 <= j < |kvs| && ServerName(kvs[j].0) == Some(n) && kvs[j].1 == Latest(kvs)[n];
      assert kvs[j] in kvs && (kvs[j].0, kvs[j].1) == kvs[j];
    }
    if n in Latest(kvs) {
      var j :| 0 <= j < |kvs| && ServerName(kvs[j].0) == Some(n);
      assert kvs[j] in kvs && (kvs[j].0, kvs[j].1) == kvs[j];
      assert About(st, kvs[j].0, n);
    }
  }

  /** A SYNC into a tidy cache makes a replica. */
  lemma SyncMakesReplica(st: Store, v: View, kvs: seq<(string, string)>)
    requires Lists(kvs, st) && DistinctNames(st.Keys) && Tidy(st, v)
    ensures Replicates(st, Synced(v, Latest(kvs)))
  {
    forall n
      ensures n in Latest(kvs) <==> exists k :: About(st, k, n)
      ensures forall k :: About(st, k, n) ==> n in Latest(kvs) && Latest(kvs)[n] == st[k]
    {
      LatestOfStore(kvs, st, n);
    }
  }

  /** The first SYNC into an empty cache makes a replica. */
  lemma FirstSync(st: Store, kvs: seq<(string, string)>, us: seq<Update>)
    requires Lists(kvs, st) && DistinctNames(st.Keys) && SetsUrls(us, Latest(kvs))
    ensures Replicates(st, ApplyAll(map[], SYNC, us))
  {
    SyncSets(map[], us, Latest(kvs));
    SyncMakesReplica(st, map[], kvs);
  }

  /** A SYNC of the current store changes nothing in a replica. */
  lemma SyncIsIdle(st: Store, v: View, kvs: seq<(string, string)>, us: seq<Update>)
    requires Replicates(st, v) && Lists(kvs, st) && DistinctNames(st.Keys) && SetsUrls(us, Latest(kvs))
    ensures ApplyAll(v, SYNC, us) == v
  {
    SyncSets(v, us, Latest(kvs));
    var w := Synced(v, Latest(kvs));
    forall n
      ensures n in w <==> n in v
      ensures n in w ==> w[n] == v[n]
    {
      LatestOfStore(kvs, st, n);
      if n in Latest(kvs) {
        var k :| About(st, k, n);
      }
    }
  }

  /**
   After a gap in the events a SYNC repairs the published list exactly when no
   cached server with a URL has disappeared from the store: SYNC never removes.
   */
  lemma SyncRepairs(st: Store, v: View, kvs: seq<(string, string)>, us: seq<Update>)
    requires Lists(kvs, st) && DistinctNames(st.Keys) && SetsUrls(us, Latest(kvs))
    ensures PublishesStore(st, ApplyAll(v, SYNC, us)) <==>
      forall n :: n in v && v[n].url != "" ==> exists k :: About(st, k, n)
  {
    var w := ApplyAll(v, SYNC, us);
    forall n, url
      ensures Shown(w, n, url) <==> Stored(st, n, url) || Stale(st, v, n, url)
    {
      SyncShown(st, v, kvs, us, n, url);
    }
    if n :| n in v && v[n].url != "" && !exists k :: About(st, k, n) {
      assert Stale(st, v, n, v[n].url);
    }
  }

  /** n is cached with a URL but gone from the store. */
  ghost predicate Stale(st: Store, v: View, n: string, url: string) {
    Shown(v, n, url) && !exists k :: About(st, k, n)
  }

  lemma SyncShown(st: Store, v: View, kvs: seq<(string, string)>, us: seq<Update>, n: string, url: string)
    requires Lists(kvs, st) && DistinctNames(st.Keys) && SetsUrls(us, Latest(kvs))
    ensures Shown(ApplyAll(v, SYNC, us), n, url) <==> Stored(st, n, url) || Stale(st, v, n, url)
  {
    SyncSets(v, us, Latest(kvs));
    LatestOfStore(kvs, st, n);
  }

  /** Server a, deleted while nobody watched, stays published after a SYNC of the empty store. */
  lemma StaleEndpointExample()
    ensures var v := map["a" := Value("10.0.0.1:80", 0)]; !PublishesStore(map[], ApplyAll(v, SYNC, []))
  {
    var v := map["a" := Value("10.0.0.1:80", 0)];
    assert Shown(v, "a", "10.0.0.1:80");
    assert !Stored(map[], "a", "10.0.0.1:80");
  }

  // ----------------------------------------------------------------- what is published

  /** Names and URLs as the callback sees them. */
  function Pairs(re: seq<Endpoint>): seq<(string, string)>
    reads re
  {
    seq(|re|, i requires 0 <= i < |re| reads re => (re[i].name, re[i].url))
  }

  /** The entries are the cached servers with a URL, each once. */
  ghost predicate ListsView(entries: seq<(string, string)>, v: View) {
    NamedOnce(entries) && forall n, url :: (n, url) in entries <==> Shown(v, n, url)
  }

  /** The entries are the stored servers with a URL, each once. */
  ghost predicate ListsStore(entries: seq<(string, string)>, st: Store) {
    NamedOnce(entries) && forall n, url :: (n, url) in entries <==> Stored(st, n, url)
  }

  /** A published list shows the cache. */
  lemma PublishedList(re: seq<Endpoint>, v: View)
    requires Publishes(re, v)
    ensures ListsView(Pairs(re), v)
  {
    var entries := Pairs(re);
    forall n, url
      ensures (n, url) in entries <==> Shown(v, n, url)
    {
      if (n, url) in entries {
        var i :| 0 <= i < |entries| && entries[i] == (n, url);
        assert re[i] in re;
      }
      if Shown(v, n, url) {
        var e :| e in re && e.name == n;
        var i :| 0 <= i < |re| && re[i] == e;
        assert entries[i] == (n, url);
      }
    }
  }

  // --------------------------------------------------------------------------- runs

  datatype Step =
    | Watched(ev: Event)                                  // the watch delivers a change
    | Missed(ev: Event)                                   // a change between two watches
    | Restarted(listing: Option<seq<(string, string)>>)   // a watcher starts; None if listing fails

  function StoreAfter(st: Store, steps: seq<Step>): Store {
    if steps == [] then st
    else
      var now, step := StoreAfter(st, steps[..|steps| - 1]), steps[|steps| - 1];
      if step.Restarted? then now else Changed(now, step.ev)
  }

  ghost function ViewAfter(v: View, steps: seq<Step>): View {
    if steps == [] then v else Seen(ViewAfter(v, steps[..|steps| - 1]), steps[|steps| - 1])
  }

  ghost function Seen(v: View, step: Step): View {
    match step
    case Watched(ev) => Deliver(v, ev)
    case Missed(_) => v
    case Restarted(listing) => if listing.Some? then Synced(v, Latest(listing.value)) else v
  }

  /** The step calls the callback. */
  predicate Calls(step: Step) {
    match step
    case Watched(ev) => ServerName(ev.key).Some?
    case Missed(_) => false
    case Restarted(listing) => listing.Some? && Latest(listing.value) != map[]
  }

  /** Events carry the versions of the store, and listings show it. */
  ghost predicate Legal(st: Store, step: Step, keys: set<string>) {
    match step
    case Watched(ev) => ev.key in keys && Versioned(st, ev)
    case Missed(ev) => ev.key in keys
    case Restarted(listing) => listing.Some? ==> Lists(listing.value, st)
  }

  ghost predicate History(st: Store, steps: seq<Step>, keys: set<string>) {
    if steps == [] then st.Keys <= keys
    else
      var n := |steps| - 1;
      History(st, steps[..n], keys) && Legal(StoreAfter(st, steps[..n]), steps[n], keys)
  }

  /** The store was listed, and nothing was missed since. */
  predicate InSync(steps: seq<Step>) {
    if steps == [] then false
    else
      match steps[|steps| - 1]
      case Watched(_) => InSync(steps[..|steps| - 1])
      case Missed(_) => false
      case Restarted(listing) => listing.Some? || InSync(steps[..|steps| - 1])
  }

  /** Step k lists the store, and no later step is missed. */
  ghost predicate ListedAt(steps: seq<Step>, k: nat) {
    && k < |steps| && steps[k].Restarted? && steps[k].listing.Some?
    && forall j :: k < j < |steps| ==> !steps[j].Missed?
  }

  lemma {:induction false} InSyncExactly(steps: seq<Step>)
    ensures InSync(steps) <==> exists k: nat :: ListedAt(steps, k)
  {
    if steps != [] {
      var n := |steps| - 1;
      InSyncExactly(steps[..n]);
      if k: nat :| ListedAt(steps[..n], k) && !steps[n].Missed? {
        assert steps[k] == steps[..n][k];
        assert ListedAt(steps, k);
      }
      if k: nat :| ListedAt(steps, k) && k < n {
        assert ListedAt(steps[..n], k);
      }
      if steps[n].Restarted? && steps[n].listing.Some? {
        assert ListedAt(steps, n);
      }
    }
  }

  /** Creations and changes may have been missed, but no deletion. */
  predicate NoMissedDeletion(steps: seq<Step>) {
    forall i :: 0 <= i < |steps| && steps[i].Missed? ==> steps[i].ev.Put?
  }

  /** One step of a run in a tidy cache. */
  lemma StepReplicates(st: Store, v: View, step: Step, keys: set<string>)
    requires st.Keys <= keys && DistinctNames(keys) && Legal(st, step, keys) && Tidy(st, v)
    requires step.Missed? ==> step.ev.Put?
    ensures var st' := if step.Restarted? then st else Changed(st, step.ev);
      && st'.Keys <= keys && Tidy(st', Seen(v, step))
      && (step.Restarted? && step.listing.Some? ==> Replicates(st', Seen(v, step)))
      && (!step.Missed? && Replicates(st, v) ==> Replicates(st', Seen(v, step)))
  {
    if step.Restarted? && step.listing.Some? {
      SyncMakesReplica(st, v, step.listing.value);
    }
    if step.Watched? {
      EventKeepsTidy(st, v, step.ev);
      if Replicates(st, v) {
        EventKeepsReplica(st, v, step.ev);
      }
    }
    if step.Missed? {
      assert forall k, n :: About(st, k, n) ==> About(Changed(st, step.ev), k, n);
    }
  }

  /** Over every history without missed deletions: after each listing and until the next gap the cache is a replica. */
  lemma {:induction false} RunReplicates(st: Store, steps: seq<Step>, keys: set<string>)
    requires History(st, steps, keys) && DistinctNames(keys) && NoMissedDeletion(steps)
    ensures StoreAfter(st, steps).Keys <= keys && Tidy(StoreAfter(st, steps), ViewAfter(map[], steps))
    ensures InSync(steps) ==> Replicates(StoreAfter(st, steps), ViewAfter(map[], steps))
  {
    if steps != [] {
      var n := |steps| - 1;
      RunReplicates(st, steps[..n], keys);
      StepReplicates(StoreAfter(st, steps[..n]), ViewAfter(map[], steps[..n]), steps[n], keys);
    }
  }

  /** It is called in these steps, and told what the cache shows. */
  ghost predicate Logs(log: Log<string>, v: View, steps: seq<Step>) {
    |log| == |steps| && forall k :: 0 <= k < |steps| ==> LogsStep(log, v, steps, k)
  }

  ghost predicate LogsStep(log: Log<string>, v: View, steps: seq<Step>, k: nat)
    requires k < |log| == |steps|
  {
    && (log[k].Some? <==> Calls(steps[k]))
    && (log[k].Some? ==> ListsView(log[k].value, ViewAfter(v, steps[..k + 1])))
  }

  lemma LogsPrefix(log: Log<string>, v: View, steps: seq<Step>, n: nat)
    requires Logs(log, v, steps) && n <= |steps|
    ensures Logs(log[..n], v, steps[..n])
  {
    forall k | 0 <= k < n
      ensures LogsStep(log[..n], v, steps[..n], k)
    {
      assert LogsStep(log, v, steps, k);
      assert steps[..n][..k + 1] == steps[..k + 1];
    }
  }

  /** A step that does not call the callback leaves the cache alone. */
  lemma QuietStep(v: View, step: Step)
    requires !Calls(step)
    ensures Seen(v, step) == v
  {
    assert Synced(v, map[]) == v;
  }

  /** In every run, the callback was last told what the cache shows. */
  lemma {:induction false} ToldIsShown(log: Log<string>, steps: seq<Step>)
    requires Logs(log, map[], steps)
    ensures ListsView(Told(log), ViewAfter(map[], steps))
  {
    if steps != [] {
      var n := |steps| - 1;
      assert LogsStep(log, map[], steps, n);
      assert steps[..n + 1] == steps;
      if log[n].None? {
        LogsPrefix(log, map[], steps, n);
        ToldIsShown(log[..n], steps[..n]);
        QuietStep(ViewAfter(map[], steps[..n]), steps[n]);
      }
    }
  }

  /**
   In every run, after a listing and until the next gap, what the callback was
   last told is exactly the store, through events and idle restarts.
   */
  lemma ReplicaForever(st: Store, steps: seq<Step>, keys: set<string>, log: Log<string>)
    requires History(st, steps, keys) && DistinctNames(keys) && NoMissedDeletion(steps)
    requires Logs(log, map[], steps) && InSync(steps)
    ensures ListsStore(Told(log), StoreAfter(st, steps))
  {
    ToldIsShown(log, steps);
    RunReplicates(st, steps, keys);
    ReplicaPublishes(StoreAfter(st, steps), ViewAfter(map[], steps));
  }

  lemma {:induction false} HistoryPrefix(st: Store, steps: seq<Step>, keys: set<string>, n: nat)
    requires History(st, steps, keys) && n <= |steps|
    ensures History(st, steps[..n], keys)
  {
    if n == |steps| {
      assert steps[..n] == steps;
    } else {
      HistoryPrefix(st, steps[..|steps| - 1], keys, n);
      assert steps[..|steps| - 1][..n] == steps[..n];
    }
  }

  // ------------------------------------------------------------------------- the client

  lemma SetsSome(us: seq<Update>, urls: map<string, string>)
    requires SetsUrls(us, urls)
    ensures us != [] <==> urls != map[]
  {
    if us != [] {
      assert us[0].name in urls;
    } else {
      assert urls == map[];
    }
  }

  method SyncListed(cache: Cache, kvs: seq<(string, string)>)
      returns (told: Option<seq<(string, string)>>, ghost us: seq<Update>)
    requires cache.Valid()
    modifies cache, cache.endpoints.Values
    ensures SetsUrls(us, Latest(kvs)) && cache.Valid() && cache.GetView() == ApplyAll(old(cache.GetView()), SYNC, us)
    ensures forall o :: o in cache.endpoints.Values ==> o in old(cache.endpoints.Values) || fresh(o)
    ensures told.Some? <==> us != []
    ensures told.Some? ==> ListsView(told.value, cache.GetView())
  {
    var endpoints;
    endpoints, us := MakeEndpoints(kvs);
    told := None;
    if |endpoints| > 0 {
      var re := cache.UpdateEndpoints(SYNC, endpoints, us);
      PublishedList(re, cache.GetView());
      told := Some(Pairs(re));
    }
  }

  /** The start of discover: list, and SYNC if anything is listed. */
  method Resync(cache: Cache, listing: Option<seq<(string, string)>>) returns (told: Option<seq<(string, string)>>)
    requires cache.Valid()
    modifies cache, cache.endpoints.Values
    ensures cache.Valid() && cache.GetView() == Seen(old(cache.GetView()), Restarted(listing))
    ensures forall o :: o in cache.endpoints.Values ==> o in old(cache.endpoints.Values) || fresh(o)
    ensures told.Some? <==> Calls(Restarted(listing))
    ensures told.Some? ==> ListsView(told.value, cache.GetView())
  {
    if listing.None? {
      return None;
    }
    ghost var v, us := cache.GetView(), [];
    told, us := SyncListed(cache, listing.value);
    SyncSets(v, us, Latest(listing.value));
    SetsSome(us, Latest(listing.value));
  }

  method HandleStep(cache: Cache, step: Step) returns (told: Option<seq<(string, string)>>)
    requires cache.Valid()
    modifies cache, cache.endpoints.Values
    ensures cache.Valid() && cache.GetView() == Seen(old(cache.GetView()), step)
    ensures forall o :: o in cache.endpoints.Values ==> o in old(cache.endpoints.Values) || fresh(o)
    ensures told.Some? <==> Calls(step)
    ensures told.Some? ==> ListsView(told.value, cache.GetView())
  {
    if step.Restarted? {
      told := Resync(cache, step.listing);
    } else if step.Watched? {
      var re := HandleEvent(cache, step.ev);
      if re.None? {
        return None;
      }
      PublishedList(re.value, cache.GetView());
      return Some(Pairs(re.value));
    } else {
      return None;
    }
  }

  ghost function WatchedAll(evs: seq<Event>): seq<Step> {
    seq(|evs|, i requires 0 <= i < |evs| => Watched(evs[i]))
  }

  /** One more step is logged. */
  lemma LogGrows(log: Log<string>, v: View, steps: seq<Step>, i: nat, told: Option<seq<(string, string)>>)
    requires i < |steps| && Logs(log, v, steps[..i])
    requires told.Some? <==> Calls(steps[i])
    requires told.Some? ==> ListsView(told.value, Seen(ViewAfter(v, steps[..i]), steps[i]))
    ensures ViewAfter(v, steps[..i + 1]) == Seen(ViewAfter(v, steps[..i]), steps[i])
    ensures Logs(log + [told], v, steps[..i + 1])
  {
    var longer, now := log + [told], steps[..i + 1];
    assert now[..i] == steps[..i];
    forall k | 0 <= k < |longer|
      ensures LogsStep(longer, v, now, k)
    {
      assert now[..k + 1] == steps[..k + 1];
      if k < i {
        assert LogsStep(log, v, steps[..i], k);
        assert steps[..i][..k + 1] == steps[..k + 1];
      }
    }
  }

  /** The event loop over one watch response. */
  method HandleResponse(cache: Cache, evs: seq<Event>) returns (log: Log<string>)
    requires cache.Valid()
    modifies cache, cache.endpoints.Values
    ensures cache.Valid() && cache.GetView() == ViewAfter(old(cache.GetView()), WatchedAll(evs))
    ensures forall o :: o in cache.endpoints.Values ==> o in old(cache.endpoints.Values) || fresh(o)
    ensures Logs(log, old(cache.GetView()), WatchedAll(evs))
  {
    log := [];
    ghost var v, steps := cache.GetView(), WatchedAll(evs);
    for i := 0 to |evs|
      invariant cache.Valid() && cache.GetView() == ViewAfter(v, steps[..i]) && Logs(log, v, steps[..i])
      invariant forall o :: o in cache.endpoints.Values ==> o in old(cache.endpoints.Values) || fresh(o)
    {
      var told := HandleStep(cache, Watched(evs[i]));
      LogGrows(log, v, steps, i, told);
      log := log + [told];
    }
    assert steps[..|evs|] == steps;
  }

  /**
   The watchers of a project, one after the other, from an empty cache. At
   every moment in sync the callback was last told exactly the stored servers.
   */
  method Discover(cache: Cache, steps: seq<Step>, ghost st: Store, ghost keys: set<string>) returns (log: Log<string>)
    requires cache.Valid() && cache.endpoints == map[]
    requires History(st, steps, keys) && DistinctNames(keys)
    modifies cache
    ensures cache.Valid() && cache.GetView() == ViewAfter(map[], steps) && Logs(log, map[], steps)
    ensures forall k :: 0 <= k <= |steps| && InSync(steps[..k]) && NoMissedDeletion(steps[..k]) ==>
      ListsStore(Told(log[..k]), StoreAfter(st, steps[..k]))
  {
    log := [];
    assert cache.GetView() == map[];
    for i := 0 to |steps|
      invariant cache.Valid() && cache.GetView() == ViewAfter(map[], steps[..i]) && Logs(log, map[], steps[..i])
      invariant forall o :: o in cache.endpoints.Values ==> fresh(o)
    {
      var told := HandleStep(cache, steps[i]);
      LogGrows(log, map[], steps, i, told);
      log := log + [told];
    }
    assert steps[..|steps|] == steps;
    forall k | 0 <= k <= |steps| && InSync(steps[..k]) && NoMissedDeletion(steps[..k])
      ensures ListsStore(Told(log[..k]), StoreAfter(st, steps[..k]))
    {
      HistoryPrefix(st, steps, keys, k);
      LogsPrefix(log, map[], steps, k);
      ReplicaForever(st, steps[..k], keys, log[..k]);
    }
  }
}
