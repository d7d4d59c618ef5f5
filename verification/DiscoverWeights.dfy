/**
 Discovery over two keys per server, one for the URL and one for the weight
 (discover/discover.go): the cache mirrors both, and the callback is told. The
 watch behind it lists the store when it starts, and again whenever it has been
 idle; a listing arrives as creations. Changes between two watches are missed.
 */
module DiscoverWeights {
  import opened Wrappers
  import opened EndpointCache
  import opened Text
  import DiscoverReplication

  // ------------------------------------------------------------------- key decoding

  predicate HasSuffix(s: string, suffix: string) {
    |suffix| <= |s| && s[|s| - |suffix|..] == suffix
  }

  /** Which field of which server a key holds. */
  datatype Field = UrlOf(name: string) | WeightOf(name: string)

  function FieldOf(key: string): Option<Field> {
    var k := Split(key, '/');
    if HasSuffix(key, "/url") && |k| > 2 then Some(UrlOf(k[|k| - 2]))
    else if HasSuffix(key, "/weight") && |k| > 2 then Some(WeightOf(k[|k| - 2]))
    else None
  }

  /** The keys of a registered server are recognised. */
  lemma RegisteredUrl(root: string, name: string)
    requires '/' !in name
    ensures FieldOf(root + "/" + name + "/" + "url") == Some(UrlOf(name))
  {
    SplitTwice(root, name, "url");
    var u := root + "/" + name + "/" + "url";
    assert u[|u| - 4..] == "/url";
  }

  lemma RegisteredWeight(root: string, name: string)
    requires '/' !in name
    ensures FieldOf(root + "/" + name + "/" + "weight") == Some(WeightOf(name))
  {
    SplitTwice(root, name, "weight");
    var w := root + "/" + name + "/" + "weight";
    assert w[|w| - 7..] == "/weight";
    assert w[|w| - 4..][3] == 't';
  }

  lemma SplitTwice(root: string, name: string, field: string)
    requires '/' !in name && '/' !in field
    ensures var k := Split(root + "/" + name + "/" + field, '/'); |k| > 2 && k[|k| - 2] == name
  {
    SplitAppend(root, '/', name);
    SplitAppend(root + "/" + name, '/', field);
  }

  ghost predicate FieldKey(key: string, root: string, name: string, field: string) {
    key == root + "/" + name + "/" + field && '/' !in name
  }

  /** Exactly the keys of the form root/name/url hold a URL. */
  lemma UrlExactly(key: string, n: string)
    ensures FieldOf(key) == Some(UrlOf(n)) <==> exists root :: FieldKey(key, root, n, "url")
  {
    if root :| FieldKey(key, root, n, "url") {
      RegisteredUrl(root, n);
    }
    if FieldOf(key) == Some(UrlOf(n)) {
      var root := RootOf(key, n, "url");
    }
  }

  /** Exactly the keys of the form root/name/weight hold a weight. */
  lemma WeightExactly(key: string, n: string)
    ensures FieldOf(key) == Some(WeightOf(n)) <==> exists root :: FieldKey(key, root, n, "weight")
  {
    if root :| FieldKey(key, root, n, "weight") {
      RegisteredWeight(root, n);
    }
    if FieldOf(key) == Some(WeightOf(n)) {
      var root := RootOf(key, n, "weight");
    }
  }

  lemma RootOf(key: string, n: string, field: string) returns (root: string)
    requires '/' !in field && HasSuffix(key, "/" + field)
    requires var k := Split(key, '/'); |k| > 2 && k[|k| - 2] == n
    ensures FieldKey(key, root, n, field)
  {
    var q := key[..|key| - |field| - 1];
    assert key == q + ("/" + field);
    assert q + ("/" + field) == q + "/" + field;
    SplitAppend(q, '/', field);
    SplitJoin(q, '/');
    var k := Split(q, '/');
    root := Join(k[..|k| - 1], '/');
  }

  // ------------------------------------------------------------------ store and events

  type Store = map<string, string>

  datatype Kind = Added | Modified | Deleted

  datatype Event = Event(kind: Kind, key: string, value: string)

  function Changed(st: Store, ev: Event): Store {
    if ev.kind == Deleted then st - {ev.key} else st[ev.key := ev.value]
  }

  /** A modification is of a key that exists; creations may be replayed. */
  predicate Sound(st: Store, ev: Event) {
    ev.kind == Modified ==> ev.key in st
  }

  function Operate(kind: Kind): Operation {
    match kind case Added => ADD case Modified => UPDATE case Deleted => DELETE
  }

  /** The endpoint the watch loop builds; atoi is strconv.Atoi with its error dropped. */
  function Built(f: Field, value: string, atoi: string -> int): Update {
    match f
    case UrlOf(name) => Update(name, Value(value, 0), 0)
    case WeightOf(name) => Update(name, Value("", atoi(value)), 1)
  }

  function Deliver(v: View, ev: Event, atoi: string -> int): View {
    match FieldOf(ev.key)
    case None => v
    case Some(f) => Apply(v, Operate(ev.kind), Built(f, ev.value, atoi))
  }

  method HandleEvent(cache: Cache, ev: Event, atoi: string -> int) returns (published: Option<seq<Endpoint>>)
    requires cache.Valid()
    modifies cache, cache.endpoints.Values
    ensures cache.Valid() && cache.GetView() == Deliver(old(cache.GetView()), ev, atoi)
    ensures forall o :: o in cache.endpoints.Values ==> o in old(cache.endpoints.Values) || fresh(o)
    ensures published.Some? <==> FieldOf(ev.key).Some?
    ensures published.Some? ==> Publishes(published.value, cache.GetView())
  {
    var f := FieldOf(ev.key);
    if f.None? {
      return None;
    }
    var u := Built(f.value, ev.value, atoi);
    var op := if ev.kind == Added then ADD else if ev.kind == Modified then UPDATE else DELETE;
    var end := new Endpoint(u.name, u.value.url, u.value.weight, u.mode);
    ghost var before := cache.GetView();
    assert ApplyAll(before, op, [u]) == Apply(before, op, u) by {
      assert [u][..0] == [];
    }
    var re := cache.UpdateEndpoints(op, [end], [u]);
    published := Some(re);
  }

  /** A modification or deletion of a server that is not cached changes nothing. */
  lemma UnknownServer(v: View, ev: Event, atoi: string -> int)
    requires FieldOf(ev.key).Some? && FieldOf(ev.key).value.name !in v && ev.kind != Added
    ensures Deliver(v, ev, atoi) == v
  {
  }

  // -------------------------------------------------------------------------- mirror

  ghost predicate Holds(st: Store, key: string, f: Field) {
    key in st && FieldOf(key) == Some(f)
  }

  ghost predicate Stored(st: Store, f: Field) {
    exists key :: Holds(st, key, f)
  }

  /** Different keys hold different fields. */
  ghost predicate DistinctFields(keys: set<string>) {
    forall a, b :: a in keys && b in keys && FieldOf(a).Some? && FieldOf(a) == FieldOf(b) ==> a == b
  }

  /** Every cached URL and weight is the stored one, or the default when its key is absent. */
  ghost predicate Mirrors(st: Store, v: View, atoi: string -> int) {
    forall n :: MirrorsUrl(st, v, n) && MirrorsWeight(st, v, n, atoi)
  }

  /** What an event changes in the store, field by field. */
  lemma ChangedFields(st: Store, ev: Event, f: Field)
    requires DistinctFields(st.Keys + {ev.key})
    ensures FieldOf(ev.key) == Some(f) ==> (Stored(Changed(st, ev), f) <==> ev.kind != Deleted)
    ensures FieldOf(ev.key) == Some(f) ==> forall k :: Holds(Changed(st, ev), k, f) ==> k == ev.key
    ensures FieldOf(ev.key) != Some(f) ==> (Stored(Changed(st, ev), f) <==> Stored(st, f))
    ensures FieldOf(ev.key) != Some(f) ==>
      forall k :: Holds(Changed(st, ev), k, f) <==> Holds(st, k, f) && k != ev.key
  {
    var st' := Changed(st, ev);
    if FieldOf(ev.key) == Some(f) {
      if ev.kind != Deleted {
        assert Holds(st', ev.key, f);
      }
    } else {
      if k :| Holds(st, k, f) {
        assert Holds(st', k, f);
      }
      if k :| Holds(st', k, f) {
        assert Holds(st, k, f);
      }
    }
  }

  /** The URL of one server is mirrored. */
  ghost predicate MirrorsUrl(st: Store, v: View, n: string) {
    && (forall k :: Holds(st, k, UrlOf(n)) ==> n in v && v[n].url == st[k])
    && (n in v && !Stored(st, UrlOf(n)) ==> v[n].url == "")
  }

  /** The weight of one server is mirrored. */
  ghost predicate MirrorsWeight(st: Store, v: View, n: string, atoi: string -> int) {
    && (forall k :: Holds(st, k, WeightOf(n)) ==> n in v && v[n].weight == atoi(st[k]))
    && (n in v && !Stored(st, WeightOf(n)) ==> v[n].weight == 0)
  }

  /** The cached value of one server after an event about field f. */
  lemma DeliverTo(v: View, ev: Event, atoi: string -> int, f: Field, n: string)
    requires FieldOf(ev.key) == Some(f) && (ev.kind == Modified ==> f.name in v)
    ensures var v' := Deliver(v, ev, atoi);
      && (n != f.name ==> (n in v' <==> n in v) && (n in v' ==> v'[n] == v[n]))
      && (n == f.name ==> (n in v' <==> n in v || ev.kind == Added))
      && (n == f.name && n in v' ==>
            var was := if n in v then v[n] else Value("", 0);
            v'[n] == match f
              case UrlOf(_) => was.(url := if ev.kind == Deleted then "" else ev.value)
              case WeightOf(_) => was.(weight := if ev.kind == Deleted then 0 else atoi(ev.value)))
  {
  }

  lemma EventKeepsUrl(st: Store, v: View, ev: Event, atoi: string -> int, n: string)
    requires MirrorsUrl(st, v, n) && DistinctFields(st.Keys + {ev.key})
    requires ev.kind == Modified && FieldOf(ev.key).Some? ==> FieldOf(ev.key).value.name in v
    ensures MirrorsUrl(Changed(st, ev), Deliver(v, ev, atoi), n)
  {
    ChangedFields(st, ev, UrlOf(n));
    if FieldOf(ev.key).Some? {
      DeliverTo(v, ev, atoi, FieldOf(ev.key).value, n);
    }
  }

  lemma EventKeepsWeight(st: Store, v: View, ev: Event, atoi: string -> int, n: string)
    requires MirrorsWeight(st, v, n, atoi) && DistinctFields(st.Keys + {ev.key})
    requires ev.kind == Modified && FieldOf(ev.key).Some? ==> FieldOf(ev.key).value.name in v
    ensures MirrorsWeight(Changed(st, ev), Deliver(v, ev, atoi), n, atoi)
  {
    ChangedFields(st, ev, WeightOf(n));
    if FieldOf(ev.key).Some? {
      DeliverTo(v, ev, atoi, FieldOf(ev.key).value, n);
    }
  }

  /** Every event keeps the mirror exact. */
  lemma EventKeepsMirror(st: Store, v: View, ev: Event, atoi: string -> int)
    requires Mirrors(st, v, atoi) && Sound(st, ev) && DistinctFields(st.Keys + {ev.key})
    ensures Mirrors(Changed(st, ev), Deliver(v, ev, atoi), atoi)
  {
    if ev.kind == Modified && FieldOf(ev.key).Some? {
      var f := FieldOf(ev.key).value;
      assert Holds(st, ev.key, f);
      assert MirrorsUrl(st, v, f.name) && MirrorsWeight(st, v, f.name, atoi);
    }
    forall n
      ensures MirrorsUrl(Changed(st, ev), Deliver(v, ev, atoi), n)
      ensures MirrorsWeight(Changed(st, ev), Deliver(v, ev, atoi), n, atoi)
    {
      assert MirrorsUrl(st, v, n) && MirrorsWeight(st, v, n, atoi);
      EventKeepsUrl(st, v, ev, atoi, n);
      EventKeepsWeight(st, v, ev, atoi, n);
    }
  }

  lemma FewerFields(some: set<string>, keys: set<string>)
    requires some <= keys && DistinctFields(keys)
    ensures DistinctFields(some)
  {
  }

  // ----------------------------------------------------------------- what is published

  ghost predicate Shown(v: View, n: string, e: Value) {
    n in v && v[n] == e && e.url != ""
  }

  /** The endpoint a store describes: published when its URL is present and not empty. */
  ghost predicate Described(st: Store, n: string, e: Value, atoi: string -> int) {
    && e.url != ""
    && (exists k :: Holds(st, k, UrlOf(n)) && st[k] == e.url)
    && (Stored(st, WeightOf(n)) ==> exists k :: Holds(st, k, WeightOf(n)) && atoi(st[k]) == e.weight)
    && (!Stored(st, WeightOf(n)) ==> e.weight == 0)
  }

  /** The endpoints of a mirror are those the store describes. */
  lemma MirrorShows(st: Store, v: View, n: string, e: Value, atoi: string -> int)
    requires Mirrors(st, v, atoi) && DistinctFields(st.Keys)
    ensures Shown(v, n, e) <==> Described(st, n, e, atoi)
  {
    assert MirrorsUrl(st, v, n) && MirrorsWeight(st, v, n, atoi);
    if Shown(v, n, e) {
      assert Stored(st, UrlOf(n));
      var k :| Holds(st, k, UrlOf(n));
      if Stored(st, WeightOf(n)) {
        var w :| Holds(st, w, WeightOf(n));
      }
    }
  }

  /** Names, URLs and weights as the callback sees them. */
  function Entries(re: seq<Endpoint>): seq<(string, Value)>
    reads re
  {
    seq(|re|, i requires 0 <= i < |re| reads re => (re[i].name, re[i].Val()))
  }

  /** The entries are the cached servers with a URL, each once. */
  ghost predicate ListsView(entries: seq<(string, Value)>, v: View) {
    NamedOnce(entries) && forall n, e :: (n, e) in entries <==> Shown(v, n, e)
  }

  /** The entries are the servers the store describes, each once. */
  ghost predicate ListsStore(entries: seq<(string, Value)>, st: Store, atoi: string -> int) {
    NamedOnce(entries) && forall n, e :: (n, e) in entries <==> Described(st, n, e, atoi)
  }

  /** A published list shows the cache. */
  lemma PublishedList(re: seq<Endpoint>, v: View)
    requires Publishes(re, v)
    ensures ListsView(Entries(re), v)
  {
    var entries := Entries(re);
    forall n, e
      ensures (n, e) in entries <==> Shown(v, n, e)
    {
      if (n, e) in entries {
        var i :| 0 <= i < |entries| && entries[i] == (n, e);
        assert re[i] in re;
      }
      if Shown(v, n, e) {
        var o :| o in re && o.name == n;
        var i :| 0 <= i < |re| && re[i] == o;
        assert entries[i] == (n, e);
      }
    }
  }

  /** A list that shows a mirror is exactly the store. */
  lemma MirrorPublishes(st: Store, v: View, entries: seq<(string, Value)>, atoi: string -> int)
    requires Mirrors(st, v, atoi) && DistinctFields(st.Keys) && ListsView(entries, v)
    ensures ListsStore(entries, st, atoi)
  {
    forall n, e
      ensures (n, e) in entries <==> Described(st, n, e, atoi)
    {
      MirrorShows(st, v, n, e, atoi);
    }
  }

  // -------------------------------------------------------------------------- listings

  /** Listed keys arrive as creations. */
  function Relist(v: View, kvs: seq<(string, string)>, atoi: string -> int): View {
    if kvs == [] then v
    else
      var n := |kvs| - 1;
      Deliver(Relist(v, kvs[..n], atoi), Event(Added, kvs[n].0, kvs[n].1), atoi)
  }

  ghost predicate Mentions(kvs: seq<(string, string)>, f: Field) {
    exists i :: 0 <= i < |kvs| && FieldOf(kvs[i].0) == Some(f)
  }

  lemma MentionsAppend(kvs: seq<(string, string)>, kv: (string, string), f: Field)
    ensures Mentions(kvs + [kv], f) <==> Mentions(kvs, f) || FieldOf(kv.0) == Some(f)
  {
    var all := kvs + [kv];
    assert all[|kvs|] == kv;
    if i :| 0 <= i < |kvs| && FieldOf(kvs[i].0) == Some(f) {
      assert all[i] == kvs[i];
    }
  }

  /** The cached value of a server, or the default. */
  function At(v: View, n: string): Value {
    if n in v then v[n] else Value("", 0)
  }

  /** Entries of the store. */
  ghost predicate Among(kvs: seq<(string, string)>, st: Store) {
    forall i :: 0 <= i < |kvs| ==> kvs[i].0 in st && st[kvs[i].0] == kvs[i].1
  }

  /** A listing sets the fields it mentions, and touches nothing else. */
  ghost predicate Relisted(st: Store, v: View, kvs: seq<(string, string)>, w: View, n: string, atoi: string -> int) {
    && (n in w <==> n in v || Mentions(kvs, UrlOf(n)) || Mentions(kvs, WeightOf(n)))
    && (if Mentions(kvs, UrlOf(n)) then forall k :: Holds(st, k, UrlOf(n)) ==> At(w, n).url == st[k]
        else At(w, n).url == At(v, n).url)
    && (if Mentions(kvs, WeightOf(n)) then forall k :: Holds(st, k, WeightOf(n)) ==> At(w, n).weight == atoi(st[k])
        else At(w, n).weight == At(v, n).weight)
  }

  lemma {:induction false} RelistSets(st: Store, v: View, kvs: seq<(string, string)>, n: string, atoi: string -> int)
    requires Among(kvs, st) && DistinctFields(st.Keys)
    ensures Relisted(st, v, kvs, Relist(v, kvs, atoi), n, atoi)
  {
    if kvs != [] {
      var rest, kv := kvs[..|kvs| - 1], kvs[|kvs| - 1];
      RelistSets(st, v, rest, n, atoi);
      assert kvs == rest + [kv];
      MentionsAppend(rest, kv, UrlOf(n));
      MentionsAppend(rest, kv, WeightOf(n));
      RelistStep(st, v, rest, kv, Relist(v, rest, atoi), n, atoi);
    }
  }

  lemma RelistStep(st: Store, v: View, rest: seq<(string, string)>, kv: (string, string), w: View, n: string,
                   atoi: string -> int)
    requires Relisted(st, v, rest, w, n, atoi) && kv.0 in st && st[kv.0] == kv.1 && DistinctFields(st.Keys)
    requires Mentions(rest + [kv], UrlOf(n)) <==> Mentions(rest, UrlOf(n)) || FieldOf(kv.0) == Some(UrlOf(n))
    requires Mentions(rest + [kv], WeightOf(n)) <==> Mentions(rest, WeightOf(n)) || FieldOf(kv.0) == Some(WeightOf(n))
    ensures Relisted(st, v, rest + [kv], Deliver(w, Event(Added, kv.0, kv.1), atoi), n, atoi)
  {
    var ev := Event(Added, kv.0, kv.1);
    if FieldOf(kv.0).Some? {
      var f := FieldOf(kv.0).value;
      DeliverTo(w, ev, atoi, f, n);
      assert forall k :: Holds(st, k, f) ==> k == kv.0;
    }
  }

  /** No field is cached with a value unless its key is stored. */
  ghost predicate Tidy(st: Store, v: View) {
    forall n :: n in v ==>
      (v[n].url != "" ==> Stored(st, UrlOf(n))) && (v[n].weight != 0 ==> Stored(st, WeightOf(n)))
  }

  lemma ListedExactly(st: Store, kvs: seq<(string, string)>, f: Field)
    requires DiscoverReplication.Lists(kvs, st)
    ensures Among(kvs, st) && (Mentions(kvs, f) <==> Stored(st, f))
  {
    forall i | 0 <= i < |kvs|
      ensures kvs[i].0 in st && st[kvs[i].0] == kvs[i].1
    {
      assert (kvs[i].0, kvs[i].1) == kvs[i] && kvs[i] in kvs;
    }
    if k :| Holds(st, k, f) {
      assert (k, st[k]) in kvs;
      var i :| 0 <= i < |kvs| && kvs[i] == (k, st[k]);
    }
    if i :| 0 <= i < |kvs| && FieldOf(kvs[i].0) == Some(f) {
      assert Holds(st, kvs[i].0, f);
    }
  }

  /**
   Exactly when a listing makes the cache a mirror again: no value is cached
   for a key that was deleted unseen. A listing never removes anything.
   */
  lemma RelistRepairs(st: Store, v: View, kvs: seq<(string, string)>, atoi: string -> int)
    requires DiscoverReplication.Lists(kvs, st) && DistinctFields(st.Keys)
    ensures Mirrors(st, Relist(v, kvs, atoi), atoi) <==> Tidy(st, v)
  {
    var w := Relist(v, kvs, atoi);
    forall n
      ensures Relisted(st, v, kvs, w, n, atoi)
      ensures Mentions(kvs, UrlOf(n)) <==> Stored(st, UrlOf(n))
      ensures Mentions(kvs, WeightOf(n)) <==> Stored(st, WeightOf(n))
    {
      ListedExactly(st, kvs, UrlOf(n));
      ListedExactly(st, kvs, WeightOf(n));
      RelistSets(st, v, kvs, n, atoi);
    }
    if Mirrors(st, w, atoi) {
      forall n | n in v
        ensures (v[n].url != "" ==> Stored(st, UrlOf(n))) && (v[n].weight != 0 ==> Stored(st, WeightOf(n)))
      {
        assert Relisted(st, v, kvs, w, n, atoi) && MirrorsUrl(st, w, n) && MirrorsWeight(st, w, n, atoi);
      }
    }
    if Tidy(st, v) {
      forall n
        ensures MirrorsUrl(st, w, n) && MirrorsWeight(st, w, n, atoi)
      {
        assert Relisted(st, v, kvs, w, n, atoi);
      }
    }
  }

  /** A weight deleted while nobody watched stays published after a listing. */
  lemma StaleWeightExample(root: string, atoi: string -> int)
    ensures var key := root + "/" + "a" + "/" + "url";
      var v := map["a" := Value("10.0.0.1:80", 5)];
      var w := Relist(v, [(key, "10.0.0.1:80")], atoi);
      Shown(w, "a", Value("10.0.0.1:80", 5)) && !Described(map[key := "10.0.0.1:80"], "a", Value("10.0.0.1:80", 5), atoi)
  {
    var key := root + "/" + "a" + "/" + "url";
    RegisteredUrl(root, "a");
    var kvs := [(key, "10.0.0.1:80")];
    assert kvs[..0] == [];
    assert !Stored(map[key := "10.0.0.1:80"], WeightOf("a"));
  }

  // ---------------------------------------------------------------------------- runs

  datatype Step =
    | Watched(ev: Event)                          // the watch delivers a change
    | Missed(ev: Event)                           // a change between two watches
    | Restarted(kvs: seq<(string, string)>)       // a watch starts with a listing

  function StoreAfter(st: Store, steps: seq<Step>): Store {
    if steps == [] then st
    else
      var now, step := StoreAfter(st, steps[..|steps| - 1]), steps[|steps| - 1];
      if step.Restarted? then now else Changed(now, step.ev)
  }

  function ViewAfter(steps: seq<Step>, atoi: string -> int): View {
    if steps == [] then map[] else Seen(ViewAfter(steps[..|steps| - 1], atoi), steps[|steps| - 1], atoi)
  }

  function Seen(v: View, step: Step, atoi: string -> int): View {
    match step
    case Watched(ev) => Deliver(v, ev, atoi)
    case Missed(_) => v
    case Restarted(kvs) => Relist(v, kvs, atoi)
  }

  /** Events are sound for the store, and listings show it. */
  ghost predicate Legal(st: Store, step: Step, keys: set<string>) {
    match step
    case Watched(ev) => ev.key in keys && Sound(st, ev)
    case Missed(ev) => ev.key in keys
    case Restarted(kvs) => DiscoverReplication.Lists(kvs, st)
  }

  ghost predicate History(st: Store, steps: seq<Step>, keys: set<string>) {
    if steps == [] then st.Keys <= keys
    else
      var n := |steps| - 1;
      History(st, steps[..n], keys) && Legal(StoreAfter(st, steps[..n]), steps[n], keys)
  }

  /** The store was empty or has been listed, and nothing was missed since. */
  predicate InSync(st: Store, steps: seq<Step>) {
    if steps == [] then st == map[]
    else
      match steps[|steps| - 1]
      case Watched(_) => InSync(st, steps[..|steps| - 1])
      case Missed(_) => false
      case Restarted(_) => true
  }

  /** No step from position k on is missed. */
  ghost predicate Unbroken(steps: seq<Step>, k: nat) {
    forall j :: k <= j < |steps| ==> !steps[j].Missed?
  }

  ghost predicate ListedAt(steps: seq<Step>, k: nat) {
    k < |steps| && steps[k].Restarted? && Unbroken(steps, k)
  }

  lemma {:induction false} InSyncExactly(st: Store, steps: seq<Step>)
    ensures InSync(st, steps) <==> (st == map[] && Unbroken(steps, 0)) || exists k: nat :: ListedAt(steps, k)
  {
    if steps != [] {
      var n := |steps| - 1;
      InSyncExactly(st, steps[..n]);
      assert Unbroken(steps, 0) <==> Unbroken(steps[..n], 0) && !steps[n].Missed?;
      if k: nat :| ListedAt(steps[..n], k) && !steps[n].Missed? {
        assert steps[k] == steps[..n][k];
        assert ListedAt(steps, k);
      }
      if k: nat :| ListedAt(steps, k) && k < n {
        assert ListedAt(steps[..n], k);
      }
      if steps[n].Restarted? {
        assert ListedAt(steps, n);
      }
    }
  }

  /** Creations and changes may have been missed, but no deletion. */
  predicate NoMissedDeletion(steps: seq<Step>) {
    forall i :: 0 <= i < |steps| && steps[i].Missed? ==> steps[i].ev.kind != Deleted
  }

  lemma EventKeepsTidy(st: Store, v: View, ev: Event, atoi: string -> int)
    requires Tidy(st, v)
    ensures Tidy(Changed(st, ev), Deliver(v, ev, atoi))
  {
    var st', v' := Changed(st, ev), Deliver(v, ev, atoi);
    forall n | n in v'
      ensures (v'[n].url != "" ==> Stored(st', UrlOf(n))) && (v'[n].weight != 0 ==> Stored(st', WeightOf(n)))
    {
      StaysStored(st, ev, UrlOf(n));
      StaysStored(st, ev, WeightOf(n));
    }
  }

  lemma StaysStored(st: Store, ev: Event, f: Field)
    ensures FieldOf(ev.key) != Some(f) && Stored(st, f) ==> Stored(Changed(st, ev), f)
    ensures ev.kind != Deleted && (FieldOf(ev.key) == Some(f) || Stored(st, f)) ==> Stored(Changed(st, ev), f)
  {
    if k :| Holds(st, k, f) && (k != ev.key || ev.kind != Deleted) {
      assert Holds(Changed(st, ev), k, f);
    }
    if ev.kind != Deleted && FieldOf(ev.key) == Some(f) {
      assert Holds(Changed(st, ev), ev.key, f);
    }
  }

  lemma MissedKeepsTidy(st: Store, v: View, ev: Event)
    requires Tidy(st, v) && ev.kind != Deleted
    ensures Tidy(Changed(st, ev), v)
  {
    forall n | n in v
      ensures (v[n].url != "" ==> Stored(Changed(st, ev), UrlOf(n)))
      ensures (v[n].weight != 0 ==> Stored(Changed(st, ev), WeightOf(n)))
    {
      StaysStored(st, ev, UrlOf(n));
      StaysStored(st, ev, WeightOf(n));
    }
  }

  lemma MirrorIsTidy(st: Store, v: View, atoi: string -> int)
    requires Mirrors(st, v, atoi)
    ensures Tidy(st, v)
  {
    forall n | n in v
      ensures (v[n].url != "" ==> Stored(st, UrlOf(n))) && (v[n].weight != 0 ==> Stored(st, WeightOf(n)))
    {
      assert MirrorsUrl(st, v, n) && MirrorsWeight(st, v, n, atoi);
    }
  }

  /** One step of a run in a tidy cache. */
  lemma StepMirrors(st: Store, v: View, step: Step, keys: set<string>, atoi: string -> int)
    requires st.Keys <= keys && DistinctFields(keys) && Legal(st, step, keys) && Tidy(st, v)
    requires step.Missed? ==> step.ev.kind != Deleted
    ensures var st' := if step.Restarted? then st else Changed(st, step.ev);
      && st'.Keys <= keys && Tidy(st', Seen(v, step, atoi))
      && (step.Restarted? || (step.Watched? && Mirrors(st, v, atoi)) ==> Mirrors(st', Seen(v, step, atoi), atoi))
  {
    match step {
      case Watched(ev) =>
        EventKeepsTidy(st, v, ev, atoi);
        if Mirrors(st, v, atoi) {
          FewerFields(st.Keys + {ev.key}, keys);
          EventKeepsMirror(st, v, ev, atoi);
        }
      case Missed(ev) =>
        MissedKeepsTidy(st, v, ev);
      case Restarted(kvs) =>
        FewerFields(st.Keys, keys);
        RelistRepairs(st, v, kvs, atoi);
        MirrorIsTidy(st, Relist(v, kvs, atoi), atoi);
    }
  }

  /**
   Over every history without missed deletions, with creations replayed any
   number of times: after each listing, and until the next gap, the cache
   mirrors the store.
   */
  lemma {:induction false} MirrorForever(st: Store, steps: seq<Step>, keys: set<string>, atoi: string -> int)
    requires History(st, steps, keys) && DistinctFields(keys) && NoMissedDeletion(steps)
    ensures StoreAfter(st, steps).Keys <= keys && Tidy(StoreAfter(st, steps), ViewAfter(steps, atoi))
    ensures InSync(st, steps) ==> Mirrors(StoreAfter(st, steps), ViewAfter(steps, atoi), atoi)
  {
    if steps != [] {
      var n := |steps| - 1;
      MirrorForever(st, steps[..n], keys, atoi);
      StepMirrors(StoreAfter(st, steps[..n]), ViewAfter(steps[..n], atoi), steps[n], keys, atoi);
    }
  }

  /** The step calls the callback. */
  predicate Calls(step: Step) {
    match step
    case Watched(ev) => FieldOf(ev.key).Some?
    case Missed(_) => false
    case Restarted(kvs) => ListsField(kvs)
  }

  predicate ListsField(kvs: seq<(string, string)>) {
    kvs != [] && (ListsField(kvs[..|kvs| - 1]) || FieldOf(kvs[|kvs| - 1].0).Some?)
  }

  /** What the callback is told in each step is what the cache shows after it. */
  ghost predicate Logs(log: Log<Value>, steps: seq<Step>, atoi: string -> int) {
    |log| == |steps| && forall k :: 0 <= k < |steps| ==> LogsStep(log, steps, k, atoi)
  }

  ghost predicate LogsStep(log: Log<Value>, steps: seq<Step>, k: nat, atoi: string -> int)
    requires k < |log| == |steps|
  {
    && (log[k].Some? <==> Calls(steps[k]))
    && (log[k].Some? ==> ListsView(log[k].value, ViewAfter(steps[..k + 1], atoi)))
  }

  lemma LogsPrefix(log: Log<Value>, steps: seq<Step>, n: nat, atoi: string -> int)
    requires Logs(log, steps, atoi) && n <= |steps|
    ensures Logs(log[..n], steps[..n], atoi)
  {
    forall k | 0 <= k < n
      ensures LogsStep(log[..n], steps[..n], k, atoi)
    {
      assert LogsStep(log, steps, k, atoi);
      assert steps[..n][..k + 1] == steps[..k + 1];
    }
  }

  lemma {:induction false} QuietListing(v: View, kvs: seq<(string, string)>, atoi: string -> int)
    requires !ListsField(kvs)
    ensures Relist(v, kvs, atoi) == v
  {
    if kvs != [] {
      QuietListing(v, kvs[..|kvs| - 1], atoi);
    }
  }

  /** In every run, the callback was last told what the cache shows. */
  lemma {:induction false} ToldIsShown(log: Log<Value>, steps: seq<Step>, atoi: string -> int)
    requires Logs(log, steps, atoi)
    ensures ListsView(Told(log), ViewAfter(steps, atoi))
  {
    if steps != [] {
      var n := |steps| - 1;
      assert LogsStep(log, steps, n, atoi);
      assert steps[..n + 1] == steps;
      if log[n].None? {
        LogsPrefix(log, steps, n, atoi);
        ToldIsShown(log[..n], steps[..n], atoi);
        if steps[n].Restarted? {
          QuietListing(ViewAfter(steps[..n], atoi), steps[n].kvs, atoi);
        }
      }
    }
  }

  /** In every run, in sync: what the callback was last told is exactly what the store describes. */
  lemma PublishedForever(st: Store, steps: seq<Step>, keys: set<string>, log: Log<Value>, atoi: string -> int)
    requires History(st, steps, keys) && DistinctFields(keys) && NoMissedDeletion(steps)
    requires Logs(log, steps, atoi) && InSync(st, steps)
    ensures ListsStore(Told(log), StoreAfter(st, steps), atoi)
  {
    ToldIsShown(log, steps, atoi);
    MirrorForever(st, steps, keys, atoi);
    FewerFields(StoreAfter(st, steps).Keys, keys);
    MirrorPublishes(StoreAfter(st, steps), ViewAfter(steps, atoi), Told(log), atoi);
  }

  /**
   Runs that end in the same store, in sync, leave the callback with the same
   endpoints, in whatever order the keys arrived.
   */
  lemma OrderDoesNotMatter(st1: Store, a: seq<Step>, log1: Log<Value>, st2: Store, b: seq<Step>, log2: Log<Value>,
                           keys: set<string>, atoi: string -> int)
    requires History(st1, a, keys) && NoMissedDeletion(a) && InSync(st1, a) && Logs(log1, a, atoi)
    requires History(st2, b, keys) && NoMissedDeletion(b) && InSync(st2, b) && Logs(log2, b, atoi)
    requires DistinctFields(keys) && StoreAfter(st1, a) == StoreAfter(st2, b)
    ensures forall entry :: entry in Told(log1) <==> entry in Told(log2)
  {
    PublishedForever(st1, a, keys, log1, atoi);
    PublishedForever(st2, b, keys, log2, atoi);
    forall entry
      ensures entry in Told(log1) <==> entry in Told(log2)
    {
      var (n, e) := entry;
      assert (n, e) == entry;
      assert (n, e) in Told(log1) <==> Described(StoreAfter(st1, a), n, e, atoi);
    }
  }

  lemma {:induction false} HistoryPrefix(st: Store, steps: seq<Step>, keys: set<string>, n: nat)
    requires History(st, steps, keys) && n <= |steps|
    ensures History(st, steps[..n], keys)
  {
    if n == |steps| {
      assert steps[..n] == steps;
    } else {
      HistoryPrefix(st, steps[..|steps| - 1], keys, n);
      assert steps[..|steps| - 1][..n] == steps[..n];
    }
  }

  // ------------------------------------------------------------------------- the client

  /** One event, and what the callback is told. */
  method TellEvent(cache: Cache, ev: Event, atoi: string -> int) returns (told: Option<seq<(string, Value)>>)
    requires cache.Valid()
    modifies cache, cache.endpoints.Values
    ensures cache.Valid() && cache.GetView() == Deliver(old(cache.GetView()), ev, atoi)
    ensures forall o :: o in cache.endpoints.Values ==> o in old(cache.endpoints.Values) || fresh(o)
    ensures told.Some? <==> FieldOf(ev.key).Some?
    ensures told.Some? ==> ListsView(told.value, cache.GetView())
  {
    var re := HandleEvent(cache, ev, atoi);
    if re.None? {
      return None;
    }
    PublishedList(re.value, cache.GetView());
    return Some(Entries(re.value));
  }

  /** The events of a listing; the callback is told after each of them, and remembers the last. */
  method HandleListing(cache: Cache, kvs: seq<(string, string)>, atoi: string -> int)
      returns (told: Option<seq<(string, Value)>>)
    requires cache.Valid()
    modifies cache, cache.endpoints.Values
    ensures cache.Valid() && cache.GetView() == Relist(old(cache.GetView()), kvs, atoi)
    ensures forall o :: o in cache.endpoints.Values ==> o in old(cache.endpoints.Values) || fresh(o)
    ensures told.Some? <==> ListsField(kvs)
    ensures told.Some? ==> ListsView(told.value, cache.GetView())
  {
    told := None;
    ghost var v := cache.GetView();
    for i := 0 to |kvs|
      invariant cache.Valid() && cache.GetView() == Relist(v, kvs[..i], atoi)
      invariant forall o :: o in cache.endpoints.Values ==> o in old(cache.endpoints.Values) || fresh(o)
      invariant told.Some? <==> ListsField(kvs[..i])
      invariant told.Some? ==> ListsView(told.value, cache.GetView())
    {
      assert kvs[..i + 1][..i] == kvs[..i];
      var more := TellEvent(cache, Event(Added, kvs[i].0, kvs[i].1), atoi);
      if more.Some? {
        told := more;
      }
    }
    assert kvs[..|kvs|] == kvs;
  }

  method HandleStep(cache: Cache, step: Step, atoi: string -> int) returns (told: Option<seq<(string, Value)>>)
    requires cache.Valid()
    modifies cache, cache.endpoints.Values
    ensures cache.Valid() && cache.GetView() == Seen(old(cache.GetView()), step, atoi)
    ensures forall o :: o in cache.endpoints.Values ==> o in old(cache.endpoints.Values) || fresh(o)
    ensures told.Some? <==> Calls(step)
    ensures told.Some? ==> ListsView(told.value, cache.GetView())
  {
    if step.Watched? {
      told := TellEvent(cache, step.ev, atoi);
    } else if step.Restarted? {
      told := HandleListing(cache, step.kvs, atoi);
    } else {
      told := None;
    }
  }

  /** One more step is logged. */
  lemma LogGrows(log: Log<Value>, steps: seq<Step>, i: nat, told: Option<seq<(string, Value)>>, atoi: string -> int)
    requires i < |steps| && Logs(log, steps[..i], atoi)
    requires told.Some? <==> Calls(steps[i])
    requires told.Some? ==> ListsView(told.value, Seen(ViewAfter(steps[..i], atoi), steps[i], atoi))
    ensures ViewAfter(steps[..i + 1], atoi) == Seen(ViewAfter(steps[..i], atoi), steps[i], atoi)
    ensures Logs(log + [told], steps[..i + 1], atoi)
  {
    var longer, now := log + [told], steps[..i + 1];
    assert now[..i] == steps[..i];
    forall k | 0 <= k < |longer|
      ensures LogsStep(longer, now, k, atoi)
    {
      if k < i {
        LoggedBefore(log, steps, i, told, k, atoi);
      } else {
        assert now[..k + 1] == now;
      }
    }
  }

  lemma LoggedBefore(log: Log<Value>, steps: seq<Step>, i: nat, told: Option<seq<(string, Value)>>, k: nat,
                     atoi: string -> int)
    requires k < i < |steps| && Logs(log, steps[..i], atoi)
    ensures LogsStep(log + [told], steps[..i + 1], k, atoi)
  {
    assert LogsStep(log, steps[..i], k, atoi);
    assert (log + [told])[k] == log[k] && steps[..i + 1][k] == steps[..i][k];
    assert steps[..i][..k + 1] == steps[..i + 1][..k + 1];
  }

  /**
   The loop over the events of a project, from an empty cache. At every moment
   in sync the callback was last told exactly the servers the store describes.
   */
  method Discover(cache: Cache, steps: seq<Step>, atoi: string -> int, ghost st: Store, ghost keys: set<string>)
      returns (log: Log<Value>)
    requires cache.Valid() && cache.endpoints == map[]
    requires History(st, steps, keys) && DistinctFields(keys)
    modifies cache
    ensures cache.Valid() && cache.GetView() == ViewAfter(steps, atoi) && Logs(log, steps, atoi)
    ensures forall k :: 0 <= k <= |steps| && InSync(st, steps[..k]) && NoMissedDeletion(steps[..k]) ==>
      ListsStore(Told(log[..k]), StoreAfter(st, steps[..k]), atoi)
  {
    log := [];
    assert cache.GetView() == map[];
    for i := 0 to |steps|
      invariant cache.Valid() && cache.GetView() == ViewAfter(steps[..i], atoi) && Logs(log, steps[..i], atoi)
      invariant forall o :: o in cache.endpoints.Values ==> fresh(o)
    {
      var told := HandleStep(cache, steps[i], atoi);
      LogGrows(log, steps, i, told, atoi);
      log := log + [told];
    }
    assert steps[..|steps|] == steps;
    forall k | 0 <= k <= |steps| && InSync(st, steps[..k]) && NoMissedDeletion(steps[..k])
      ensures ListsStore(Told(log[..k]), StoreAfter(st, steps[..k]), atoi)
    {
      HistoryPrefix(st, steps, keys, k);
      LogsPrefix(log, steps, k, atoi);
      PublishedForever(st, steps[..k], keys, log[..k], atoi);
    }
  }
}
