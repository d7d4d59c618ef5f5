/**
 The endpoint cache behind a discovery callback: a map of endpoint objects
 whose fields are updated in place, and the list published after each update.
 Both discovery clients use the same cache.
 */
module EndpointCache {
  import opened Wrappers
  import opened MapOrder

  datatype Operation = ADD | DELETE | UPDATE | SYNC

  /** URL and weight of a cached server. */
  datatype Value = Value(url: string, weight: int)

  type View = map<string, Value>

  /** An update as values: mode 0 is about the URL, 1 about the weight, 2 about both. */
  datatype Update = Update(name: string, value: Value, mode: int)

  function Merge(cached: Value, incoming: Value, mode: int): Value {
    if mode == 0 then cached.(url := incoming.url)
    else if mode == 1 then cached.(weight := incoming.weight)
    else if mode == 2 then incoming
    else cached
  }

  /** What one update does to the cached values. */
  function Apply(v: View, op: Operation, u: Update): View {
    match op
    case ADD => if u.name in v then v[u.name := Merge(v[u.name], u.value, u.mode)] else v[u.name := u.value]
    case SYNC => if u.name in v then v[u.name := Merge(v[u.name], u.value, u.mode)] else v[u.name := u.value]
    case UPDATE => if u.name in v then v[u.name := Merge(v[u.name], u.value, u.mode)] else v
    case DELETE =>
      if u.name !in v then v
      else if u.mode == 2 then v - {u.name}
      else v[u.name := Merge(v[u.name], Value("", 0), u.mode)]
  }

  function ApplyAll(v: View, op: Operation, us: seq<Update>): View {
    if us == [] then v else Apply(ApplyAll(v, op, us[..|us| - 1]), op, us[|us| - 1])
  }

  lemma ApplyAllStep(v: View, op: Operation, us: seq<Update>, i: nat)
    requires i < |us|
    ensures ApplyAll(v, op, us[..i + 1]) == Apply(ApplyAll(v, op, us[..i]), op, us[i])
  {
    assert us[..i + 1][..i] == us[..i];
  }

  class Endpoint {
    const name: string
    var url: string
    var weight: int
    const mode: int

    constructor (name: string, url: string, weight: int, mode: int)
      ensures this.name == name && this.url == url && this.weight == weight && this.mode == mode
    {
      this.name, this.url, this.weight, this.mode := name, url, weight, mode;
    }

    function Val(): Value
      reads this
    {
      Value(url, weight)
    }

    function AsUpdate(): Update
      reads this
    {
      Update(name, Val(), mode)
    }
  }

  class Cache {
    var endpoints: map<string, Endpoint>

    constructor ()
      ensures Valid() && GetView() == map[]
    {
      endpoints := map[];
    }

    /** Every name has its own object. */
    ghost predicate Valid()
      reads this
    {
      forall n :: n in endpoints ==> endpoints[n].name == n
    }

    ghost function GetView(): View
      reads this, endpoints.Values
    {
      map n | n in endpoints :: endpoints[n].Val()
    }

    /** One endpoint of an update; a new server keeps the caller's object. */
    method UpdateOne(op: Operation, e: Endpoint)
      requires Valid() && e !in endpoints.Values
      modifies this, endpoints.Values
      ensures Valid() && GetView() == Apply(old(GetView()), op, old(e.AsUpdate()))
      ensures endpoints.Values <= old(endpoints.Values) + {e}
    {
      if op == DELETE {
        DeleteOne(e);
      } else if e.name in endpoints {
        MergeOne(e);
      } else if op != UPDATE {
        endpoints := endpoints[e.name := e];
      }
    }

    /** Overwrites the fields the mode names, in the cached object. */
    method MergeOne(e: Endpoint)
      requires Valid() && e !in endpoints.Values && e.name in endpoints
      modifies endpoints.Values
      ensures GetView() == old(GetView())[e.name := Merge(old(GetView())[e.name], e.Val(), e.mode)]
    {
      var cached := endpoints[e.name];
      if e.mode == 0 {
        cached.url := e.url;
      }
      if e.mode == 1 {
        cached.weight := e.weight;
      }
      if e.mode == 2 {
        cached.url := e.url;
        cached.weight := e.weight;
      }
    }

    method DeleteOne(e: Endpoint)
      requires Valid() && e !in endpoints.Values
      modifies this, endpoints.Values
      ensures Valid() && GetView() == Apply(old(GetView()), DELETE, e.AsUpdate())
      ensures endpoints.Values <= old(endpoints.Values)
    {
      if e.name in endpoints {
        var cached := endpoints[e.name];
        if e.mode == 0 {
          cached.url := "";
        }
        if e.mode == 1 {
          cached.weight := 0;
        }
      }
      if e.mode == 2 {
        endpoints := endpoints - {e.name};
      }
    }

    /** The endpoints handed to the callback: those with a URL, each once. */
    method Publish() returns (re: seq<Endpoint>)
      requires Valid()
      ensures Publishes(re, GetView())
    {
      re := [];
      var order := SomeOrder(endpoints.Keys);
      for k := 0 to |order|
        invariant forall i :: 0 <= i < |re| ==> Listed(re[i]) && re[i].name in order[..k]
        invariant forall n :: n in order[..k] && endpoints[n].url != "" ==> endpoints[n] in re
        invariant forall i, j :: 0 <= i < j < |re| ==> re[i].name != re[j].name
      {
        var v := endpoints[order[k]];
        if v.url != "" {
          re := re + [v];
        }
        assert order[..k + 1] == order[..k] + [order[k]];
      }
      assert order[..|order|] == order;
      ghost var v := GetView();
      forall n | n in v && v[n].url != ""
        ensures exists e :: e in re && e.name == n
      {
        assert endpoints[n] in re;
      }
    }

    ghost predicate Listed(e: Endpoint)
      reads this, e
    {
      e.name in endpoints && endpoints[e.name] == e && e.url != ""
    }

    method ApplyEach(op: Operation, es: seq<Endpoint>, ghost us: seq<Update>)
      requires Valid() && Incoming(es, us)
      requires forall i :: 0 <= i < |es| ==> es[i] !in endpoints.Values
      modifies this, endpoints.Values, es
      ensures Valid() && GetView() == ApplyAll(old(GetView()), op, us)
      ensures forall o :: o in endpoints.Values ==> o in old(endpoints.Values) || o in es
    {
      for i := 0 to |es|
        invariant Valid() && GetView() == ApplyAll(old(GetView()), op, us[..i])
        invariant forall o :: o in endpoints.Values ==> o in old(endpoints.Values) || o in es
        invariant forall k :: i <= k < |es| ==> us[k] == es[k].AsUpdate() && es[k] !in endpoints.Values
      {
        ApplyAllStep(old(GetView()), op, us, i);
        assert forall k :: i < k < |es| ==> es[k] != es[i];
        UpdateOne(op, es[i]);
      }
      assert us[..|us|] == us;
    }

    /** UpdateEndpoints: applies an update and returns what is published. */
    method UpdateEndpoints(op: Operation, es: seq<Endpoint>, ghost us: seq<Update>) returns (re: seq<Endpoint>)
      requires Valid() && Incoming(es, us)
      requires forall i :: 0 <= i < |es| ==> es[i] !in endpoints.Values
      modifies this, endpoints.Values, es
      ensures Valid() && GetView() == ApplyAll(old(GetView()), op, us)
      ensures forall o :: o in endpoints.Values ==> o in old(endpoints.Values) || o in es
      ensures Publishes(re, GetView())
    {
      ApplyEach(op, es, us);
      re := Publish();
    }
  }

  /** The endpoints of an update are separate objects with these values. */
  ghost predicate Incoming(es: seq<Endpoint>, us: seq<Update>)
    reads es
  {
    && (forall i, j :: 0 <= i < j < |es| ==> es[i] != es[j])
    && |us| == |es|
    && forall i :: 0 <= i < |es| ==> us[i] == es[i].AsUpdate()
  }

  /** A published list and the cached values it stands for. */
  ghost predicate Publishes(re: seq<Endpoint>, v: View)
    reads re
  {
    && (forall i, j :: 0 <= i < j < |re| ==> re[i].name != re[j].name)
    && (forall e :: e in re ==> e.name in v && v[e.name] == e.Val() && e.url != "")
    && (forall n :: n in v && v[n].url != "" ==> exists e :: e in re && e.name == n)
  }

  // -------------------------------------------------------------- what a callback is told

  ghost predicate NamedOnce<T>(entries: seq<(string, T)>) {
    forall i, j :: 0 <= i < j < |entries| ==> entries[i].0 != entries[j].0
  }

  /** What a callback was told about each server in each step of a run; None if it was not called. */
  type Log<T> = seq<Option<seq<(string, T)>>>

  /** What it was told last. */
  function Told<T>(log: Log<T>): seq<(string, T)> {
    if log == [] then []
    else if log[|log| - 1].Some? then log[|log| - 1].value
    else Told(log[..|log| - 1])
  }
}
