/** The order in which a loop visits the keys of a map: any, each key once. */
module MapOrder {

  ghost predicate IsOrder(order: seq<string>, keys: set<string>) {
    && (forall i :: 0 <= i < |order| ==> order[i] in keys)
    && (forall i, j :: 0 <= i < j < |order| ==> order[i] != order[j])
    && (forall k :: k in keys ==> k in order)
  }

  method SomeOrder(keys: set<string>) returns (order: seq<string>)
    ensures IsOrder(order, keys)
  {
    order := [];
    var left := keys;
    while left != {}
      invariant left <= keys
      invariant forall i :: 0 <= i < |order| ==> order[i] in keys && order[i] !in left
      invariant forall i, j :: 0 <= i < j < |order| ==> order[i] != order[j]
      invariant forall k :: k in keys && k !in left ==> k in order
      decreases |left|
    {
      var k :| k in left;
      left := left - {k};
      order := order + [k];
    }
  }
}
