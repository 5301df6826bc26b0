/** Iterating a std::map visits its keys in ascending order. */
module KeyOrder {
  lemma {:induction false} MinExists(keys: set<nat>, x: nat)
    requires x in keys
    ensures exists k :: k in keys && forall j :: j in keys ==> k <= j
    decreases x
  {
    if j :| j in keys && j < x {
      MinExists(keys, j);
    }
  }

  function Min(keys: set<nat>): (k: nat)
    requires keys != {}
    ensures k in keys && forall j :: j in keys ==> k <= j
  {
    assert exists k :: k in keys && forall j :: j in keys ==> k <= j by {
      var x :| x in keys;
      MinExists(keys, x);
    }
    var k :| k in keys && forall j :: j in keys ==> k <= j;
    k
  }

  /** The keys in ascending order, each once. */
  function Ascending(keys: set<nat>): (r: seq<nat>)
    ensures |r| == |keys|
    ensures forall i :: 0 <= i < |r| ==> r[i] in keys
  {
    if keys == {} then []
    else
      var k := Min(keys);
      [k] + Ascending(keys - {k})
  }

  lemma {:induction false} AscendingIsOrder(keys: set<nat>)
    ensures forall k :: k in Ascending(keys) <==> k in keys
    ensures forall i, j :: 0 <= i < j < |Ascending(keys)| ==> Ascending(keys)[i] < Ascending(keys)[j]
  {
    if keys != {} {
      AscendingIsOrder(keys - {Min(keys)});
    }
  }

  method KeysInOrder(keys: set<nat>) returns (ids: seq<nat>)
    ensures forall k :: k in ids <==> k in keys
    ensures forall i, j :: 0 <= i < j < |ids| ==> ids[i] < ids[j]
  {
    AscendingIsOrder(keys);
    ids := Ascending(keys);
  }
}
