/** Lists built at their end: induction over them, and picking elements of one, the
    places picked in ascending order. */
module Places {
  /** What holds of the empty list and survives every append holds of every list. */
  lemma {:induction false} ByAppending<T(!new)>(holds: seq<T> -> bool, s: seq<T>)
    requires holds([]) && forall init, x :: holds(init) ==> holds(init + [x])
    ensures holds(s)
  {
    if s != [] {
      ByAppending(holds, s[..|s| - 1]);
      assert s[..|s| - 1] + [s[|s| - 1]] == s;
    }
  }

  lemma {:induction false} ByCounting(holds: nat -> bool, n: nat)
    requires holds(0) && forall k: nat :: k < n && holds(k) ==> holds(k + 1)
    ensures holds(n)
  {
    if n > 0 {
      ByCounting(holds, n - 1);
    }
  }

  ghost predicate Ascends(places: seq<nat>) {
    forall i, j :: 0 <= i < j < |places| ==> places[i] < places[j]
  }

  /** Exactly the places whose element `keep` holds of, in order. */
  ghost predicate PlacesOf<T>(places: seq<nat>, s: seq<T>, keep: T -> bool) {
    && Ascends(places)
    && forall i: nat :: i in places <==> i < |s| && keep(s[i])
  }

  /** `picked` lists the elements at those places. */
  ghost predicate Picks<T>(places: seq<nat>, s: seq<T>, keep: T -> bool, picked: seq<T>) {
    && PlacesOf(places, s, keep) && |places| == |picked|
    && forall k :: 0 <= k < |places| ==> places[k] < |s| && s[places[k]] == picked[k]
  }

  lemma PlacesSnoc<T>(places: seq<nat>, s: seq<T>, keep: T -> bool, x: T)
    requires PlacesOf(places, s, keep)
    ensures PlacesOf(if keep(x) then places + [|s|] else places, s + [x], keep)
  {
    assert forall k :: 0 <= k < |places| ==> places[k] in places;
    var after := if keep(x) then places + [|s|] else places;
    forall i: nat ensures i in after <==> i < |s + [x]| && keep((s + [x])[i]) {
      assert i in after <==> i in places || (keep(x) && i == |s|);
    }
  }

  lemma PicksSnoc<T>(places: seq<nat>, s: seq<T>, keep: T -> bool, picked: seq<T>, x: T)
    requires Picks(places, s, keep, picked)
    ensures keep(x) ==> Picks(places + [|s|], s + [x], keep, picked + [x])
    ensures !keep(x) ==> Picks(places, s + [x], keep, picked)
  {
    PlacesSnoc(places, s, keep, x);
  }

  /** This function goes through a list and keeps such elements. */
  ghost predicate Filters<T(!new)>(filter: seq<T> -> seq<T>, keep: T -> bool) {
    && filter([]) == []
    && forall init, x :: filter(init + [x]) == if keep(x) then filter(init) + [x] else filter(init)
  }

  lemma {:induction false} FilterPicks<T(!new)>(filter: seq<T> -> seq<T>, keep: T -> bool, s: seq<T>)
      returns (places: seq<nat>)
    requires Filters(filter, keep)
    ensures Picks(places, s, keep, filter(s))
  {
    places := [];
    if s != [] {
      var init, last := s[..|s| - 1], s[|s| - 1];
      places := FilterPicks(filter, keep, init);
      PicksSnoc(places, init, keep, filter(init), last);
      assert init + [last] == s;
      places := if keep(last) then places + [|init|] else places;
    }
  }

  /** Ascending lists of the same numbers are the same list. */
  lemma {:induction false} AscendingUnique(a: seq<nat>, b: seq<nat>)
    requires Ascends(a) && Ascends(b)
    requires forall x :: x in a <==> x in b
    ensures a == b
  {
    if a != [] { assert a[0] in b; }
    if b != [] { assert b[0] in a; }
    if a != [] {
      var m, n := |a| - 1, |b| - 1;
      assert a[m] in b && b[n] in a;
      assert a[m] == b[n];
      assert forall x :: x in a[..m] <==> x in a && x != a[m];
      assert forall x :: x in b[..n] <==> x in b && x != b[n];
      AscendingUnique(a[..m], b[..n]);
      assert a == a[..m] + [a[m]] && b == b[..n] + [b[n]];
    }
  }
}
