/** Stake held by sets of validators of one validator set, and how much stake two
    quorums must share. */
module StakeWeight {
  import opened Types

  predicate DistinctIds(vs: seq<Validator>) {
    forall i, j :: 0 <= i < j < |vs| ==> vs[i].id != vs[j].id
  }

  /** The first validator with this id. */
  function Find(vs: seq<Validator>, id: ValidatorId): (r: Option<Validator>)
    ensures r.Some? ==> r.value in vs && r.value.id == id
    ensures r.None? <==> forall v :: v in vs ==> v.id != id
  {
    if vs == [] then None
    else if vs[0].id == id then Some(vs[0])
    else
      assert vs == [vs[0]] + vs[1..];
      Find(vs[1..], id)
  }

  lemma {:induction false} FindAt(vs: seq<Validator>, i: nat)
    requires DistinctIds(vs) && i < |vs|
    ensures Find(vs, vs[i].id) == Some(vs[i])
  {
    if i > 0 {
      assert vs[1..][i - 1] == vs[i];
      FindAt(vs[1..], i - 1);
    }
  }

  function StakeOf(vs: seq<Validator>, id: ValidatorId): u64 {
    var v := Find(vs, id);
    if v.Some? then v.value.stake else 0
  }

  predicate IsActive(vs: seq<Validator>, id: ValidatorId) {
    exists v :: v in vs && v.id == id && v.status == Active
  }

  /** The Active validators, in set order. */
  function ActiveOf(vs: seq<Validator>): (r: seq<Validator>)
    ensures forall v :: v in r <==> v in vs && v.status == Active
  {
    if vs == [] then []
    else
      var v := vs[|vs| - 1];
      assert vs == vs[..|vs| - 1] + [v];
      ActiveOf(vs[..|vs| - 1]) + if v.status == Active then [v] else []
  }

  method GetActiveValidators(vs: seq<Validator>) returns (active: seq<Validator>)
    ensures active == ActiveOf(vs)
  {
    active := [];
    var i := 0;
    while i < |vs|
      invariant 0 <= i <= |vs|
      invariant active == ActiveOf(vs[..i])
    {
      assert vs[..i + 1][..i] == vs[..i];
      if vs[i].status == Active {
        active := active + [vs[i]];
      }
      i := i + 1;
    }
    assert vs[..i] == vs;
  }

  /** The stake of the Active validators whose id is in `ids`. */
  ghost function Weight(vs: seq<Validator>, ids: set<ValidatorId>): nat {
    if vs == [] then 0
    else
      var v := vs[|vs| - 1];
      Weight(vs[..|vs| - 1], ids) + if v.status == Active && v.id in ids then v.stake else 0
  }

  ghost function ActiveStake(vs: seq<Validator>): nat {
    if vs == [] then 0
    else
      var v := vs[|vs| - 1];
      ActiveStake(vs[..|vs| - 1]) + if v.status == Active then v.stake else 0
  }

  /** What every epoch's set satisfies: one entry per validator and a cached
      total that is exact. */
  ghost predicate WellFormedSet(set_: ValidatorSet) {
    DistinctIds(set_.validators) && set_.totalStake == ActiveStake(set_.validators)
  }

  lemma {:induction false} WeightInclusionExclusion(vs: seq<Validator>, a: set<ValidatorId>, b: set<ValidatorId>)
    ensures Weight(vs, a) + Weight(vs, b) == Weight(vs, a + b) + Weight(vs, a * b)
  {
    if vs != [] {
      WeightInclusionExclusion(vs[..|vs| - 1], a, b);
    }
  }

  lemma {:induction false} WeightMonotone(vs: seq<Validator>, a: set<ValidatorId>, b: set<ValidatorId>)
    requires a <= b
    ensures Weight(vs, a) <= Weight(vs, b) <= ActiveStake(vs)
  {
    if vs != [] {
      WeightMonotone(vs[..|vs| - 1], a, b);
    }
  }

  lemma {:induction false} WeightEmpty(vs: seq<Validator>)
    ensures Weight(vs, {}) == 0
  {
    if vs != [] {
      WeightEmpty(vs[..|vs| - 1]);
    }
  }

  lemma {:induction false} WeightAbsent(vs: seq<Validator>, ids: set<ValidatorId>, id: ValidatorId)
    requires forall v :: v in vs ==> v.id != id
    ensures Weight(vs, ids + {id}) == Weight(vs, ids)
  {
    if vs != [] {
      assert vs[|vs| - 1] in vs;
      WeightAbsent(vs[..|vs| - 1], ids, id);
    }
  }

  lemma {:induction false} WeightAdd(vs: seq<Validator>, ids: set<ValidatorId>, i: nat)
    requires DistinctIds(vs) && i < |vs| && vs[i].id !in ids && vs[i].status == Active
    ensures Weight(vs, ids + {vs[i].id}) == Weight(vs, ids) + vs[i].stake
  {
    if i < |vs| - 1 {
      WeightAdd(vs[..|vs| - 1], ids, i);
    } else {
      WeightAbsent(vs[..|vs| - 1], ids, vs[i].id);
    }
  }

  /** Counting one more active validator adds exactly its stake. */
  lemma WeightAddActive(vs: seq<Validator>, ids: set<ValidatorId>, id: ValidatorId)
    requires DistinctIds(vs) && IsActive(vs, id) && id !in ids
    ensures Find(vs, id).Some? && Find(vs, id).value.status == Active
    ensures Weight(vs, ids + {id}) == Weight(vs, ids) + StakeOf(vs, id)
  {
    var i :| 0 <= i < |vs| && vs[i].id == id && vs[i].status == Active;
    FindAt(vs, i);
    WeightAdd(vs, ids, i);
  }

  // ---- The quorum threshold ----

  /** The stake a certificate needs, in 64-bit arithmetic. */
  function RequiredStake(total: u64): u64 {
    Wrap(total * 2 + 2) / 3
  }

  /** The 64-bit expression is the least integer at or above two thirds of the
      total exactly when its numerator does not wrap around. */
  lemma RequiredStakeExact(total: u64)
    ensures 3 * (RequiredStake(total) - 1) < 2 * total <= 3 * RequiredStake(total)
       <==> total * 2 + 2 < TWO_64
  {
    if total * 2 + 2 >= TWO_64 {
      assert Wrap(total * 2 + 2) <= total * 2 + 2 - TWO_64;
    }
  }

  /** Two quorums of one set overlap in at least a third of the stake. */
  lemma QuorumsOverlap(vs: seq<Validator>, total: u64, a: set<ValidatorId>, b: set<ValidatorId>)
    requires total == ActiveStake(vs) && total * 2 + 2 < TWO_64
    requires Weight(vs, a) >= RequiredStake(total) && Weight(vs, b) >= RequiredStake(total)
    ensures 3 * Weight(vs, a * b) >= total
  {
    RequiredStakeExact(total);
    WeightInclusionExclusion(vs, a, b);
    WeightMonotone(vs, a + b, a + b);
  }
}
