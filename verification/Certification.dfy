/** What the certificate and checkpoint checks decide, in terms of the certificate, the validator
    set and the BLS library alone. */
module Certification {
  import opened Types
  import opened StakeWeight
  import opened QcVerification
  import opened Checkpoints
  import opened KeyOrder
  import opened Places

  /** `j` is the first place of the set that holds this id. */
  ghost predicate FirstAt(vs: seq<Validator>, j: int, id: ValidatorId) {
    0 <= j < |vs| && vs[j].id == id && forall k :: 0 <= k < j ==> vs[k].id != id
  }

  lemma {:induction false} FindFirst(vs: seq<Validator>, id: ValidatorId)
    ensures Find(vs, id).Some? ==> exists j :: FirstAt(vs, j, id) && vs[j] == Find(vs, id).value
    ensures forall j :: FirstAt(vs, j, id) ==> Find(vs, id) == Some(vs[j])
  {
    if vs != [] && vs[0].id != id {
      var rest := vs[1..];
      FindFirst(rest, id);
      if Find(vs, id).Some? {
        var j :| FirstAt(rest, j, id) && rest[j] == Find(rest, id).value;
        assert FirstAt(vs, j + 1, id);
      }
      forall j | FirstAt(vs, j, id) ensures Find(vs, id) == Some(vs[j]) {
        assert FirstAt(rest, j - 1, id);
      }
    } else if vs != [] {
      assert FirstAt(vs, 0, id);
    }
  }

  /** Two thirds of the total, and what is left of that threshold when doubling the
      total overflows 64 bits. */
  ghost predicate MeetsTwoThirds(stake: nat, total: u64) {
    if 2 * total + 2 < TWO_64 then 3 * stake >= 2 * total
    else 3 * stake + 2 >= (2 * total + 2) % TWO_64
  }

  lemma ThresholdExact(stake: nat, total: u64)
    ensures stake >= RequiredStake(total) <==> MeetsTwoThirds(stake, total)
  {
  }

  /** The consensus key in the first entry with this id. */
  ghost predicate KeyOf(key: PublicKey, id: ValidatorId, vs: seq<Validator>) {
    exists j :: FirstAt(vs, j, id) && vs[j].consensusKey == key
  }

  /** The listed keys are the consensus keys of the listed signers, in order. */
  ghost predicate KeysAre(keys: seq<PublicKey>, signers: seq<ValidatorId>, vs: seq<Validator>) {
    && |keys| == |signers|
    && forall i :: 0 <= i < |signers| ==> KeyOf(keys[i], signers[i], vs)
  }

  /** The claimed stake is two thirds, every signer is in the set, and the library
      verifies the aggregate on the block's digest under exactly the signers' keys. */
  ghost predicate Certified(bls: Bls, qc: QuorumCertificate, set_: ValidatorSet) {
    && MeetsTwoThirds(qc.stakeSigned, set_.totalStake)
    && qc.signers != []
    && exists keys :: KeysAre(keys, qc.signers, set_.validators) && bls.verifyAggregated(qc.signature, qc.hash, keys)
  }

  lemma KeysExact(signers: seq<ValidatorId>, vs: seq<Validator>)
    ensures forall keys :: KeysAre(keys, signers, vs) <==> AllKnown(signers, vs) && keys == KeysOf(signers, vs)
  {
    forall keys
      ensures KeysAre(keys, signers, vs) <==> AllKnown(signers, vs) && keys == KeysOf(signers, vs)
    {
      if KeysAre(keys, signers, vs) {
        KeysAreFound(keys, signers, vs);
      }
      if AllKnown(signers, vs) && keys == KeysOf(signers, vs) {
        FoundAreKeys(signers, vs);
      }
    }
  }

  lemma KeysAreFound(keys: seq<PublicKey>, signers: seq<ValidatorId>, vs: seq<Validator>)
    requires KeysAre(keys, signers, vs)
    ensures AllKnown(signers, vs) && keys == KeysOf(signers, vs)
  {
    forall i | 0 <= i < |signers|
      ensures Find(vs, signers[i]).Some? && keys[i] == Find(vs, signers[i]).value.consensusKey
    {
      FindFirst(vs, signers[i]);
    }
  }

  lemma FoundAreKeys(signers: seq<ValidatorId>, vs: seq<Validator>)
    requires AllKnown(signers, vs)
    ensures KeysAre(KeysOf(signers, vs), signers, vs)
  {
    var keys := KeysOf(signers, vs);
    forall i | 0 <= i < |signers| ensures KeyOf(keys[i], signers[i], vs) {
      FindFirst(vs, signers[i]);
      assert signers[i] in signers;
      assert Find(vs, signers[i]).Some? && keys[i] == Find(vs, signers[i]).value.consensusKey;
    }
  }

  /** Acceptance of a certificate, on all inputs: exactly the certified ones. Only a
      certificate with enough claimed stake and no signer at all throws. */
  lemma VerifyQcExact(bls: Bls, qc: QuorumCertificate, set_: ValidatorSet)
    ensures VerifyQc(bls, qc, set_) == Accept <==> Certified(bls, qc, set_)
    ensures VerifyQc(bls, qc, set_) == Throws <==> MeetsTwoThirds(qc.stakeSigned, set_.totalStake) && qc.signers == []
  {
    ThresholdExact(qc.stakeSigned, set_.totalStake);
    KeysExact(qc.signers, set_.validators);
  }

  // ---- The recomputed stakes ----

  /** The stake in the first entry with this id that `counted` admits, or none. */
  ghost function FirstStake(vs: seq<Validator>, id: ValidatorId, activeOnly: bool): u64 {
    if exists j :: FirstAt(vs, j, id) && (activeOnly ==> vs[j].status == Active) then
      var j :| FirstAt(vs, j, id);
      vs[j].stake
    else 0
  }

  lemma FirstStakeIs(vs: seq<Validator>, id: ValidatorId, activeOnly: bool)
    ensures var v := Find(vs, id);
            FirstStake(vs, id, activeOnly)
            == if v.Some? && (activeOnly ==> v.value.status == Active) then v.value.stake else 0
  {
    FindFirst(vs, id);
  }

  /** The stakes of the listed signers, repetitions included, as an unbounded sum. */
  ghost function ListedStake(signers: seq<ValidatorId>, vs: seq<Validator>, activeOnly: bool): nat {
    if signers == [] then 0
    else ListedStake(signers[..|signers| - 1], vs, activeOnly) + FirstStake(vs, signers[|signers| - 1], activeOnly)
  }

  lemma WrapSum(a: nat, b: nat)
    ensures Wrap(Wrap(a) + b) == Wrap(a + b)
  {
  }

  lemma ListedSnoc(init: seq<ValidatorId>, last: ValidatorId, vs: seq<Validator>, activeOnly: bool)
    ensures ListedStake(init + [last], vs, activeOnly)
         == ListedStake(init, vs, activeOnly) + FirstStake(vs, last, activeOnly)
  {
    assert (init + [last])[..|init|] == init;
  }

  ghost function Laps(q: nat): nat {
    q * TWO_64
  }

  ghost predicate SumIs(total: u64, plain: nat) {
    exists q: nat :: plain == total + Laps(q)
  }

  lemma SumIsRemainder(total: u64, plain: nat)
    requires SumIs(total, plain)
    ensures total == plain % TWO_64
  {
  }

  lemma SumStep(total: u64, plain: nat, part: nat)
    requires SumIs(total, plain)
    requires part < TWO_64
    ensures SumIs(Wrap(total + part), plain + part)
  {
    var q: nat :| plain == total + Laps(q);
    assert plain + part == Wrap(total + part) + Laps(if total + part < TWO_64 then q else q + 1);
  }

  lemma SignedStep(init: seq<ValidatorId>, last: ValidatorId, vs: seq<Validator>)
    requires SumIs(SignedStake(init, vs), ListedStake(init, vs, false))
    ensures SumIs(SignedStake(init + [last], vs), ListedStake(init + [last], vs, false))
  {
    SignedStakeSnoc(init, last, vs);
    ListedSnoc(init, last, vs, false);
    FirstStakeIs(vs, last, false);
    SumStep(SignedStake(init, vs), ListedStake(init, vs, false), FirstStake(vs, last, false));
  }

  lemma {:induction false} SignedSumIs(signers: seq<ValidatorId>, vs: seq<Validator>)
    ensures SumIs(SignedStake(signers, vs), ListedStake(signers, vs, false))
  {
    if signers == [] {
      assert Laps(0) == 0;
    } else {
      var init, last := signers[..|signers| - 1], signers[|signers| - 1];
      SignedSumIs(init, vs);
      SignedStep(init, last, vs);
      assert init + [last] == signers;
    }
  }

  lemma ActiveStep(init: seq<ValidatorId>, last: ValidatorId, vs: seq<Validator>)
    requires SumIs(ActiveStakeSum(init, vs), ListedStake(init, vs, true))
    ensures SumIs(ActiveStakeSum(init + [last], vs), ListedStake(init + [last], vs, true))
  {
    assert (init + [last])[..|init|] == init;
    ListedSnoc(init, last, vs, true);
    FirstStakeIs(vs, last, true);
    SumStep(ActiveStakeSum(init, vs), ListedStake(init, vs, true), FirstStake(vs, last, true));
  }

  lemma {:induction false} ActiveSumIs(signers: seq<ValidatorId>, vs: seq<Validator>)
    ensures SumIs(ActiveStakeSum(signers, vs), ListedStake(signers, vs, true))
  {
    if signers == [] {
      assert Laps(0) == 0;
    } else {
      var init, last := signers[..|signers| - 1], signers[|signers| - 1];
      ActiveSumIs(init, vs);
      ActiveStep(init, last, vs);
      assert init + [last] == signers;
    }
  }

  /** Both recomputed sums are the unbounded one modulo 2^64. */
  lemma RecomputedExact(signers: seq<ValidatorId>, vs: seq<Validator>)
    ensures SignedStake(signers, vs) == ListedStake(signers, vs, false) % TWO_64
    ensures ActiveStakeSum(signers, vs) == ListedStake(signers, vs, true) % TWO_64
  {
    SignedSumIs(signers, vs);
    ActiveSumIs(signers, vs);
    SumIsRemainder(SignedStake(signers, vs), ListedStake(signers, vs, false));
    SumIsRemainder(ActiveStakeSum(signers, vs), ListedStake(signers, vs, true));
  }

  /** The epoch-transition check passes exactly when the Active stake of the listed
      signers, modulo 2^64, is two thirds. */
  lemma EpochQuorumExact(qc: QuorumCertificate, set_: ValidatorSet)
    ensures MeetsEpochQuorum(qc, set_)
       <==> MeetsTwoThirds(ListedStake(qc.signers, set_.validators, true) % TWO_64, set_.totalStake)
  {
    RecomputedExact(qc.signers, set_.validators);
    ThresholdExact(ActiveStakeSum(qc.signers, set_.validators), set_.totalStake);
  }

  // ---- Checkpoints ----

  /** A checkpoint is accepted exactly when its claimed stake is two thirds, is the
      listed signers' stake, every signer is in the set, and the library verifies the
      aggregate on the digest of its data under exactly the signers' keys. */
  lemma VerifyCheckpointExact(bls: Bls, hashOf: CheckpointData -> Hash, cp: Checkpoint, set_: ValidatorSet)
    ensures VerifyCheckpoint(bls, hashOf, cp, set_) == Accept <==>
              && MeetsTwoThirds(cp.stakeSigned, set_.totalStake)
              && cp.stakeSigned == ListedStake(cp.signers, set_.validators, false) % TWO_64
              && cp.signers != []
              && exists keys :: KeysAre(keys, cp.signers, set_.validators)
                                && bls.verifyAggregated(cp.signature, hashOf(cp.data), keys)
    ensures VerifyCheckpoint(bls, hashOf, cp, set_) == Throws <==>
              MeetsTwoThirds(cp.stakeSigned, set_.totalStake) && cp.signers == [] && cp.stakeSigned == 0
  {
    ThresholdExact(cp.stakeSigned, set_.totalStake);
    KeysExact(cp.signers, set_.validators);
    RecomputedExact(cp.signers, set_.validators);
  }

  /** The known signers of a signature map in key order, with their signatures. */
  ghost predicate SignersAre(signers: seq<ValidatorId>, list: seq<Signature>, sigs: map<ValidatorId, Signature>,
                             vs: seq<Validator>) {
    && |list| == |signers|
    && Ascends(signers)
    && (forall i :: 0 <= i < |signers| ==> signers[i] in sigs && list[i] == sigs[signers[i]])
    && (forall id :: id in signers <==> id in sigs && exists v :: v in vs && v.id == id)
  }

  lemma KnownInOrder(sigs: map<ValidatorId, Signature>, vs: seq<Validator>, signers: seq<ValidatorId>)
    requires signers == Known(Ascending(sigs.Keys), vs)
    ensures Ascends(signers) && forall id :: id in signers <==> id in sigs && exists v :: v in vs && v.id == id
  {
    AscendingIsOrder(sigs.Keys);
    KnownExact(Ascending(sigs.Keys), vs);
    KnownAscends(Ascending(sigs.Keys), vs);
  }

  lemma SignaturesLookedUp(sigs: map<ValidatorId, Signature>, signers: seq<ValidatorId>)
    requires forall id :: id in signers ==> id in sigs
    ensures forall i :: 0 <= i < |signers| ==> signers[i] in sigs && Lookup(sigs, signers)[i] == sigs[signers[i]]
  {
    forall i | 0 <= i < |signers| ensures signers[i] in sigs && Lookup(sigs, signers)[i] == sigs[signers[i]] {
      assert signers[i] in signers;
      LookupAt(sigs, signers, i);
    }
  }

  lemma KnownSignersAre(sigs: map<ValidatorId, Signature>, vs: seq<Validator>)
    ensures var signers := Known(Ascending(sigs.Keys), vs);
            SignersAre(signers, Lookup(sigs, signers), sigs, vs)
  {
    var signers := Known(Ascending(sigs.Keys), vs);
    KnownInOrder(sigs, vs, signers);
    SignaturesLookedUp(sigs, signers);
  }

  lemma {:induction false} KnownAscends(ids: seq<ValidatorId>, vs: seq<Validator>)
    requires Ascends(ids)
    ensures Ascends(Known(ids, vs))
  {
    if ids != [] {
      var init := ids[..|ids| - 1];
      KnownAscends(init, vs);
      forall i | 0 <= i < |Known(init, vs)| ensures Known(init, vs)[i] < ids[|ids| - 1] {
        assert Known(init, vs)[i] in init;
      }
    }
  }

  /** Aggregation returns a checkpoint exactly when the known signers' stake, modulo
      2^64, is two thirds and there is such a signer; it then lists exactly them, in
      key order, with that stake and the aggregate of their signatures in that order. */
  lemma AggregationExact(bls: Bls, cp: Checkpoint, sigs: map<ValidatorId, Signature>, set_: ValidatorSet,
                         signers: seq<ValidatorId>, list: seq<Signature>)
    requires SignersAre(signers, list, sigs, set_.validators)
    ensures var stake := ListedStake(signers, set_.validators, false) % TWO_64;
            AggregationOf(bls, cp, sigs, set_)
            == if !MeetsTwoThirds(stake, set_.totalStake) then TooLittleStake
               else if signers == [] then AggregateThrows
               else Signed(Checkpoint(cp.data, bls.aggregate(list), signers, stake))
  {
    var known := Known(Ascending(sigs.Keys), set_.validators);
    KnownSignersAre(sigs, set_.validators);
    AscendingUnique(signers, known);
    assert list == Lookup(sigs, known);
    RecomputedExact(signers, set_.validators);
    ThresholdExact(SignedStake(signers, set_.validators), set_.totalStake);
  }
}
