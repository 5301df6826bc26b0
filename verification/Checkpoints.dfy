/** Aggregating validator signatures into a checkpoint, and checking one. */
module Checkpoints {
  import opened Types
  import opened StakeWeight
  import opened QcVerification
  import opened KeyOrder
  import opened Sorting

  datatype CheckpointData = CheckpointData(
    height: u64, hash: Hash, epoch: u64, timestamp: u64, stateRoot: Hash, validatorSetRoot: Hash)

  datatype Checkpoint = Checkpoint(
    data: CheckpointData, signature: Signature, signers: seq<ValidatorId>, stakeSigned: u64)

  /** AggregateThrows: the BLS library refuses an empty signature list. */
  datatype Aggregation = Signed(checkpoint: Checkpoint) | TooLittleStake | AggregateThrows

  /** The ids among `ids` that belong to the set, in order. */
  function Known(ids: seq<ValidatorId>, vs: seq<Validator>): (r: seq<ValidatorId>)
    ensures AllKnown(r, vs) && forall id :: id in r ==> id in ids
  {
    if ids == [] then []
    else
      var last := ids[|ids| - 1];
      Known(ids[..|ids| - 1], vs) + if Find(vs, last).Some? then [last] else []
  }

  lemma KnownSnoc(ids: seq<ValidatorId>, id: ValidatorId, vs: seq<Validator>)
    ensures Known(ids + [id], vs) == Known(ids, vs) + if Find(vs, id).Some? then [id] else []
  {
    assert (ids + [id])[..|ids|] == ids;
  }

  /** The signatures of these ids, each of which is in the map. */
  function Lookup(sigs: map<ValidatorId, Signature>, ids: seq<ValidatorId>): (r: seq<Signature>)
    ensures |r| == |ids|
  {
    if ids == [] then []
    else
      var id := ids[|ids| - 1];
      Lookup(sigs, ids[..|ids| - 1]) + [if id in sigs then sigs[id] else 0]
  }

  lemma LookupSnoc(sigs: map<ValidatorId, Signature>, ids: seq<ValidatorId>, id: ValidatorId)
    requires id in sigs
    ensures Lookup(sigs, ids + [id]) == Lookup(sigs, ids) + [sigs[id]]
  {
    assert (ids + [id])[..|ids|] == ids;
  }

  lemma {:induction false} LookupAt(sigs: map<ValidatorId, Signature>, ids: seq<ValidatorId>, k: nat)
    requires k < |ids| && ids[k] in sigs
    ensures Lookup(sigs, ids)[k] == sigs[ids[k]]
  {
    if k < |ids| - 1 {
      LookupAt(sigs, ids[..|ids| - 1], k);
    }
  }

  function AggregationOf(bls: Bls, cp: Checkpoint, sigs: map<ValidatorId, Signature>, set_: ValidatorSet): Aggregation {
    var signers := Known(Ascending(sigs.Keys), set_.validators);
    var stake := SignedStake(signers, set_.validators);
    if stake < RequiredStake(set_.totalStake) then TooLittleStake
    else if signers == [] then AggregateThrows
    else Signed(cp.(signature := bls.aggregate(Lookup(sigs, signers)), signers := signers, stakeSigned := stake))
  }

  function VerifyCheckpoint(bls: Bls, hashOf: CheckpointData -> Hash, cp: Checkpoint, set_: ValidatorSet): Verdict {
    if cp.stakeSigned < RequiredStake(set_.totalStake) then Reject
    else if !AllKnown(cp.signers, set_.validators) then Reject
    else if SignedStake(cp.signers, set_.validators) != cp.stakeSigned then Reject
    else if cp.signers == [] then Throws
    else if bls.verifyAggregated(cp.signature, hashOf(cp.data), KeysOf(cp.signers, set_.validators)) then Accept
    else Reject
  }

  /** The signatures of known validators, their ids and their summed stake. */
  method CollectSigners(ids: seq<ValidatorId>, sigs: map<ValidatorId, Signature>, vs: seq<Validator>)
      returns (sigList: seq<Signature>, signers: seq<ValidatorId>, total: u64)
    requires forall i :: 0 <= i < |ids| ==> ids[i] in sigs
    ensures signers == Known(ids, vs) && sigList == Lookup(sigs, signers) && total == SignedStake(signers, vs)
  {
    sigList, signers, total := [], [], 0;
    var i := 0;
    while i < |ids|
      invariant 0 <= i <= |ids|
      invariant signers == Known(ids[..i], vs) && sigList == Lookup(sigs, signers) && total == SignedStake(signers, vs)
    {
      var id := ids[i];
      var v := FindValidator(id, vs);
      assert ids[..i + 1] == ids[..i] + [id];
      KnownSnoc(ids[..i], id, vs);
      if v.Some? {
        SignedStakeSnoc(signers, id, vs);
        LookupSnoc(sigs, signers, id);
        sigList := sigList + [sigs[id]];
        signers := signers + [id];
        total := Wrap(total + v.value.stake);
      }
      i := i + 1;
    }
    assert ids[..i] == ids;
  }

  method AggregateSignatures(bls: Bls, cp: Checkpoint, sigs: map<ValidatorId, Signature>, set_: ValidatorSet)
      returns (r: Aggregation)
    ensures r == AggregationOf(bls, cp, sigs, set_)
  {
    var sigList, signers, total := CollectSigners(Ascending(sigs.Keys), sigs, set_.validators);
    if total < RequiredStake(set_.totalStake) {
      return TooLittleStake;
    }
    if sigList == [] {
      return AggregateThrows;
    }
    return Signed(cp.(signature := bls.aggregate(sigList), signers := signers, stakeSigned := total));
  }

  /** The keys and the summed stake of the signers, or that one is unknown. */
  method KeysAndStake(signers: seq<ValidatorId>, vs: seq<Validator>)
      returns (known: bool, keys: seq<PublicKey>, stake: u64)
    ensures known == AllKnown(signers, vs)
    ensures known ==> keys == KeysOf(signers, vs) && stake == SignedStake(signers, vs)
  {
    keys, stake := [], 0;
    var i := 0;
    while i < |signers|
      invariant 0 <= i <= |signers|
      invariant AllKnown(signers[..i], vs) && keys == KeysOf(signers[..i], vs)
      invariant stake == SignedStake(signers[..i], vs)
    {
      var v := FindValidator(signers[i], vs);
      if v.None? {
        return false, keys, stake;
      }
      assert signers[..i + 1] == signers[..i] + [signers[i]];
      SignedStakeSnoc(signers[..i], signers[i], vs);
      keys := keys + [v.value.consensusKey];
      stake := Wrap(stake + v.value.stake);
      i := i + 1;
    }
    assert signers[..i] == signers;
    known := true;
  }

  method VerifyCheckpointLoop(bls: Bls, hashOf: CheckpointData -> Hash, cp: Checkpoint, set_: ValidatorSet)
      returns (verdict: Verdict)
    ensures verdict == VerifyCheckpoint(bls, hashOf, cp, set_)
  {
    if cp.stakeSigned < RequiredStake(set_.totalStake) {
      return Reject;
    }
    var known, keys, stake := KeysAndStake(cp.signers, set_.validators);
    if !known {
      return Reject;
    }
    if stake != cp.stakeSigned {
      return Reject;
    }
    if keys == [] {
      return Throws;
    }
    return if bls.verifyAggregated(cp.signature, hashOf(cp.data), keys) then Accept else Reject;
  }

  ghost predicate ValidSignatures(bls: Bls, m: Hash, sigs: map<ValidatorId, Signature>, vs: seq<Validator>) {
    forall id :: id in sigs && Find(vs, id).Some? ==>
      bls.validSignature(sigs[id], m, Find(vs, id).value.consensusKey)
  }

  /** Whatever aggregation returns from valid signatures, verification accepts; a
      positive required stake leaves no exception. */
  lemma AggregatedIsAccepted(bls: Bls, hashOf: CheckpointData -> Hash, cp: Checkpoint,
                             sigs: map<ValidatorId, Signature>, set_: ValidatorSet)
    requires bls.Complete() && ValidSignatures(bls, hashOf(cp.data), sigs, set_.validators)
    ensures var r := AggregationOf(bls, cp, sigs, set_);
            && (r.Signed? ==>
                  r.checkpoint.data == cp.data && VerifyCheckpoint(bls, hashOf, r.checkpoint, set_) == Accept)
            && (RequiredStake(set_.totalStake) > 0 ==> !r.AggregateThrows?)
            && (0 < set_.totalStake && set_.totalStake * 2 + 2 < TWO_64 ==> !r.AggregateThrows?)
  {
    RequiredStakeExact(set_.totalStake);
    var r := AggregationOf(bls, cp, sigs, set_);
    if r.Signed? {
      var list := Lookup(sigs, r.checkpoint.signers);
      var keys := KeysOf(r.checkpoint.signers, set_.validators);
      forall i | 0 <= i < |list|
        ensures r.checkpoint.signers[i] in sigs && list[i] == sigs[r.checkpoint.signers[i]]
      {
        assert r.checkpoint.signers[i] in r.checkpoint.signers;
        LookupAt(sigs, r.checkpoint.signers, i);
      }
      assert bls.verifyAggregated(bls.aggregate(list), hashOf(cp.data), keys);
    }
  }

  // ---- What a signed checkpoint stands for ----

  ghost predicate CountsForQuorum(v: Validator) {
    v.status == Active || v.stake == 0
  }

  lemma WeightSkips(vs: seq<Validator>, ids: set<ValidatorId>, id: ValidatorId)
    requires DistinctIds(vs) && Find(vs, id).Some? && Find(vs, id).value.status != Active && id !in ids
    ensures Weight(vs, ids + {id}) == Weight(vs, ids)
  {
    var i :| 0 <= i < |vs| && vs[i] == Find(vs, id).value;
    WeightInactive(vs, ids, i);
  }

  lemma {:induction false} WeightInactive(vs: seq<Validator>, ids: set<ValidatorId>, i: nat)
    requires DistinctIds(vs) && i < |vs| && vs[i].status != Active
    ensures Weight(vs, ids + {vs[i].id}) == Weight(vs, ids)
  {
    if i < |vs| - 1 {
      WeightInactive(vs[..|vs| - 1], ids, i);
    } else {
      WeightAbsent(vs[..|vs| - 1], ids, vs[i].id);
    }
  }

  /** The stakes of the listed validators, as an unbounded sum. */
  function PlainStake(ids: seq<ValidatorId>, vs: seq<Validator>): nat {
    if ids == [] then 0 else PlainStake(ids[..|ids| - 1], vs) + StakeOf(vs, ids[|ids| - 1])
  }

  lemma {:induction false} PlainStakeFits(ids: seq<ValidatorId>, vs: seq<Validator>)
    requires PlainStake(ids, vs) < TWO_64
    ensures SignedStake(ids, vs) == PlainStake(ids, vs)
  {
    if ids != [] {
      PlainStakeFits(ids[..|ids| - 1], vs);
    }
  }

  lemma AddSigner(vs: seq<Validator>, ids: set<ValidatorId>, id: ValidatorId)
    requires DistinctIds(vs) && Find(vs, id).Some? && id !in ids
    ensures var v := Find(vs, id).value;
            Weight(vs, ids + {id}) == Weight(vs, ids) + if v.status == Active then v.stake else 0
  {
    var v := Find(vs, id).value;
    if v.status == Active {
      WeightAddActive(vs, ids, id);
    } else {
      WeightSkips(vs, ids, id);
    }
  }

  /** The claimed stake is never below the Active stake behind it, and equals it
      exactly when every listed validator is Active or has no stake. */
  lemma {:induction false} PlainStakeAgainstWeight(ids: seq<ValidatorId>, vs: seq<Validator>)
    requires DistinctIds(vs) && NoDuplicates(ids) && AllKnown(ids, vs)
    ensures PlainStake(ids, vs) >= Weight(vs, Members(ids))
    ensures PlainStake(ids, vs) == Weight(vs, Members(ids))
       <==> forall id :: id in ids ==> CountsForQuorum(Find(vs, id).value)
  {
    if ids == [] {
      assert Members(ids) == {};
      WeightEmpty(vs);
    } else {
      var init, last := ids[..|ids| - 1], ids[|ids| - 1];
      PlainStakeAgainstWeight(init, vs);
      assert ids == init + [last];
      assert Members(ids) == Members(init) + {last};
      AddSigner(vs, Members(init), last);
    }
  }

  lemma {:induction false} KnownExact(ids: seq<ValidatorId>, vs: seq<Validator>)
    ensures forall id :: id in Known(ids, vs) <==> id in ids && Find(vs, id).Some?
    ensures NoDuplicates(ids) ==> NoDuplicates(Known(ids, vs))
  {
    if ids != [] {
      var init, last := ids[..|ids| - 1], ids[|ids| - 1];
      KnownExact(init, vs);
      assert ids == init + [last];
    }
  }

  lemma SignersExact(sigs: map<ValidatorId, Signature>, vs: seq<Validator>)
    ensures var signers := Known(Ascending(sigs.Keys), vs);
            && NoDuplicates(signers) && forall id :: id in signers <==> id in sigs && Find(vs, id).Some?
  {
    AscendingIsOrder(sigs.Keys);
    KnownExact(Ascending(sigs.Keys), vs);
  }

  /** Unlike a block certificate, a checkpoint counts every known signer. For every set
      and signature map whose known stakes sum to less than 2^64, the stake a signed
      checkpoint claims is the Active stake behind it if and only if every known signer
      is Active or has no stake. */
  lemma CheckpointStakeExact(bls: Bls, cp: Checkpoint, sigs: map<ValidatorId, Signature>, set_: ValidatorSet)
    requires DistinctIds(set_.validators)
    requires PlainStake(Known(Ascending(sigs.Keys), set_.validators), set_.validators) < TWO_64
    requires AggregationOf(bls, cp, sigs, set_).Signed?
    ensures var signed := AggregationOf(bls, cp, sigs, set_).checkpoint;
            signed.stakeSigned == Weight(set_.validators, Members(signed.signers))
            <==> forall id :: id in sigs && Find(set_.validators, id).Some? ==>
                   CountsForQuorum(Find(set_.validators, id).value)
  {
    var signers := Known(Ascending(sigs.Keys), set_.validators);
    SignersExact(sigs, set_.validators);
    PlainStakeFits(signers, set_.validators);
    PlainStakeAgainstWeight(signers, set_.validators);
  }

  /** So signatures of Active validators only make a real quorum. */
  lemma ActiveSignersAreQuorum(bls: Bls, cp: Checkpoint, sigs: map<ValidatorId, Signature>, set_: ValidatorSet)
    requires WellFormedSet(set_) && AggregationOf(bls, cp, sigs, set_).Signed?
    requires forall id :: id in sigs && Find(set_.validators, id).Some? ==>
               Find(set_.validators, id).value.status == Active
    ensures var signed := AggregationOf(bls, cp, sigs, set_).checkpoint;
            && signed.stakeSigned == Weight(set_.validators, Members(signed.signers))
            && Weight(set_.validators, Members(signed.signers)) >= RequiredStake(set_.totalStake)
  {
    var vs := set_.validators;
    var signers := Known(Ascending(sigs.Keys), vs);
    SignersExact(sigs, vs);
    PlainStakeAgainstWeight(signers, vs);
    WeightMonotone(vs, Members(signers), Members(signers));
    PlainStakeFits(signers, vs);
  }

  /** A standby validator with enough stake signs a checkpoint alone, with no Active
      stake behind it at all. */
  lemma StandbyAloneSuffices(bls: Bls, cp: Checkpoint, id: ValidatorId, sig: Signature, set_: ValidatorSet)
    requires DistinctIds(set_.validators) && Find(set_.validators, id).Some?
    requires Find(set_.validators, id).value.status != Active
    ensures StakeOf(set_.validators, id) >= RequiredStake(set_.totalStake)
       <==> !AggregationOf(bls, cp, map[id := sig], set_).TooLittleStake?
    ensures AggregationOf(bls, cp, map[id := sig], set_).Signed? ==>
              Weight(set_.validators, Members(AggregationOf(bls, cp, map[id := sig], set_).checkpoint.signers)) == 0
  {
    OneSigner(id, sig, set_.validators);
    WeightEmpty(set_.validators);
    WeightSkips(set_.validators, {}, id);
    assert Members([id]) == {} + {id};
  }

  lemma OneSigner(id: ValidatorId, sig: Signature, vs: seq<Validator>)
    requires Find(vs, id).Some?
    ensures Ascending(map[id := sig].Keys) == [id] && Known([id], vs) == [id]
    ensures SignedStake([id], vs) == StakeOf(vs, id)
  {
    assert map[id := sig].Keys == {id};
    assert {id} - {id} == {};
    assert [] + [id] == [id];
    KnownSnoc([], id, vs);
    SignedStakeSnoc([], id, vs);
  }
}
