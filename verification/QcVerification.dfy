/** Checking a certificate against a validator set. */
module QcVerification {
  import opened Types
  import opened StakeWeight
  import opened Sorting

  /** The BLS library as far as certificates use it. `aggregate` and
      `verifyAggregated` throw on empty lists. */
  datatype Bls = Bls(
    validSignature: (Signature, Hash, PublicKey) -> bool,
    aggregate: seq<Signature> -> Signature,
    verifyAggregated: (Signature, Hash, seq<PublicKey>) -> bool)
  {
    /** Valid signatures on one message aggregate to a valid signature. */
    ghost predicate Complete() {
      forall sigs: seq<Signature>, m: Hash, keys: seq<PublicKey>
        {:trigger verifyAggregated(aggregate(sigs), m, keys)} ::
        |sigs| == |keys| > 0 && (forall i :: 0 <= i < |sigs| ==> validSignature(sigs[i], m, keys[i]))
        ==> verifyAggregated(aggregate(sigs), m, keys)
    }
  }

  /** Throws: the library refuses an empty key list. */
  datatype Verdict = Accept | Reject | Throws

  predicate CheckSupermajority(qc: QuorumCertificate, set_: ValidatorSet) {
    qc.stakeSigned >= RequiredStake(set_.totalStake)
  }

  predicate AllKnown(signers: seq<ValidatorId>, vs: seq<Validator>) {
    forall id :: id in signers ==> Find(vs, id).Some?
  }

  function KeysOf(signers: seq<ValidatorId>, vs: seq<Validator>): (r: seq<PublicKey>)
    requires AllKnown(signers, vs)
    ensures |r| == |signers|
    ensures forall i :: 0 <= i < |signers| ==> r[i] == Find(vs, signers[i]).value.consensusKey
  {
    seq(|signers|, i requires 0 <= i < |signers| => Find(vs, signers[i]).value.consensusKey)
  }

  function AggregateVerdict(bls: Bls, qc: QuorumCertificate, vs: seq<Validator>): Verdict {
    if !AllKnown(qc.signers, vs) then Reject
    else if qc.signers == [] then Throws
    else if bls.verifyAggregated(qc.signature, qc.hash, KeysOf(qc.signers, vs)) then Accept
    else Reject
  }

  function VerifyQc(bls: Bls, qc: QuorumCertificate, set_: ValidatorSet): Verdict {
    if !CheckSupermajority(qc, set_) then Reject
    else AggregateVerdict(bls, qc, set_.validators)
  }

  /** The stake behind a list of signers; an unknown signer voids it. */
  function SignerStake(signers: seq<ValidatorId>, vs: seq<Validator>): u64 {
    if !AllKnown(signers, vs) then 0 else SignedStake(signers, vs)
  }

  function SignedStake(signers: seq<ValidatorId>, vs: seq<Validator>): u64 {
    if signers == [] then 0
    else Wrap(SignedStake(signers[..|signers| - 1], vs) + StakeOf(vs, signers[|signers| - 1]))
  }

  lemma SignedStakeSnoc(signers: seq<ValidatorId>, id: ValidatorId, vs: seq<Validator>)
    ensures SignedStake(signers + [id], vs) == Wrap(SignedStake(signers, vs) + StakeOf(vs, id))
  {
    assert (signers + [id])[..|signers|] == signers;
  }

  /** The epoch-transition check counts active signers only. */
  function ActiveStakeSum(signers: seq<ValidatorId>, vs: seq<Validator>): u64 {
    if signers == [] then 0
    else
      var v := Find(vs, signers[|signers| - 1]);
      var before := ActiveStakeSum(signers[..|signers| - 1], vs);
      if v.Some? && v.value.status == Active then Wrap(before + v.value.stake) else before
  }

  predicate MeetsEpochQuorum(qc: QuorumCertificate, set_: ValidatorSet) {
    ActiveStakeSum(qc.signers, set_.validators) >= RequiredStake(set_.totalStake)
  }

  method FindValidator(id: ValidatorId, vs: seq<Validator>) returns (r: Option<Validator>)
    ensures r == Find(vs, id)
  {
    var i := 0;
    while i < |vs|
      invariant 0 <= i <= |vs|
      invariant Find(vs[i..], id) == Find(vs, id)
    {
      assert vs[i..][1..] == vs[i + 1..];
      if vs[i].id == id {
        return Some(vs[i]);
      }
      i := i + 1;
    }
    return None;
  }

  method VerifySignersInSet(qc: QuorumCertificate, vs: seq<Validator>) returns (ok: bool)
    ensures ok == AllKnown(qc.signers, vs)
  {
    var i := 0;
    while i < |qc.signers|
      invariant 0 <= i <= |qc.signers|
      invariant AllKnown(qc.signers[..i], vs)
    {
      var v := FindValidator(qc.signers[i], vs);
      if v.None? {
        return false;
      }
      i := i + 1;
    }
    assert qc.signers[..i] == qc.signers;
    return true;
  }

  method VerifyAggregatedSignature(bls: Bls, qc: QuorumCertificate, vs: seq<Validator>) returns (verdict: Verdict)
    ensures verdict == AggregateVerdict(bls, qc, vs)
  {
    var keys: seq<PublicKey> := [];
    var i := 0;
    while i < |qc.signers|
      invariant 0 <= i <= |qc.signers|
      invariant AllKnown(qc.signers[..i], vs) && keys == KeysOf(qc.signers[..i], vs)
    {
      var v := FindValidator(qc.signers[i], vs);
      if v.None? {
        return Reject;
      }
      keys := keys + [v.value.consensusKey];
      assert qc.signers[..i + 1] == qc.signers[..i] + [qc.signers[i]];
      i := i + 1;
    }
    assert qc.signers[..i] == qc.signers;
    if keys == [] {
      return Throws;
    }
    return if bls.verifyAggregated(qc.signature, qc.hash, keys) then Accept else Reject;
  }

  method CalculateSignerStake(qc: QuorumCertificate, vs: seq<Validator>) returns (total: u64)
    ensures total == SignerStake(qc.signers, vs)
  {
    total := 0;
    var i := 0;
    while i < |qc.signers|
      invariant 0 <= i <= |qc.signers|
      invariant AllKnown(qc.signers[..i], vs) && total == SignedStake(qc.signers[..i], vs)
    {
      var v := FindValidator(qc.signers[i], vs);
      if v.None? {
        return 0;
      }
      assert qc.signers[..i + 1][..i] == qc.signers[..i];
      total := Wrap(total + v.value.stake);
      i := i + 1;
    }
    assert qc.signers[..i] == qc.signers;
  }

  method RequireEpochTransitionQc(qc: QuorumCertificate, set_: ValidatorSet) returns (ok: bool)
    ensures ok == MeetsEpochQuorum(qc, set_)
  {
    var total: u64 := 0;
    var i := 0;
    while i < |qc.signers|
      invariant 0 <= i <= |qc.signers|
      invariant total == ActiveStakeSum(qc.signers[..i], set_.validators)
    {
      var v := FindValidator(qc.signers[i], set_.validators);
      assert qc.signers[..i + 1][..i] == qc.signers[..i];
      if v.Some? && v.value.status == Active {
        total := Wrap(total + v.value.stake);
      }
      i := i + 1;
    }
    assert qc.signers[..i] == qc.signers;
    return total >= RequiredStake(set_.totalStake);
  }

  // ---- Certificates from distinct active signers ----

  ghost function Members(ids: seq<ValidatorId>): set<ValidatorId> {
    set id | id in ids
  }

  /** A certificate that really carries two thirds: distinct active signers whose
      stake is the claimed stake. */
  ghost predicate Carried(qc: QuorumCertificate, set_: ValidatorSet) {
    && qc.signers != [] && NoDuplicates(qc.signers)
    && (forall id :: id in qc.signers ==> IsActive(set_.validators, id))
    && qc.stakeSigned == Weight(set_.validators, Members(qc.signers))
    && qc.stakeSigned >= RequiredStake(set_.totalStake)
  }

  lemma SignerSumsAreWeight(ids: seq<ValidatorId>, set_: ValidatorSet)
    requires WellFormedSet(set_) && NoDuplicates(ids)
    requires forall id :: id in ids ==> IsActive(set_.validators, id)
    ensures AllKnown(ids, set_.validators)
    ensures SignedStake(ids, set_.validators) == Weight(set_.validators, Members(ids))
    ensures ActiveStakeSum(ids, set_.validators) == Weight(set_.validators, Members(ids))
  {
    forall id | id in ids ensures Find(set_.validators, id).Some? && Find(set_.validators, id).value.status == Active {
      WeightAddActive(set_.validators, {}, id);
    }
    SignedIsWeight(ids, set_);
    SumsAgree(ids, set_.validators);
  }

  lemma {:induction false} SignedIsWeight(ids: seq<ValidatorId>, set_: ValidatorSet)
    requires WellFormedSet(set_) && NoDuplicates(ids)
    requires forall id :: id in ids ==> IsActive(set_.validators, id)
    ensures SignedStake(ids, set_.validators) == Weight(set_.validators, Members(ids))
  {
    var vs := set_.validators;
    if ids == [] {
      assert Members(ids) == {};
      WeightEmpty(vs);
    } else {
      var init, last := ids[..|ids| - 1], ids[|ids| - 1];
      SignedIsWeight(init, set_);
      assert ids == init + [last];
      assert Members(ids) == Members(init) + {last};
      WeightAddActive(vs, Members(init), last);
      WeightMonotone(vs, Members(ids), Members(ids));
      SignedStakeSnoc(init, last, vs);
    }
  }

  lemma {:induction false} SumsAgree(ids: seq<ValidatorId>, vs: seq<Validator>)
    requires forall id :: id in ids ==> Find(vs, id).Some? && Find(vs, id).value.status == Active
    ensures ActiveStakeSum(ids, vs) == SignedStake(ids, vs)
  {
    if ids != [] {
      var init, last := ids[..|ids| - 1], ids[|ids| - 1];
      SumsAgree(init, vs);
      assert ids == init + [last];
      SignedStakeSnoc(init, last, vs);
      ActiveStakeSnoc(init, last, vs);
    }
  }

  lemma ActiveStakeSnoc(signers: seq<ValidatorId>, id: ValidatorId, vs: seq<Validator>)
    requires Find(vs, id).Some? && Find(vs, id).value.status == Active
    ensures ActiveStakeSum(signers + [id], vs) == Wrap(ActiveStakeSum(signers, vs) + StakeOf(vs, id))
  {
    assert (signers + [id])[..|signers|] == signers;
  }

  ghost predicate SignedBy(bls: Bls, sigs: seq<Signature>, m: Hash, signers: seq<ValidatorId>, vs: seq<Validator>) {
    && AllKnown(signers, vs) && |sigs| == |signers|
    && forall i :: 0 <= i < |sigs| ==> bls.validSignature(sigs[i], m, Find(vs, signers[i]).value.consensusKey)
  }

  /** Such a certificate, aggregated from valid signatures, passes every check in
      the program, and the stake it claims is the stake recomputed from it. */
  lemma CarriedIsAccepted(bls: Bls, qc: QuorumCertificate, set_: ValidatorSet, sigs: seq<Signature>)
    requires bls.Complete() && WellFormedSet(set_) && Carried(qc, set_)
    requires qc.signature == bls.aggregate(sigs)
    requires SignedBy(bls, sigs, qc.hash, qc.signers, set_.validators)
    ensures VerifyQc(bls, qc, set_) == Accept
    ensures SignerStake(qc.signers, set_.validators) == qc.stakeSigned
    ensures MeetsEpochQuorum(qc, set_)
  {
    SignerSumsAreWeight(qc.signers, set_);
    var keys := KeysOf(qc.signers, set_.validators);
    assert bls.verifyAggregated(bls.aggregate(sigs), qc.hash, keys);
  }
}
