/** Collecting votes per (height, hash), weighting them by stake, and cutting a
    certificate at two thirds of the total. */
module VoteAggregation {
  import opened Types
  import opened StakeWeight

  datatype BlockKey = BlockKey(height: u64, hash: Hash)

  datatype BlockVotes = BlockVotes(votes: seq<Vote>, voted: map<ValidatorId, bool>, totalStake: u64)

  type VoteBook = map<BlockKey, BlockVotes>

  type Aggregate = seq<Signature> -> Signature

  // ---- The two operations on values ----

  function Entry(book: VoteBook, key: BlockKey): BlockVotes {
    if key in book then book[key] else BlockVotes([], map[], 0)
  }

  predicate HasVoted(bv: BlockVotes, id: ValidatorId) {
    id in bv.voted && bv.voted[id]
  }

  predicate Counts(vs: seq<Validator>, book: VoteBook, vote: Vote) {
    IsActive(vs, vote.validator) && !HasVoted(Entry(book, BlockKey(vote.height, vote.hash)), vote.validator)
  }

  function WithVote(vs: seq<Validator>, book: VoteBook, vote: Vote): VoteBook {
    if Counts(vs, book, vote) then
      var key := BlockKey(vote.height, vote.hash);
      var bv := Entry(book, key);
      book[key := BlockVotes(
             bv.votes + [vote],
             bv.voted[vote.validator := true],
             Wrap(bv.totalStake + StakeOf(vs, vote.validator)))]
    else book
  }

  predicate HasSupermajority(set_: ValidatorSet, book: VoteBook, key: BlockKey) {
    key in book && book[key].totalStake >= RequiredStake(set_.totalStake)
  }

  function SignersOf(votes: seq<Vote>): (r: seq<ValidatorId>)
    ensures |r| == |votes| && forall i :: 0 <= i < |votes| ==> r[i] == votes[i].validator
  {
    seq(|votes|, i requires 0 <= i < |votes| => votes[i].validator)
  }

  function SignaturesOf(votes: seq<Vote>): (r: seq<Signature>)
    ensures |r| == |votes| && forall i :: 0 <= i < |votes| ==> r[i] == votes[i].signature
  {
    seq(|votes|, i requires 0 <= i < |votes| => votes[i].signature)
  }

  function CertificateFor(set_: ValidatorSet, aggregate: Aggregate, book: VoteBook, key: BlockKey, view: u64)
    : Option<QuorumCertificate>
  {
    if HasSupermajority(set_, book, key) then
      Some(QuorumCertificate(
             key.height, key.hash, view,
             aggregate(SignaturesOf(book[key].votes)),
             SignersOf(book[key].votes),
             book[key].totalStake))
    else None
  }

  function ClearUpTo(book: VoteBook, height: u64): VoteBook {
    map key | key in book && key.height > height :: book[key]
  }

  // ---- The aggregator object ----

  class VoteAggregator {
    var validatorSet: ValidatorSet
    var votesByBlock: VoteBook
    const aggregate: Aggregate

    constructor (set_: ValidatorSet, aggregate: Aggregate)
      ensures validatorSet == set_ && votesByBlock == map[] && this.aggregate == aggregate
    {
      validatorSet := set_;
      votesByBlock := map[];
      this.aggregate := aggregate;
    }

    method IsActiveValidator(id: ValidatorId) returns (r: bool)
      ensures r == IsActive(validatorSet.validators, id)
    {
      var i := 0;
      while i < |validatorSet.validators|
        invariant 0 <= i <= |validatorSet.validators|
        invariant forall j :: 0 <= j < i ==>
                    !(validatorSet.validators[j].id == id && validatorSet.validators[j].status == Active)
      {
        var v := validatorSet.validators[i];
        if v.id == id && v.status == Active {
          return true;
        }
        i := i + 1;
      }
      return false;
    }

    method GetValidatorStake(id: ValidatorId) returns (r: u64)
      ensures r == StakeOf(validatorSet.validators, id)
    {
      var i := 0;
      while i < |validatorSet.validators|
        invariant 0 <= i <= |validatorSet.validators|
        invariant Find(validatorSet.validators[i..], id) == Find(validatorSet.validators, id)
      {
        assert validatorSet.validators[i..][1..] == validatorSet.validators[i + 1..];
        if validatorSet.validators[i].id == id {
          return validatorSet.validators[i].stake;
        }
        i := i + 1;
      }
      return 0;
    }

    method AddVote(vote: Vote) returns (added: bool)
      modifies this`votesByBlock
      ensures added == Counts(validatorSet.validators, old(votesByBlock), vote)
      ensures votesByBlock == WithVote(validatorSet.validators, old(votesByBlock), vote)
    {
      var active := IsActiveValidator(vote.validator);
      if !active {
        return false;
      }
      var key := BlockKey(vote.height, vote.hash);
      var blockVotes := Entry(votesByBlock, key);
      if HasVoted(blockVotes, vote.validator) {
        return false;
      }
      var stake := GetValidatorStake(vote.validator);
      blockVotes := blockVotes.(
        votes := blockVotes.votes + [vote],
        voted := blockVotes.voted[vote.validator := true],
        totalStake := Wrap(blockVotes.totalStake + stake));
      votesByBlock := votesByBlock[key := blockVotes];
      return true;
    }

    method AggregateVotes(height: u64, hash: Hash, view: u64) returns (qc: Option<QuorumCertificate>)
      ensures qc == CertificateFor(validatorSet, aggregate, votesByBlock, BlockKey(height, hash), view)
    {
      var key := BlockKey(height, hash);
      if key !in votesByBlock {
        return None;
      }
      var blockVotes := votesByBlock[key];
      if blockVotes.totalStake < RequiredStake(validatorSet.totalStake) {
        return None;
      }
      var signatures: seq<Signature>, signers: seq<ValidatorId> := [], [];
      var i := 0;
      while i < |blockVotes.votes|
        invariant 0 <= i <= |blockVotes.votes|
        invariant signatures == SignaturesOf(blockVotes.votes)[..i]
        invariant signers == SignersOf(blockVotes.votes)[..i]
      {
        signatures := signatures + [blockVotes.votes[i].signature];
        signers := signers + [blockVotes.votes[i].validator];
        i := i + 1;
      }
      assert signatures == SignaturesOf(blockVotes.votes) && signers == SignersOf(blockVotes.votes);
      return Some(QuorumCertificate(height, hash, view, aggregate(signatures), signers, blockVotes.totalStake));
    }

    method ClearVotesUpToHeight(height: u64)
      modifies this`votesByBlock
      ensures votesByBlock == ClearUpTo(old(votesByBlock), height)
    {
      var remaining := votesByBlock.Keys;
      while remaining != {}
        invariant remaining <= votesByBlock.Keys <= old(votesByBlock).Keys
        invariant forall k :: k in votesByBlock ==> votesByBlock[k] == old(votesByBlock)[k]
        invariant forall k :: k in old(votesByBlock) && k !in remaining ==> (k in votesByBlock <==> k.height > height)
        decreases |remaining|
      {
        var key :| key in remaining;
        if key.height <= height {
          votesByBlock := votesByBlock - {key};
        }
        remaining := remaining - {key};
      }
    }

    method UpdateValidatorSet(set_: ValidatorSet)
      modifies this`validatorSet
      ensures validatorSet == set_
    {
      validatorSet := set_;
    }
  }

  // ---- The invariant of the vote book ----

  ghost function Voters(votes: seq<Vote>): set<ValidatorId> {
    set v | v in votes :: v.validator
  }

  /** All votes are for the entry's own block, from distinct active validators, and
      the running total is exactly their stake. */
  ghost predicate Counted(set_: ValidatorSet, key: BlockKey, bv: BlockVotes) {
    && (forall v :: v in bv.votes ==>
          v.height == key.height && v.hash == key.hash && IsActive(set_.validators, v.validator))
    && (forall i, j :: 0 <= i < j < |bv.votes| ==> bv.votes[i].validator != bv.votes[j].validator)
    && (forall id :: HasVoted(bv, id) <==> id in Voters(bv.votes))
    && bv.totalStake == Weight(set_.validators, Voters(bv.votes))
  }

  /** Every entry of the book holds at least one vote besides. */
  ghost predicate Tallied(set_: ValidatorSet, key: BlockKey, bv: BlockVotes) {
    bv.votes != [] && Counted(set_, key, bv)
  }

  ghost predicate BookInvariant(set_: ValidatorSet, book: VoteBook) {
    forall key :: key in book ==> Tallied(set_, key, book[key])
  }

  lemma WithVoteKeepsBook(set_: ValidatorSet, book: VoteBook, vote: Vote)
    requires WellFormedSet(set_) && BookInvariant(set_, book)
    ensures BookInvariant(set_, WithVote(set_.validators, book, vote))
  {
    if Counts(set_.validators, book, vote) {
      var key := BlockKey(vote.height, vote.hash);
      var bv := Entry(book, key);
      if key !in book {
        NoVotes(set_, key);
      }
      CountedOneMore(set_, key, bv, vote);
    }
  }

  lemma CountedOneMore(set_: ValidatorSet, key: BlockKey, bv: BlockVotes, vote: Vote)
    requires WellFormedSet(set_) && Counted(set_, key, bv) && BlockKey(vote.height, vote.hash) == key
    requires IsActive(set_.validators, vote.validator) && !HasVoted(bv, vote.validator)
    ensures Counted(set_, key, BlockVotes(bv.votes + [vote], bv.voted[vote.validator := true],
                                          Wrap(bv.totalStake + StakeOf(set_.validators, vote.validator))))
  {
    VotersSnoc(bv.votes, vote);
    WeightAddActive(set_.validators, Voters(bv.votes), vote.validator);
    WeightMonotone(set_.validators, Voters(bv.votes + [vote]), Voters(bv.votes + [vote]));
    OneMoreVote(set_, key, bv, vote);
  }

  lemma NoVotes(set_: ValidatorSet, key: BlockKey)
    ensures Counted(set_, key, BlockVotes([], map[], 0))
  {
    assert Voters([]) == {};
    WeightEmpty(set_.validators);
  }

  lemma VotersSnoc(votes: seq<Vote>, vote: Vote)
    ensures Voters(votes + [vote]) == Voters(votes) + {vote.validator}
  {
    assert forall v :: v in votes + [vote] <==> v in votes || v == vote;
  }

  lemma OneMoreVote(set_: ValidatorSet, key: BlockKey, bv: BlockVotes, vote: Vote)
    requires Counted(set_, key, bv) && BlockKey(vote.height, vote.hash) == key
    requires IsActive(set_.validators, vote.validator) && !HasVoted(bv, vote.validator)
    requires Voters(bv.votes + [vote]) == Voters(bv.votes) + {vote.validator}
    requires Weight(set_.validators, Voters(bv.votes + [vote]))
          == bv.totalStake + StakeOf(set_.validators, vote.validator) < TWO_64
    ensures Counted(set_, key, BlockVotes(bv.votes + [vote], bv.voted[vote.validator := true],
                                          Wrap(bv.totalStake + StakeOf(set_.validators, vote.validator))))
  {
    forall v | v in bv.votes ensures v.validator != vote.validator {
      assert v.validator in Voters(bv.votes);
    }
  }

  lemma ClearKeepsBook(set_: ValidatorSet, book: VoteBook, height: u64)
    requires BookInvariant(set_, book)
    ensures BookInvariant(set_, ClearUpTo(book, height))
  {
  }
}
