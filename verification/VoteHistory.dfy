/** Vote counting over a node's whole run: who is counted for a block, and exactly
    when a delivered vote completes a certificate. */
module VoteHistory {
  import opened Types
  import opened StakeWeight
  import opened VoteAggregation
  import opened Sorting
  import opened QcVerification
  import opened Certification
  import opened Consensus
  import Agreement
  import opened BlockStore

  /** At step k a vote of this validator for this block was delivered while it was
      Active in the counting set, and no later step cleared its height. */
  ghost predicate DeliveredAt(env: Env, set_: ValidatorSet, ops: seq<Op>, key: BlockKey, id: ValidatorId, k: int) {
    && 0 <= k < |ops| && ops[k].ReceiveVote?
    && ops[k].vote.validator == id && ops[k].vote.height == key.height && ops[k].vote.hash == key.hash
    && (exists v :: v in Run(env, Start(set_), ops[..k]).aggSet.validators && v.id == id && v.status == Active)
    && forall j :: k < j < |ops| && ops[j].PruneVotes? ==> ops[j].height < key.height
  }

  /** The validators counted for a block. */
  ghost function CountedFor(book: VoteBook, key: BlockKey): set<ValidatorId> {
    set id | key in book && id in book[key].voted && book[key].voted[id]
  }

  lemma DeliveredSnoc(env: Env, set_: ValidatorSet, ops: seq<Op>, op: Op, key: BlockKey, id: ValidatorId, k: int)
    ensures DeliveredAt(env, set_, ops + [op], key, id, k) <==>
              if k == |ops| then
                && op.ReceiveVote? && op.vote.validator == id && BlockKey(op.vote.height, op.vote.hash) == key
                && IsActive(Run(env, Start(set_), ops).aggSet.validators, id)
              else DeliveredAt(env, set_, ops, key, id, k) && (op.PruneVotes? ==> op.height < key.height)
  {
    var ops' := ops + [op];
    assert ops'[|ops|] == op && ops'[..|ops|] == ops;
    assert forall j :: 0 <= j < |ops| ==> ops'[j] == ops[j];
    if 0 <= k < |ops| {
      assert ops'[..k] == ops[..k];
    }
  }

  lemma CountedStep(env: Env, n: Node, op: Op, key: BlockKey, id: ValidatorId)
    ensures id in CountedFor(Apply(env, n, op).st.book, key) <==>
              if op.PruneVotes? then id in CountedFor(n.st.book, key) && op.height < key.height
              else
                || id in CountedFor(n.st.book, key)
                || (op.ReceiveVote? && op.vote.validator == id && BlockKey(op.vote.height, op.vote.hash) == key
                    && IsActive(n.aggSet.validators, id))
  {
  }

  /** Counted for a block are exactly the validators whose vote for it was delivered
      while they were Active and has not been cleared since; repeated deliveries, other
      votes, blocks, genesis and view changes do not matter. */
  lemma {:induction false} CountedExactly(env: Env, set_: ValidatorSet, ops: seq<Op>, key: BlockKey, id: ValidatorId)
    ensures id in CountedFor(Run(env, Start(set_), ops).st.book, key)
       <==> exists k :: DeliveredAt(env, set_, ops, key, id, k)
  {
    if ops != [] {
      var init, op := ops[..|ops| - 1], ops[|ops| - 1];
      assert init + [op] == ops;
      CountedExactly(env, set_, init, key, id);
      CountedStep(env, Run(env, Start(set_), init), op, key, id);
      DeliveredSnoc(env, set_, init, op, key, id, |init|);
      forall k | k != |init|
        ensures DeliveredAt(env, set_, ops, key, id, k)
           <==> DeliveredAt(env, set_, init, key, id, k) && (op.PruneVotes? ==> op.height < key.height)
      {
        DeliveredSnoc(env, set_, init, op, key, id, k);
      }
      if k :| DeliveredAt(env, set_, init, key, id, k) {
        assert k != |init|;
      }
    }
  }

  // ---- Completing a certificate ----

  ghost predicate Completes(qc: QuorumCertificate, vote: Vote, set_: ValidatorSet, voters: set<ValidatorId>) {
    && qc.height == vote.height && qc.hash == vote.hash && qc.view == vote.view
    && Members(qc.signers) == voters && NoDuplicates(qc.signers)
    && qc.stakeSigned == Weight(set_.validators, voters)
  }

  lemma EntryVoters(set_: ValidatorSet, book: VoteBook, key: BlockKey)
    requires BookInvariant(set_, book)
    ensures Voters(Entry(book, key).votes) == CountedFor(book, key)
  {
    if key in book {
      assert Tallied(set_, key, book[key]);
      forall id ensures id in Voters(book[key].votes) <==> id in CountedFor(book, key) {
        assert HasVoted(book[key], id) <==> id in Voters(book[key].votes);
      }
    }
  }

  lemma VoteCounted(set_: ValidatorSet, book: VoteBook, vote: Vote)
    requires WellFormedSet(set_) && BookInvariant(set_, book) && Counts(set_.validators, book, vote)
    ensures var key := BlockKey(vote.height, vote.hash);
            var book' := WithVote(set_.validators, book, vote);
            && key in book' && Tallied(set_, key, book'[key])
            && Voters(book'[key].votes) == CountedFor(book, key) + {vote.validator}
  {
    WithVoteKeepsBook(set_, book, vote);
    var key := BlockKey(vote.height, vote.hash);
    EntryVoters(set_, book, key);
    VotersSnoc(Entry(book, key).votes, vote);
  }

  lemma EntryCompletes(env: Env, set_: ValidatorSet, book: VoteBook, vote: Vote)
    requires BlockKey(vote.height, vote.hash) in book
    requires var key := BlockKey(vote.height, vote.hash); Tallied(set_, key, book[key])
    ensures var key := BlockKey(vote.height, vote.hash);
            var voters := Voters(book[key].votes);
            var qc := CertificateFor(set_, env.bls.aggregate, book, key, vote.view);
            && (qc.Some? <==> MeetsTwoThirds(Weight(set_.validators, voters), set_.totalStake))
            && (qc.Some? ==> Completes(qc.value, vote, set_, voters))
  {
    var bv := book[BlockKey(vote.height, vote.hash)];
    ThresholdExact(bv.totalStake, set_.totalStake);
    Agreement.SignersAreVoters(bv.votes);
  }

  /** A delivered vote completes a certificate exactly when its validator is Active and
      not yet counted for its block, and makes the stake counted for the block two
      thirds of the total. The certificate is for that block and view, signed by those
      counted, and claims exactly their stake. */
  lemma CertificateExact(env: Env, set_: ValidatorSet, st: EngineState, vote: Vote)
    requires WellFormedSet(set_) && BookInvariant(set_, st.book)
    ensures var voters := CountedFor(st.book, BlockKey(vote.height, vote.hash));
            var qc := CertificateOnVote(env, set_, st, vote);
            && (qc.Some? <==>
                  && IsActive(set_.validators, vote.validator) && vote.validator !in voters
                  && MeetsTwoThirds(Weight(set_.validators, voters + {vote.validator}), set_.totalStake))
            && (qc.Some? ==> Completes(qc.value, vote, set_, voters + {vote.validator}))
  {
    if Counts(set_.validators, st.book, vote) {
      VoteCounted(set_, st.book, vote);
      EntryCompletes(env, set_, WithVote(set_.validators, st.book, vote), vote);
    }
  }

  ghost predicate OneSet(ops: seq<Op>) {
    forall op :: op in ops ==> !op.NewEpochSet?
  }

  lemma {:induction false} BookOfRun(env: Env, set_: ValidatorSet, ops: seq<Op>)
    requires WellFormedSet(set_) && OneSet(ops)
    ensures BookInvariant(set_, Run(env, Start(set_), ops).st.book)
    ensures Run(env, Start(set_), ops).aggSet == set_
  {
    if ops != [] {
      var init, op := ops[..|ops| - 1], ops[|ops| - 1];
      BookOfRun(env, set_, init);
      var n := Run(env, Start(set_), init);
      if op.ReceiveVote? {
        WithVoteKeepsBook(set_, n.st.book, op.vote);
      } else if op.PruneVotes? {
        ClearKeepsBook(set_, n.st.book, op.height);
      }
    }
  }

  /** Over a whole run under one set: the next vote completes a certificate if and only
      if it is a first delivery of an Active validator, and those delivered for its block
      and not cleared, with this one, hold two thirds of the stake. */
  lemma CertificateOverRun(env: Env, set_: ValidatorSet, ops: seq<Op>, vote: Vote, voters: set<ValidatorId>)
    requires WellFormedSet(set_) && OneSet(ops)
    requires forall id :: id in voters <==>
               exists k :: DeliveredAt(env, set_, ops, BlockKey(vote.height, vote.hash), id, k)
    ensures var qc := CertificateOnVote(env, set_, Run(env, Start(set_), ops).st, vote);
            && (qc.Some? <==>
                  && IsActive(set_.validators, vote.validator) && vote.validator !in voters
                  && MeetsTwoThirds(Weight(set_.validators, voters + {vote.validator}), set_.totalStake))
            && (qc.Some? ==> Completes(qc.value, vote, set_, voters + {vote.validator}))
  {
    BookOfRun(env, set_, ops);
    var st, key := Run(env, Start(set_), ops).st, BlockKey(vote.height, vote.hash);
    forall id ensures id in voters <==> id in CountedFor(st.book, key) {
      CountedExactly(env, set_, ops, key, id);
    }
    assert voters == CountedFor(st.book, key);
    CertificateExact(env, set_, st, vote);
  }
}
