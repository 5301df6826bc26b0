/** Deciding from two signatures or two votes whether a validator equivocated. */
module SlashingDetection {
  import opened Types

  datatype SlashReason = DoubleSign | SurroundVote | Downtime

  datatype SignatureRecord = SignatureRecord(
    validator: ValidatorId, height: u64, hash: Hash, signature: Signature, timestamp: u64)

  datatype SlashingEvent = SlashingEvent(
    validator: ValidatorId, height: u64, reason: SlashReason, penalty: u64, coViolators: seq<ValidatorId>)

  function DetectDoubleSign(a: SignatureRecord, b: SignatureRecord): Option<SlashingEvent> {
    if a.validator != b.validator then None
    else if a.height != b.height then None
    else if a.hash == b.hash then None
    else Some(SlashingEvent(a.validator, a.height, DoubleSign, 0, []))
  }

  function DetectSurroundVote(a: Vote, b: Vote): Option<SlashingEvent> {
    if a.validator != b.validator then None
    else if a.height == b.height && a.hash != b.hash then
      Some(SlashingEvent(a.validator, a.height, SurroundVote, 0, []))
    else if a.view == b.view && a.height != b.height && a.hash != b.hash then
      Some(SlashingEvent(a.validator, if a.height > b.height then a.height else b.height, SurroundVote, 0, []))
    else None
  }

  /** One digest per height: what an honest validator signs. */
  ghost predicate OncePerHeight(records: set<SignatureRecord>, id: ValidatorId) {
    forall a, b :: a in records && b in records && a.validator == id && b.validator == id && a.height == b.height
      ==> a.hash == b.hash
  }

  /** A validator signs at most one digest per height exactly when no pair of its
      records is ever flagged with its name. */
  lemma DoubleSignExact(records: set<SignatureRecord>, id: ValidatorId)
    ensures OncePerHeight(records, id)
       <==> forall a, b :: a in records && b in records ==>
              var e := DetectDoubleSign(a, b); e.None? || e.value.validator != id
  {
    if !OncePerHeight(records, id) {
      var a, b :| a in records && b in records && a.validator == id && b.validator == id
                  && a.height == b.height && a.hash != b.hash;
      assert DetectDoubleSign(a, b).value.validator == id;
    }
  }

  /** What is flagged and what the event says: one validator, one height, two digests,
      under the reason that tombstones, with no penalty set yet. */
  lemma DoubleSignEvent(a: SignatureRecord, b: SignatureRecord, e: SlashingEvent)
    ensures DetectDoubleSign(a, b) == Some(e) <==>
              && a.validator == b.validator && a.height == b.height && a.hash != b.hash
              && e.validator == a.validator && e.height == a.height && e.reason == DoubleSign
              && e.penalty == 0 && e.coViolators == []
  {
    if DetectDoubleSign(a, b).Some? {
      var flagged := DetectDoubleSign(a, b).value;
      assert flagged == e <==> flagged.validator == e.validator && flagged.height == e.height
                               && flagged.reason == e.reason && flagged.penalty == e.penalty
                               && flagged.coViolators == e.coViolators;
    }
  }

  /** The same for votes: one validator, two digests, at one height or in one view; the
      event names the greater height. */
  lemma SurroundVoteEvent(a: Vote, b: Vote, e: SlashingEvent)
    ensures DetectSurroundVote(a, b) == Some(e) <==>
              && a.validator == b.validator && a.hash != b.hash && (a.height == b.height || a.view == b.view)
              && e.validator == a.validator && e.height == (if a.height >= b.height then a.height else b.height)
              && e.reason == SurroundVote && e.penalty == 0 && e.coViolators == []
  {
    if DetectSurroundVote(a, b).Some? {
      var flagged := DetectSurroundVote(a, b).value;
      assert flagged == e <==> flagged.validator == e.validator && flagged.height == e.height
                               && flagged.reason == e.reason && flagged.penalty == e.penalty
                               && flagged.coViolators == e.coViolators;
    }
  }

  ghost predicate VotesOncePerHeight(votes: set<Vote>, id: ValidatorId) {
    forall a, b :: a in votes && b in votes && a.validator == id && b.validator == id && a.height == b.height
      ==> a.hash == b.hash
  }

  /** Vote detection is order-independent and also flags a validator that votes
      once per height, exactly when it votes for two heights in one view. */
  lemma SurroundVoteExact(votes: set<Vote>, a: Vote, b: Vote)
    requires a in votes && b in votes && VotesOncePerHeight(votes, a.validator)
    ensures DetectSurroundVote(a, b) == DetectSurroundVote(b, a)
    ensures DetectSurroundVote(a, b).Some?
       <==> a.validator == b.validator && a.view == b.view && a.height != b.height && a.hash != b.hash
  {
  }
}
