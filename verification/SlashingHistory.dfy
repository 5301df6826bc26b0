/** The slashing detector's histories: the newest records of each validator, up to
    a limit, less what pruning by height removed. Signatures and votes are kept the
    same way. */
module SlashingHistory {
  import opened Types
  import opened KeyOrder
  import opened Places
  import opened SlashingDetection

  type History<T> = map<ValidatorId, seq<T>>

  // ---- Specification ----

  function Recorded<T(!new)>(h: History<T>, id: ValidatorId): seq<T> {
    if id in h then h[id] else []
  }

  function Trimmed<T(!new)>(s: seq<T>, limit: nat): seq<T> {
    if |s| > limit then s[|s| - limit..] else s
  }

  function WithRecord<T(!new)>(h: History<T>, id: ValidatorId, r: T, limit: nat): History<T> {
    h[id := Trimmed(Recorded(h, id) + [r], limit)]
  }

  function From<T(!new)>(s: seq<T>, heightOf: T -> u64, cutoff: u64): (r: seq<T>)
    ensures forall x :: x in r <==> x in s && heightOf(x) >= cutoff
    ensures |r| <= |s|
  {
    if s == [] then []
    else
      var x := s[|s| - 1];
      assert s == s[..|s| - 1] + [x];
      From(s[..|s| - 1], heightOf, cutoff) + if heightOf(x) < cutoff then [] else [x]
  }

  function WithoutOld<T(!new)>(h: History<T>, heightOf: T -> u64, cutoff: u64): History<T> {
    map id | id in h :: From(h[id], heightOf, cutoff)
  }

  function WithPruned<T(!new)>(h: History<T>, heightOf: T -> u64, height: u64, retention: u64): History<T> {
    if height < retention then h else WithoutOld(h, heightOf, height - retention)
  }

  // ---- Object ----

  method Record<T(!new)>(h: History<T>, id: ValidatorId, r: T, limit: nat) returns (h': History<T>)
    ensures h' == WithRecord(h, id, r, limit)
  {
    var list := if id in h then h[id] else [];
    list := list + [r];
    if |list| > limit {
      list := list[|list| - limit..];
    }
    h' := h[id := list];
  }

  method RemoveBelow<T(!new)>(s: seq<T>, heightOf: T -> u64, cutoff: u64) returns (r: seq<T>)
    ensures r == From(s, heightOf, cutoff)
  {
    r := [];
    var i := 0;
    while i < |s|
      invariant 0 <= i <= |s| && r == From(s[..i], heightOf, cutoff)
    {
      assert s[..i + 1][..i] == s[..i];
      if heightOf(s[i]) >= cutoff {
        r := r + [s[i]];
      }
      i := i + 1;
    }
    assert s[..i] == s;
  }

  method Prune<T(!new)>(h: History<T>, heightOf: T -> u64, height: u64, retention: u64) returns (h': History<T>)
    ensures h' == WithPruned(h, heightOf, height, retention)
  {
    if height < retention {
      return h;
    }
    var ids := KeysInOrder(h.Keys);
    h' := PruneEach(h, ids, heightOf, height - retention);
  }

  method PruneEach<T(!new)>(h: History<T>, ids: seq<ValidatorId>, heightOf: T -> u64, cutoff: u64)
      returns (h': History<T>)
    requires forall id :: id in ids <==> id in h
    requires forall i, j :: 0 <= i < j < |ids| ==> ids[i] < ids[j]
    ensures h' == WithoutOld(h, heightOf, cutoff)
  {
    h' := h;
    var i := 0;
    while i < |ids|
      invariant 0 <= i <= |ids| && h'.Keys == h.Keys
      invariant forall j :: 0 <= j < i ==> h'[ids[j]] == From(h[ids[j]], heightOf, cutoff)
      invariant forall j :: i <= j < |ids| ==> h'[ids[j]] == h[ids[j]]
    {
      var left := RemoveBelow(h'[ids[i]], heightOf, cutoff);
      h' := h'[ids[i] := left];
      i := i + 1;
    }
    forall id | id in h ensures h'[id] == From(h[id], heightOf, cutoff) {
      assert id in ids;
    }
  }

  class SlashingDetector {
    const maxHistory: nat
    var signatureHistory: History<SignatureRecord>
    var voteHistory: History<Vote>

    constructor (maxHistory: nat)
      ensures this.maxHistory == maxHistory && signatureHistory == map[] && voteHistory == map[]
    {
      this.maxHistory := maxHistory;
      signatureHistory, voteHistory := map[], map[];
    }

    method RecordSignature(r: SignatureRecord)
      modifies this`signatureHistory
      ensures signatureHistory == WithRecord(old(signatureHistory), r.validator, r, maxHistory)
    {
      signatureHistory := Record(signatureHistory, r.validator, r, maxHistory);
    }

    method RecordVote(v: Vote)
      modifies this`voteHistory
      ensures voteHistory == WithRecord(old(voteHistory), v.validator, v, maxHistory)
    {
      voteHistory := Record(voteHistory, v.validator, v, maxHistory);
    }

    method PruneOldSignatures(height: u64, retention: u64)
      modifies this`signatureHistory
      ensures signatureHistory == WithPruned(old(signatureHistory), SignatureHeight, height, retention)
    {
      signatureHistory := Prune(signatureHistory, SignatureHeight, height, retention);
    }

    method PruneOldVotes(height: u64, retention: u64)
      modifies this`voteHistory
      ensures voteHistory == WithPruned(old(voteHistory), VoteHeight, height, retention)
    {
      voteHistory := Prune(voteHistory, VoteHeight, height, retention);
    }
  }

  function SignatureHeight(r: SignatureRecord): u64 {
    r.height
  }

  function VoteHeight(v: Vote): u64 {
    v.height
  }

  // ---- Runs: evidence is kept as long as it should be ----

  datatype Op<T> = Add(id: ValidatorId, item: T) | Drop(height: u64, retention: u64)

  function Apply<T(!new)>(heightOf: T -> u64, limit: nat, h: History<T>, op: Op<T>): History<T> {
    match op
    case Add(id, x) => WithRecord(h, id, x, limit)
    case Drop(height, retention) => WithPruned(h, heightOf, height, retention)
  }

  function Run<T(!new)>(heightOf: T -> u64, limit: nat, h: History<T>, ops: seq<Op<T>>): History<T> {
    if ops == [] then h
    else Apply(heightOf, limit, Run(heightOf, limit, h, ops[..|ops| - 1]), ops[|ops| - 1])
  }

  function Additions<T(!new)>(ops: seq<Op<T>>, id: ValidatorId): nat {
    if ops == [] then 0
    else
      Additions(ops[..|ops| - 1], id) + Adds(ops[|ops| - 1], id)
  }

  function Adds<T(!new)>(op: Op<T>, id: ValidatorId): nat {
    if op.Add? && op.id == id then 1 else 0
  }

  /** No pruning in this run reaches the given height. */
  ghost predicate Spared<T(!new)>(ops: seq<Op<T>>, height: u64) {
    forall op :: op in ops && op.Drop? && op.height >= op.retention ==> op.height - op.retention <= height
  }

  /** x is in the list with at most n records after it. */
  ghost predicate Among<T(!new)>(s: seq<T>, x: T, n: nat) {
    exists p :: 0 <= p < |s| && s[p] == x && |s| - 1 - p <= n
  }

  lemma {:induction false} FromKeepsAmong<T(!new)>(s: seq<T>, heightOf: T -> u64, cutoff: u64, x: T, n: nat)
    requires Among(s, x, n) && heightOf(x) >= cutoff
    ensures Among(From(s, heightOf, cutoff), x, n)
  {
    var p :| 0 <= p < |s| && s[p] == x && |s| - 1 - p <= n;
    var init, last := s[..|s| - 1], s[|s| - 1];
    var r := From(s, heightOf, cutoff);
    if p == |s| - 1 {
      assert r[|r| - 1] == x;
    } else {
      assert init[p] == x;
      FromKeepsAmong(init, heightOf, cutoff, x, n - 1);
      var f := From(init, heightOf, cutoff);
      var q :| 0 <= q < |f| && f[q] == x && |f| - 1 - q <= n - 1;
      assert r[q] == x;
    }
  }

  lemma RecordKeepsAmong<T(!new)>(s: seq<T>, y: T, limit: nat, x: T, n: nat)
    requires Among(s, x, n) && n + 1 < limit
    ensures Among(Trimmed(s + [y], limit), x, n + 1)
  {
    var p :| 0 <= p < |s| && s[p] == x && |s| - 1 - p <= n;
    var t := s + [y];
    var r := Trimmed(t, limit);
    assert r[if |t| > limit then p - (|t| - limit) else p] == x;
  }

  /** A record stays in its validator's history while fewer than the limit of newer
      ones arrive and no pruning reaches its height, whatever else happens. */
  lemma {:induction false} EvidenceKept<T(!new)>(heightOf: T -> u64, limit: nat, h: History<T>, id: ValidatorId, x: T,
                                                ops: seq<Op<T>>)
    requires Additions(ops, id) < limit && Spared(ops, heightOf(x))
    ensures Among(Recorded(Run(heightOf, limit, WithRecord(h, id, x, limit), ops), id), x, Additions(ops, id))
  {
    if ops == [] {
      var r := Trimmed(Recorded(h, id) + [x], limit);
      assert r[|r| - 1] == x;
    } else {
      var init, op := ops[..|ops| - 1], ops[|ops| - 1];
      assert op in ops && forall o :: o in init ==> o in ops;
      EvidenceKept(heightOf, limit, h, id, x, init);
      StepKeeps(heightOf, limit, Run(heightOf, limit, WithRecord(h, id, x, limit), init), op, id, x,
                Additions(init, id));
    }
  }

  lemma StepKeeps<T(!new)>(heightOf: T -> u64, limit: nat, h: History<T>, op: Op<T>, id: ValidatorId, x: T, n: nat)
    requires Among(Recorded(h, id), x, n) && n + Adds(op, id) < limit
    requires op.Drop? && op.height >= op.retention ==> op.height - op.retention <= heightOf(x)
    ensures Among(Recorded(Apply(heightOf, limit, h, op), id), x, n + Adds(op, id))
  {
    match op
    case Add(i, y) => AddKeeps(h, limit, i, y, id, x, n);
    case Drop(height, retention) => DropKeeps(heightOf, h, height, retention, id, x, n);
  }

  lemma AddKeeps<T(!new)>(h: History<T>, limit: nat, i: ValidatorId, y: T, id: ValidatorId, x: T, n: nat)
    requires Among(Recorded(h, id), x, n) && (if i == id then n + 1 else n) < limit
    ensures Among(Recorded(WithRecord(h, i, y, limit), id), x, if i == id then n + 1 else n)
  {
    if i == id {
      RecordKeepsAmong(Recorded(h, id), y, limit, x, n);
    }
  }

  lemma DropKeeps<T(!new)>(heightOf: T -> u64, h: History<T>, height: u64, retention: u64,
                           id: ValidatorId, x: T, n: nat)
    requires Among(Recorded(h, id), x, n) && (height >= retention ==> height - retention <= heightOf(x))
    ensures Among(Recorded(WithPruned(h, heightOf, height, retention), id), x, n)
  {
    if height >= retention {
      FromKeepsAmong(h[id], heightOf, height - retention, x, n);
    }
  }

  /** Nothing else gets in: histories hold only what was recorded for the
      validator, and no more than the limit. */
  lemma {:induction false} HistoryBounded<T(!new)>(heightOf: T -> u64, limit: nat, ops: seq<Op<T>>, id: ValidatorId)
    ensures var s := Recorded(Run(heightOf, limit, map[], ops), id);
            |s| <= limit && forall x :: x in s ==> Add(id, x) in ops
  {
    if ops != [] {
      var init := ops[..|ops| - 1];
      HistoryBounded(heightOf, limit, init, id);
      assert ops == init + [ops[|ops| - 1]];
    }
  }

  // ---- What pruning removes ----

  ghost function AtLeast<T(!new)>(heightOf: T -> u64, cutoff: int): T -> bool {
    (x: T) => heightOf(x) >= cutoff
  }

  lemma FromFilters<T(!new)>(heightOf: T -> u64, cutoff: u64)
    ensures Filters((s: seq<T>) => From(s, heightOf, cutoff), AtLeast(heightOf, cutoff))
  {
    forall init: seq<T>, x
      ensures From(init + [x], heightOf, cutoff)
           == if AtLeast(heightOf, cutoff)(x) then From(init, heightOf, cutoff) + [x] else From(init, heightOf, cutoff)
    {
      assert (init + [x])[..|init|] == init;
      assert From(init, heightOf, cutoff) + [] == From(init, heightOf, cutoff);
    }
  }

  /** Pruning keeps, of each validator's history and in its order, exactly the records
      whose height is within the retention, and before the first retention ends
      everything. */
  lemma PruneExact<T(!new)>(heightOf: T -> u64, h: History<T>, height: u64, retention: u64, id: ValidatorId)
      returns (places: seq<nat>)
    requires id in h
    ensures WithPruned(h, heightOf, height, retention).Keys == h.Keys
    ensures Picks(places, h[id], AtLeast(heightOf, height - retention), WithPruned(h, heightOf, height, retention)[id])
  {
    if height < retention {
      places := FilterPicks((s: seq<T>) => s, AtLeast(heightOf, height - retention), h[id]);
    } else {
      FromFilters(heightOf, height - retention);
      places := FilterPicks((s: seq<T>) => From(s, heightOf, height - retention),
                            AtLeast(heightOf, height - retention), h[id]);
    }
  }

  /** Recording puts the new record last and drops, from the oldest on, only what exceeds
      the limit; other validators' histories do not change. */
  lemma RecordExact<T(!new)>(h: History<T>, id: ValidatorId, x: T, limit: nat)
    ensures var before, after := Recorded(h, id), Recorded(WithRecord(h, id, x, limit), id);
            && |after| == (if |before| + 1 <= limit then |before| + 1 else limit)
            && (before + [x])[|before| + 1 - |after|..] == after
    ensures forall other :: other != id ==> Recorded(WithRecord(h, id, x, limit), other) == Recorded(h, other)
  {
  }
}
