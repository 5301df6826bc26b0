/** Splitting an amount in proportion to stake: every recipient but the last gets
    the floor of its proportional share, the last gets what remains. */
module Shares {
  import opened Types
  import opened Sums

  /** 128-bit product, 64-bit quotient. */
  function Floor(stake: u64, total: u64, amount: u64): u64
    requires total > 0
  {
    Wrap(stake * amount / total)
  }

  /** The running sum of the first k floors, in 64-bit arithmetic. */
  function Dealt(stakes: seq<u64>, total: u64, amount: u64, k: nat): u64
    requires total > 0 && k <= |stakes|
  {
    if k == 0 then 0 else Wrap(Dealt(stakes, total, amount, k - 1) + Floor(stakes[k - 1], total, amount))
  }

  function ShareAt(stakes: seq<u64>, total: u64, amount: u64, k: nat): u64
    requires total > 0 && k < |stakes|
  {
    if k == |stakes| - 1 then Wrap(amount - Dealt(stakes, total, amount, k)) else Floor(stakes[k], total, amount)
  }

  function AllShares(stakes: seq<u64>, total: u64, amount: u64): (r: seq<int>)
    requires total > 0
    ensures |r| == |stakes| && forall k :: 0 <= k < |stakes| ==> r[k] == ShareAt(stakes, total, amount, k)
  {
    seq(|stakes|, k requires 0 <= k < |stakes| => ShareAt(stakes, total, amount, k))
  }

  // ---- The split is exact ----

  lemma QuotientBounds(x: nat, t: nat)
    requires t > 0
    ensures x / t * t <= x < (x / t + 1) * t
  {
  }

  lemma QuotientMonotone(x: nat, y: nat, t: nat)
    requires t > 0 && x <= y * t
    ensures x / t <= y
  {
    QuotientBounds(x, t);
    if x / t >= y + 1 {
      MulMonotone(y + 1, x / t, t);
    }
  }

  lemma MulMonotone(a: int, b: int, t: nat)
    requires a <= b
    ensures a * t <= b * t
  {
  }

  lemma FloorIsQuotient(stake: u64, total: u64, amount: u64)
    requires 0 < total && stake <= total
    ensures Floor(stake, total, amount) == stake * amount / total <= amount
  {
    MulMonotone(stake, total, amount);
    QuotientMonotone(stake * amount, amount, total);
  }

  function StakeSum(stakes: seq<u64>): nat {
    if stakes == [] then 0 else StakeSum(stakes[..|stakes| - 1]) + stakes[|stakes| - 1]
  }

  lemma {:induction false} StakeSumMember(stakes: seq<u64>, k: nat)
    requires k < |stakes|
    ensures stakes[k] + StakeSum(stakes[..k]) <= StakeSum(stakes)
  {
    if k < |stakes| - 1 {
      StakeSumMember(stakes[..|stakes| - 1], k);
      assert stakes[..|stakes| - 1][..k] == stakes[..k];
    }
  }

  lemma DealStep(d: nat, s: nat, x: nat, a: nat, t: nat, f: nat, j: nat)
    requires d * t <= s * a <= (d + j) * t && f * t <= x * a < (f + 1) * t
    ensures (d + f) * t <= (s + x) * a < (d + f + j + 1) * t
  {
    assert (s + x) * a == s * a + x * a;
    assert (d + f) * t == d * t + f * t;
    assert (d + f + j + 1) * t == (d + j) * t + (f + 1) * t;
  }

  lemma WithinAmount(d: nat, s: nat, a: nat, t: nat)
    requires 0 < t && s <= t && d * t <= s * a
    ensures d <= a
  {
    MulMonotone(s, t, a);
    if d >= a + 1 {
      MulMonotone(a + 1, d, t);
    }
  }

  /** The floors dealt so far are within the proportional part, from below, and
      short of it by less than one per recipient. */
  lemma {:induction false} DealtBounds(stakes: seq<u64>, total: u64, amount: u64, k: nat)
    requires 0 < total && k <= |stakes| && StakeSum(stakes) <= total
    ensures Dealt(stakes, total, amount, k) <= amount
    ensures Dealt(stakes, total, amount, k) * total <= StakeSum(stakes[..k]) * amount
    ensures StakeSum(stakes[..k]) * amount <= (Dealt(stakes, total, amount, k) + k) * total
    ensures k > 0 ==> StakeSum(stakes[..k]) * amount < (Dealt(stakes, total, amount, k) + k) * total
    ensures k > 0 ==>
      Dealt(stakes, total, amount, k) == Dealt(stakes, total, amount, k - 1) + stakes[k - 1] * amount / total
  {
    if k > 0 {
      DealtBounds(stakes, total, amount, k - 1);
      StakeSumMember(stakes, k - 1);
      FloorIsQuotient(stakes[k - 1], total, amount);
      assert stakes[..k][..k - 1] == stakes[..k - 1];
      NextShare(Dealt(stakes, total, amount, k - 1), StakeSum(stakes[..k - 1]), stakes[k - 1], amount, total, k - 1);
    }
  }

  /** One more floor keeps the bounds. */
  lemma NextShare(d: nat, s: nat, x: nat, a: nat, t: nat, j: nat)
    requires 0 < t && s + x <= t && d * t <= s * a <= (d + j) * t
    ensures d + x * a / t <= a
    ensures (d + x * a / t) * t <= (s + x) * a < (d + x * a / t + j + 1) * t
  {
    QuotientBounds(x * a, t);
    DealStep(d, s, x, a, t, x * a / t, j);
    WithinAmount(d + x * a / t, s + x, a, t);
  }

  lemma {:induction false} SharesPrefixSum(stakes: seq<u64>, total: u64, amount: u64, k: nat)
    requires 0 < total && k < |stakes| && StakeSum(stakes) <= total
    ensures SumSeq(AllShares(stakes, total, amount)[..k]) == Dealt(stakes, total, amount, k)
  {
    if k > 0 {
      SharesPrefixSum(stakes, total, amount, k - 1);
      DealtBounds(stakes, total, amount, k);
      StakeSumMember(stakes, k - 1);
      FloorIsQuotient(stakes[k - 1], total, amount);
      var r := AllShares(stakes, total, amount);
      assert r[..k][..k - 1] == r[..k - 1];
    }
  }

  /** The shares add up to exactly the amount; each but the last is the floor of
      its proportional share; the last is at least its own floor and exceeds it by
      less than the number of recipients. */
  lemma SharesExact(stakes: seq<u64>, total: u64, amount: u64)
    requires stakes != [] && 0 < total == StakeSum(stakes)
    ensures SumSeq(AllShares(stakes, total, amount)) == amount
    ensures forall k :: 0 <= k < |stakes| - 1 ==> ShareAt(stakes, total, amount, k) == stakes[k] * amount / total
    ensures var last := |stakes| - 1;
            var floor := stakes[last] * amount / total;
            floor <= ShareAt(stakes, total, amount, last) < floor + |stakes|
  {
    SharesSum(stakes, total, amount);
    forall k | 0 <= k < |stakes| - 1 ensures ShareAt(stakes, total, amount, k) == stakes[k] * amount / total {
      StakeSumMember(stakes, k);
      FloorIsQuotient(stakes[k], total, amount);
    }
    DealtBounds(stakes, total, amount, |stakes| - 1);
    LastShare(stakes, total, amount);
  }

  lemma SharesSum(stakes: seq<u64>, total: u64, amount: u64)
    requires stakes != [] && 0 < total == StakeSum(stakes)
    ensures SumSeq(AllShares(stakes, total, amount)) == amount
  {
    var last := |stakes| - 1;
    var r := AllShares(stakes, total, amount);
    SharesPrefixSum(stakes, total, amount, last);
    DealtBounds(stakes, total, amount, last);
    assert r[..last] + [r[last]] == r;
  }

  lemma LastShare(stakes: seq<u64>, total: u64, amount: u64)
    requires stakes != [] && 0 < total == StakeSum(stakes)
    ensures var last := |stakes| - 1;
            var floor := stakes[last] * amount / total;
            floor <= amount - Dealt(stakes, total, amount, last) < floor + |stakes|
  {
    DealtBounds(stakes, total, amount, |stakes|);
    assert stakes[..|stakes|] == stakes;
    ShortByLess(Dealt(stakes, total, amount, |stakes|), amount, total, |stakes|);
  }

  lemma ShortByLess(d: nat, amount: nat, total: nat, n: nat)
    requires total > 0 && total * amount < (d + n) * total
    ensures amount < d + n
  {
    if d + n <= amount {
      MulMonotone(d + n, amount, total);
    }
  }
}
