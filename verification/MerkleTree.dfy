/** Binary Merkle trees over any pair hash: level-by-level construction with the
    odd node paired with itself, proof generation and proof checking. */
module MerkleTree {
  import opened Types

  type PairHash = (Hash, Hash) -> Hash

  datatype MerkleProof = MerkleProof(leafIndex: nat, leafHash: Hash, siblings: seq<Hash>)

  ghost predicate CollisionFree(h: PairHash) {
    forall a, b, c, d :: h(a, b) == h(c, d) ==> a == c && b == d
  }

  // ---- What the loops compute ----

  function Parent(h: PairHash, level: seq<Hash>, k: nat): Hash
    requires 2 * k < |level|
  {
    h(level[2 * k], if 2 * k + 1 < |level| then level[2 * k + 1] else level[2 * k])
  }

  function Parents(h: PairHash, level: seq<Hash>): (r: seq<Hash>)
    ensures |r| == (|level| + 1) / 2
  {
    seq((|level| + 1) / 2, k requires 0 <= k < (|level| + 1) / 2 => Parent(h, level, k))
  }

  function Levels(h: PairHash, level: seq<Hash>): (r: seq<seq<Hash>>)
    requires level != []
    ensures r != [] && r[0] == level && |r| == Depth(|level|) + 1
    decreases |level|
  {
    if |level| == 1 then [level] else [level] + Levels(h, Parents(h, level))
  }

  lemma LevelsStep(h: PairHash, level: seq<Hash>)
    requires |level| > 1
    ensures Levels(h, level) == [level] + Levels(h, Parents(h, level))
    ensures Root(h, level) == Root(h, Parents(h, level))
  {
  }

  function Root(h: PairHash, level: seq<Hash>): Hash
    decreases |level|
  {
    if level == [] then 0
    else if |level| == 1 then level[0]
    else Root(h, Parents(h, level))
  }

  /** The root in terms of the leaves and the hash: nothing for no leaf, the leaf for one,
      and for more the root of the level above, whose k-th node hashes leaves 2k and
      2k + 1 in this order, or leaf 2k with itself at an odd end. */
  lemma RootExact(h: PairHash, leaves: seq<Hash>, above: seq<Hash>)
    requires |above| == (|leaves| + 1) / 2
    requires forall k :: 0 <= k < |above| ==>
               above[k] == h(leaves[2 * k], leaves[if 2 * k + 1 < |leaves| then 2 * k + 1 else 2 * k])
    ensures Root(h, leaves) == if leaves == [] then 0 else if |leaves| == 1 then leaves[0] else Root(h, above)
  {
    assert above == Parents(h, leaves);
  }

  function Sibling(level: seq<Hash>, i: nat): Hash
    requires i < |level|
  {
    var j := if i % 2 == 0 then i + 1 else i - 1;
    if j < |level| then level[j] else level[i]
  }

  function Siblings(h: PairHash, level: seq<Hash>, i: nat): (r: seq<Hash>)
    requires i < |level|
    ensures |r| == Depth(|level|)
    decreases |level|
  {
    if |level| == 1 then [] else [Sibling(level, i)] + Siblings(h, Parents(h, level), i / 2)
  }

  /** The number of sibling hashes on a path of a tree with n leaves. */
  function Depth(n: nat): nat {
    if n <= 1 then 0 else 1 + Depth((n + 1) / 2)
  }

  function Step(h: PairHash, current: Hash, i: nat, sibling: Hash): Hash {
    if i % 2 == 0 then h(current, sibling) else h(sibling, current)
  }

  function Fold(h: PairHash, current: Hash, i: nat, siblings: seq<Hash>): Hash
    decreases |siblings|
  {
    if siblings == [] then current
    else Fold(h, Step(h, current, i, siblings[0]), i / 2, siblings[1..])
  }

  predicate Verifies(h: PairHash, proof: MerkleProof, root: Hash) {
    Fold(h, proof.leafHash, proof.leafIndex, proof.siblings) == root
  }

  // ---- The tree object ----

  class MerkleTree {
    const hashPair: PairHash
    var leaves: seq<Hash>
    var root: Hash
    var treeLevels: seq<seq<Hash>>

    ghost predicate Valid()
      reads this
    {
      && root == Root(hashPair, leaves)
      && treeLevels == if leaves == [] then [] else Levels(hashPair, leaves)
    }

    constructor (h: PairHash)
      ensures Valid() && leaves == [] && hashPair == h
    {
      hashPair := h;
      leaves, root, treeLevels := [], 0, [];
    }

    method BuildTree(leafHashes: seq<Hash>)
      modifies this
      ensures Valid() && leaves == leafHashes
    {
      leaves := leafHashes;
      treeLevels := [];
      if leaves == [] {
        root := 0;
        return;
      }
      if |leaves| == 1 {
        root := leaves[0];
        treeLevels := treeLevels + [leaves];
        return;
      }
      BuildInternalTree();
    }

    method BuildInternalTree()
      requires leaves != [] && treeLevels == []
      modifies this`root, this`treeLevels
      ensures Valid()
    {
      treeLevels := treeLevels + [leaves];
      var current := leaves;
      ghost var below: seq<seq<Hash>> := [];
      while |current| > 1
        invariant current != [] && treeLevels == below + [current]
        invariant below + Levels(hashPair, current) == Levels(hashPair, leaves)
        invariant Root(hashPair, current) == Root(hashPair, leaves)
        decreases |current|
      {
        var next := BuildLevel(current);
        LevelsStep(hashPair, current);
        assert below + ([current] + Levels(hashPair, next)) == below + [current] + Levels(hashPair, next);
        below := below + [current];
        treeLevels := treeLevels + [next];
        current := next;
      }
      root := current[0];
    }

    method BuildLevel(current: seq<Hash>) returns (next: seq<Hash>)
      ensures next == Parents(hashPair, current)
    {
      next := [];
      var i := 0;
      while i < |current|
        invariant i % 2 == 0 && i <= |current| + 1 && |next| == i / 2
        invariant forall k :: 0 <= k < |next| ==> next[k] == Parent(hashPair, current, k)
      {
        var left := current[i];
        var right := if i + 1 < |current| then current[i + 1] else left;
        next := next + [hashPair(left, right)];
        i := i + 2;
      }
    }

    method GenerateProof(leafIndex: nat) returns (proof: Option<MerkleProof>)
      requires Valid()
      ensures proof == if leafIndex < |leaves|
                       then Some(MerkleProof(leafIndex, leaves[leafIndex], Siblings(hashPair, leaves, leafIndex)))
                       else None
    {
      if leafIndex >= |leaves| {
        return None;
      }
      if |leaves| == 1 {
        return Some(MerkleProof(leafIndex, leaves[0], []));
      }
      var siblings: seq<Hash> := [];
      var current: nat := leafIndex;
      var level: nat := 0;
      while level < |treeLevels| - 1
        invariant level < |treeLevels| && current < |treeLevels[level]|
        invariant treeLevels[level..] == Levels(hashPair, treeLevels[level])
        invariant siblings + Siblings(hashPair, treeLevels[level], current) == Siblings(hashPair, leaves, leafIndex)
      {
        assert treeLevels[level..][1..] == treeLevels[level + 1..];
        assert |treeLevels[level]| > 1;
        assert treeLevels[level + 1] == Parents(hashPair, treeLevels[level]);
        siblings := siblings + [Sibling(treeLevels[level], current)];
        current := current / 2;
        level := level + 1;
      }
      assert |treeLevels[level..]| == 1;
      assert Depth(|treeLevels[level]|) == 0;
      assert siblings + [] == siblings;
      return Some(MerkleProof(leafIndex, leaves[leafIndex], siblings));
    }

    static method VerifyProof(h: PairHash, proof: MerkleProof, root: Hash) returns (ok: bool)
      ensures ok == Verifies(h, proof, root)
    {
      var currentHash := proof.leafHash;
      var currentIndex := proof.leafIndex;
      if proof.siblings == [] {
        return currentHash == root;
      }
      var k := 0;
      while k < |proof.siblings|
        invariant 0 <= k <= |proof.siblings|
        invariant Fold(h, currentHash, currentIndex, proof.siblings[k..])
               == Fold(h, proof.leafHash, proof.leafIndex, proof.siblings)
      {
        var sibling := proof.siblings[k];
        assert proof.siblings[k..][1..] == proof.siblings[k + 1..];
        if currentIndex % 2 == 0 {
          currentHash := h(currentHash, sibling);
        } else {
          currentHash := h(sibling, currentHash);
        }
        currentIndex := currentIndex / 2;
        k := k + 1;
      }
      return currentHash == root;
    }
  }

  // ---- Completeness, soundness, binding ----

  /** Every generated proof verifies, for every pair hash, leaf count and index. */
  lemma {:induction false} Completeness(h: PairHash, leaves: seq<Hash>, i: nat)
    requires i < |leaves|
    ensures Verifies(h, MerkleProof(i, leaves[i], Siblings(h, leaves, i)), Root(h, leaves))
    decreases |leaves|
  {
    if |leaves| > 1 {
      var up := Parents(h, leaves);
      assert up[i / 2] == Step(h, leaves[i], i, Sibling(leaves, i));
      Completeness(h, up, i / 2);
    }
  }

  /** Under a collision-free pair hash, a proof of the tree's depth at an index
      below the leaf count verifies exactly when it is the generated proof: both
      the leaf and every sibling are forced. */
  lemma {:induction false} Soundness(h: PairHash, leaves: seq<Hash>, proof: MerkleProof)
    requires CollisionFree(h)
    requires proof.leafIndex < |leaves| && |proof.siblings| == Depth(|leaves|)
    ensures Verifies(h, proof, Root(h, leaves))
        <==> proof.leafHash == leaves[proof.leafIndex]
             && proof.siblings == Siblings(h, leaves, proof.leafIndex)
    decreases |leaves|
  {
    var i := proof.leafIndex;
    if |leaves| > 1 {
      var up := Parents(h, leaves);
      assert up[i / 2] == Step(h, leaves[i], i, Sibling(leaves, i));
      var s := proof.siblings;
      var next := MerkleProof(i / 2, Step(h, proof.leafHash, i, s[0]), s[1..]);
      Soundness(h, up, next);
      assert s == [s[0]] + s[1..];
      assert Siblings(h, leaves, i)[0] == Sibling(leaves, i);
      assert Siblings(h, leaves, i)[1..] == Siblings(h, up, i / 2);
    }
  }

  /** The root binds the leaves of a tree of known size. */
  lemma {:induction false} Binding(h: PairHash, a: seq<Hash>, b: seq<Hash>)
    requires CollisionFree(h)
    requires |a| == |b|
    ensures Root(h, a) == Root(h, b) <==> a == b
    decreases |a|
  {
    if |a| > 1 {
      var ua, ub := Parents(h, a), Parents(h, b);
      Binding(h, ua, ub);
      if ua == ub {
        forall i | 0 <= i < |a| ensures a[i] == b[i] {
          assert ua[i / 2] == ub[i / 2];
          assert ua[i / 2] == Parent(h, a, i / 2) && ub[i / 2] == Parent(h, b, i / 2);
        }
      }
    }
  }

  lemma RepeatedTailParents(h: PairHash, a: seq<Hash>)
    requires |a| % 2 == 1 && |a| > 1
    ensures Parents(h, a + [a[|a| - 1]]) == Parents(h, a)
  {
    var b := a + [a[|a| - 1]];
    var p, q := Parents(h, a), Parents(h, b);
    forall k | 0 <= k < |p| ensures q[k] == p[k] {
      assert Parent(h, b, k) == Parent(h, a, k);
    }
  }

  /** The size must be known and the index must be below it: repeating the last
      leaf of an odd tree keeps the root, whatever the hash, so the original root
      also accepts a proof of the right length at the index one past the end. */
  lemma RepeatedTailKeepsRoot(h: PairHash, a: seq<Hash>)
    requires |a| % 2 == 1 && |a| > 1
    ensures Root(h, a + [a[|a| - 1]]) == Root(h, a)
    ensures exists proof: MerkleProof ::
              && Verifies(h, proof, Root(h, a))
              && proof.leafIndex == |a| && |proof.siblings| == Depth(|a|)
  {
    var b := a + [a[|a| - 1]];
    RepeatedTailParents(h, a);
    Completeness(h, b, |a|);
    assert Verifies(h, MerkleProof(|a|, b[|a|], Siblings(h, b, |a|)), Root(h, a));
  }
}
