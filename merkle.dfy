/** The array-backed binary Merkle tree of src/crypto/merkle.rs.

    Node i has children 2i+1 and 2i+2; the n leaf hashes sit at n-1 .. 2n-2
    and node 0 is the root. SHA-256 is not modelled: every operation that
    hashes takes the hash function as a parameter, and nothing is assumed
    about it (in particular not injectivity). */
module Merkle {

  type byte = b: int | 0 <= b < 256
  type Bytes = seq<byte>
  type Hasher = Bytes -> Bytes

  const DIGEST_SIZE: nat := 32

  /** The single node of a tree built from no leaves. */
  function ZeroDigest(): (d: Bytes)
    ensures |d| == DIGEST_SIZE && forall k :: 0 <= k < |d| ==> d[k] == 0
  {
    seq(DIGEST_SIZE, _ => 0)
  }

  function Pow2(k: nat): (r: nat)
    ensures r >= 1
  {
    if k == 0 then 1 else 2 * Pow2(k - 1)
  }

  // ---------------------------------------------------------------------
  // Reference definitions

  /** The hash held by node k of the tree over `leaves`, defined top-down. */
  function NodeHash(hash: Hasher, leaves: seq<Bytes>, k: nat): Bytes
    requires |leaves| >= 1 && k < 2 * |leaves| - 1
    decreases 2 * |leaves| - 1 - k
  {
    var n := |leaves|;
    if k >= n - 1 then hash(leaves[k - (n - 1)])
    else hash(NodeHash(hash, leaves, 2 * k + 1) + NodeHash(hash, leaves, 2 * k + 2))
  }

  /** The node vector `MerkleTree::new` builds. */
  function BuildNodes(hash: Hasher, leaves: seq<Bytes>): seq<Bytes>
  {
    if |leaves| == 0 then [ZeroDigest()]
    else seq(2 * |leaves| - 1, k requires 0 <= k < 2 * |leaves| - 1 => NodeHash(hash, leaves, k))
  }

  /** Node n-1+i holds the hash of leaf i. */
  ghost predicate LeavesHashed(hash: Hasher, leaves: seq<Bytes>, nodes: seq<Bytes>)
  {
    && |leaves| >= 1
    && |nodes| == 2 * |leaves| - 1
    && forall i :: 0 <= i < |leaves| ==> nodes[|leaves| - 1 + i] == hash(leaves[i])
  }

  /** Internal node i is the hash of its two children, left first. */
  ghost predicate ParentHashed(hash: Hasher, nodes: seq<Bytes>, i: nat)
    requires 2 * i + 2 < |nodes|
  {
    nodes[i] == hash(nodes[2 * i + 1] + nodes[2 * i + 2])
  }

  /** Every internal node is the hash of its two children. */
  ghost predicate ParentsHashed(hash: Hasher, nodes: seq<Bytes>)
  {
    forall i: nat :: 2 * i + 2 < |nodes| ==> ParentHashed(hash, nodes, i)
  }

  /** The other child of node c's parent. */
  function Sibling(c: nat): (s: nat)
    requires c > 0
    ensures s == c - 1 || s == c + 1
  {
    if c % 2 == 0 then c - 1 else c + 1
  }

  /** The audit path `generate_proof` collects from node `current` upwards:
      the sibling of each node on the way, as long as it is inside `nodes`. */
  function ProofFrom(nodes: seq<Bytes>, current: nat): seq<Bytes>
    decreases current
  {
    if current == 0 then []
    else
      var sibling := Sibling(current);
      (if sibling < |nodes| then [nodes[sibling]] else []) + ProofFrom(nodes, (current - 1) / 2)
  }

  /** The root candidate `verify_proof` folds out of a proof: the side on
      which the running hash goes is chosen by the parity of the LEAF index
      halved once per step. */
  function Recompute(hash: Hasher, current: Bytes, proof: seq<Bytes>, index: nat): Bytes
    decreases |proof|
  {
    if proof == [] then current
    else
      var next := if index % 2 == 0 then hash(current + proof[0]) else hash(proof[0] + current);
      Recompute(hash, next, proof[1..], index / 2)
  }

  /** The depth of node c: the number of steps from c up to the root. */
  function Depth(c: nat): nat
    decreases c
  {
    if c == 0 then 0 else 1 + Depth((c - 1) / 2)
  }

  /** Node c and leaf index j agree on every side `verify_proof` picks:
      at each step up, c is a left child (odd) exactly when j is even. */
  ghost predicate Aligned(c: nat, j: nat)
    decreases c
  {
    c == 0 || ((c + j) % 2 == 1 && Aligned((c - 1) / 2, j / 2))
  }

  // ---------------------------------------------------------------------
  // The tree

  class MerkleTree {
    const nodes: seq<Bytes>
    const leafCount: nat

    ghost predicate Valid()
    {
      if leafCount == 0 then nodes == [ZeroDigest()] else |nodes| == 2 * leafCount - 1
    }

    /** `MerkleTree::new`: with no leaves, one all-zero node; otherwise the
        node vector filled in place by `FillNodes`. */
    constructor (hash: Hasher, leaves: seq<Bytes>)
      ensures Valid()
      ensures leafCount == |leaves|
      ensures nodes == BuildNodes(hash, leaves)
      ensures leaves != [] ==> LeavesHashed(hash, leaves, nodes) && ParentsHashed(hash, nodes)
    {
      if |leaves| == 0 {
        nodes := [ZeroDigest()];
        leafCount := 0;
      } else {
        var a := FillNodes(hash, leaves);
        nodes := a[..];
        leafCount := |leaves|;
        BuiltNodesAreConsistent(hash, leaves);
      }
    }

    /** The two loops of `new` for n >= 1 leaves: the leaf hashes go to
        n-1 .. 2n-2, then the internal nodes are filled from n-2 down to the
        root, each reading only its children, which are already final. */
    static method FillNodes(hash: Hasher, leaves: seq<Bytes>) returns (a: array<Bytes>)
      requires |leaves| >= 1
      ensures fresh(a)
      ensures a[..] == BuildNodes(hash, leaves)
    {
      a := new Bytes[2 * |leaves| - 1];
      FillLeaves(hash, leaves, a);
      FillParents(hash, leaves, a);
      assert forall k {:trigger a[k]} :: 0 <= k < a.Length ==> a[..][k] == BuildNodes(hash, leaves)[k];
    }

    /** The first loop of `new`: slot n-1+i receives the hash of leaf i. */
    static method FillLeaves(hash: Hasher, leaves: seq<Bytes>, a: array<Bytes>)
      requires |leaves| >= 1 && a.Length == 2 * |leaves| - 1
      modifies a
      ensures forall k {:trigger a[k]} :: |leaves| - 1 <= k < a.Length ==> a[k] == NodeHash(hash, leaves, k)
    {
      var n := |leaves|;
      var i := 0;
      while i < n
        invariant 0 <= i <= n
        invariant forall k {:trigger a[k]} :: n - 1 <= k < n - 1 + i ==> a[k] == NodeHash(hash, leaves, k)
      {
        a[n - 1 + i] := hash(leaves[i]);
        i := i + 1;
      }
    }

    /** The second loop of `new`: node j, from n-2 down to 0, receives the
        hash of its two children. */
    static method FillParents(hash: Hasher, leaves: seq<Bytes>, a: array<Bytes>)
      requires |leaves| >= 1 && a.Length == 2 * |leaves| - 1
      requires forall k {:trigger a[k]} :: |leaves| - 1 <= k < a.Length ==> a[k] == NodeHash(hash, leaves, k)
      modifies a
      ensures forall k {:trigger a[k]} :: 0 <= k < a.Length ==> a[k] == NodeHash(hash, leaves, k)
    {
      var n := |leaves|;
      var j := n - 1;
      while j > 0
        invariant 0 <= j <= n - 1
        invariant forall k {:trigger a[k]} :: j <= k < 2 * n - 1 ==> a[k] == NodeHash(hash, leaves, k)
      {
        j := j - 1;
        a[j] := hash(a[2 * j + 1] + a[2 * j + 2]);
      }
    }

    /** `root`: node 0, the all-zero sentinel for an empty tree. */
    function Root(): (r: Bytes)
      requires Valid()
      ensures leafCount == 0 ==> r == ZeroDigest()
      ensures r == nodes[0]
    {
      nodes[0]
    }

    /** `generate_proof`: empty for an index that is not a leaf; otherwise
        one sibling hash per level, from the leaf up to the root. */
    method GenerateProof(index: nat) returns (proof: seq<Bytes>)
      requires Valid()
      ensures index >= leafCount ==> proof == []
      ensures index < leafCount ==> proof == ProofFrom(nodes, leafCount - 1 + index)
      ensures index < leafCount ==> |proof| == Depth(leafCount - 1 + index)
    {
      if index >= leafCount {
        return [];
      }
      ghost var start := leafCount - 1 + index;
      proof := [];
      var current: nat := leafCount - 1 + index;
      while current > 0
        invariant current <= start
        invariant proof + ProofFrom(nodes, current) == ProofFrom(nodes, start)
        decreases current
      {
        var sibling := Sibling(current);
        ProofStep(nodes, proof, current, start);
        if sibling < |nodes| {
          proof := proof + [nodes[sibling]];
        }
        current := (current - 1) / 2;
      }
      OddLength(|nodes|, leafCount);
      ProofLengthIsDepth(nodes, start);
    }

    /** `verify_proof`: stateless; hashes the leaf, folds the proof into it
        and compares with the given root. */
    static method VerifyProof(hash: Hasher, root: Bytes, leaf: Bytes, proof: seq<Bytes>, index: nat)
      returns (ok: bool)
      ensures ok <==> Recompute(hash, hash(leaf), proof, index) == root
      ensures proof == [] ==> (ok <==> hash(leaf) == root)
    {
      var current := hash(leaf);
      var currentIndex := index;
      var k := 0;
      while k < |proof|
        invariant 0 <= k <= |proof|
        invariant Recompute(hash, current, proof[k..], currentIndex) == Recompute(hash, hash(leaf), proof, index)
      {
        if currentIndex % 2 == 0 {
          current := hash(current + proof[k]);
        } else {
          current := hash(proof[k] + current);
        }
        assert proof[k..][1..] == proof[k + 1..];
        currentIndex := currentIndex / 2;
        k := k + 1;
      }
      ok := current == root;
    }
  }

  // ---------------------------------------------------------------------
  // Index arithmetic, stated once so that the proofs above need none

  /** A tree with n >= 1 leaves has an odd number of nodes. */
  lemma OddLength(len: nat, n: nat)
    requires n >= 1 && len == 2 * n - 1
    ensures len % 2 == 1
  {
    assert len == 2 * (n - 1) + 1;
  }

  /** Node c > 0 is the left child 2p+1 of its parent p when it is odd and
      the right child 2p+2 when it is even; its sibling is the other one. */
  lemma ChildOfParent(c: nat)
    requires c > 0
    ensures (c - 1) / 2 < c
    ensures c % 2 == 1 ==> c == 2 * ((c - 1) / 2) + 1 && Sibling(c) == c + 1
    ensures c % 2 == 0 ==> c == 2 * ((c - 1) / 2) + 2 && Sibling(c) == c - 1
  {
    if c % 2 == 1 {
      assert c == 2 * (c / 2) + 1;
    } else {
      assert c == 2 * (c / 2);
    }
  }

  /** In a vector of odd length, the sibling of a non-root node exists. */
  lemma SiblingInRange(len: nat, c: nat)
    requires 0 < c < len && len % 2 == 1
    ensures Sibling(c) < len
  {
    if c % 2 == 1 {
      assert len == 2 * (len / 2) + 1 && c == 2 * (c / 2) + 1;
    }
  }

  /** When c + j is odd, exactly one of c and j is odd. */
  lemma OppositeParity(c: nat, j: nat)
    requires (c + j) % 2 == 1
    ensures c % 2 == 1 <==> j % 2 == 0
  {
    assert c == 2 * (c / 2) + c % 2 && j == 2 * (j / 2) + j % 2;
    assert c + j == 2 * (c / 2 + j / 2) + c % 2 + j % 2;
  }

  /** Node 2h-1+i, the i-th of a level of 2h nodes, has a parity opposite
      to i, and its parent is node i/2 of the level above. */
  lemma LevelStep(h: nat, i: nat)
    requires h >= 1 && i < 2 * h
    ensures (2 * h - 1 + i + i) % 2 == 1
    ensures (2 * h - 1 + i - 1) / 2 == h - 1 + i / 2
    ensures i / 2 < h
  {
    assert 2 * h - 1 + i + i == 2 * (h + i - 1) + 1;
    assert i == 2 * (i / 2) + i % 2;
    assert 2 * h - 1 + i - 1 == 2 * (h - 1 + i / 2) + i % 2;
  }

  // ---------------------------------------------------------------------
  // Properties

  /** The nodes `new` builds hash each leaf into the last |leaves| slots and
      make every internal node the hash of its children. */
  lemma BuiltNodesAreConsistent(hash: Hasher, leaves: seq<Bytes>)
    requires |leaves| >= 1
    ensures LeavesHashed(hash, leaves, BuildNodes(hash, leaves))
    ensures ParentsHashed(hash, BuildNodes(hash, leaves))
  {
  }

  /** One iteration of `generate_proof`'s loop keeps the collected prefix
      and the path still to walk adding up to the whole path. */
  lemma ProofStep(nodes: seq<Bytes>, proof: seq<Bytes>, current: nat, start: nat)
    requires current > 0 && proof + ProofFrom(nodes, current) == ProofFrom(nodes, start)
    ensures var sibling := Sibling(current);
            (proof + if sibling < |nodes| then [nodes[sibling]] else []) + ProofFrom(nodes, (current - 1) / 2)
            == ProofFrom(nodes, start)
  {
    var sibling := Sibling(current);
    var step := if sibling < |nodes| then [nodes[sibling]] else [];
    assert ProofFrom(nodes, current) == step + ProofFrom(nodes, (current - 1) / 2);
    assert (proof + step) + ProofFrom(nodes, (current - 1) / 2) == proof + (step + ProofFrom(nodes, (current - 1) / 2));
  }

  /** A tree over one leaf is that leaf's hash; its audit path is empty. */
  lemma RootOfOneLeaf(hash: Hasher, leaf: Bytes)
    ensures BuildNodes(hash, [leaf]) == [hash(leaf)]
    ensures ProofFrom(BuildNodes(hash, [leaf]), 0) == []
  {
  }

  /** A tree over two leaves has root H(H(l1) ++ H(l2)); each leaf's audit
      path is the other leaf's hash. */
  lemma RootOfTwoLeaves(hash: Hasher, l1: Bytes, l2: Bytes)
    ensures BuildNodes(hash, [l1, l2])[0] == hash(hash(l1) + hash(l2))
    ensures ProofFrom(BuildNodes(hash, [l1, l2]), 1) == [hash(l2)]
    ensures ProofFrom(BuildNodes(hash, [l1, l2]), 2) == [hash(l1)]
  {
    var nodes := BuildNodes(hash, [l1, l2]);
    assert nodes[1] == hash(l1) && nodes[2] == hash(l2);
  }

  /** The guard on the sibling never drops an element: within a node vector
      of odd length, the path from node c has exactly Depth(c) entries. */
  lemma {:induction false} ProofLengthIsDepth(nodes: seq<Bytes>, c: nat)
    requires c < |nodes| && |nodes| % 2 == 1
    ensures |ProofFrom(nodes, c)| == Depth(c)
    decreases c
  {
    if c > 0 {
      ChildOfParent(c);
      SiblingInRange(|nodes|, c);
      ProofLengthIsDepth(nodes, (c - 1) / 2);
    }
  }

  /** Folding one more proof element: the running hash goes left for an
      even index, right for an odd one, and the index is halved. */
  lemma RecomputeCons(hash: Hasher, current: Bytes, x: Bytes, rest: seq<Bytes>, index: nat)
    ensures Recompute(hash, current, [x] + rest, index)
            == Recompute(hash, if index % 2 == 0 then hash(current + x) else hash(x + current), rest, index / 2)
  {
    assert ([x] + rest)[1..] == rest;
  }

  /** Within a node vector of odd length every non-root node has its
      sibling, so the path from c starts with that sibling's hash. */
  lemma ProofFromCons(nodes: seq<Bytes>, c: nat)
    requires 0 < c < |nodes| && |nodes| % 2 == 1
    ensures Sibling(c) < |nodes|
    ensures ProofFrom(nodes, c) == [nodes[Sibling(c)]] + ProofFrom(nodes, (c - 1) / 2)
  {
    SiblingInRange(|nodes|, c);
  }

  /** One step of the round trip: when the parity of node c matches that of
      the leaf index j (c odd, a left child, exactly when j is even),
      folding c's first sibling lands on c's parent. */
  lemma RecomputeStep(hash: Hasher, nodes: seq<Bytes>, c: nat, j: nat)
    requires ParentsHashed(hash, nodes) && |nodes| % 2 == 1
    requires 0 < c < |nodes| && (c + j) % 2 == 1
    ensures Recompute(hash, nodes[c], ProofFrom(nodes, c), j)
            == Recompute(hash, nodes[(c - 1) / 2], ProofFrom(nodes, (c - 1) / 2), j / 2)
  {
    var p := (c - 1) / 2;
    ProofFromCons(nodes, c);
    ChildOfParent(c);
    OppositeParity(c, j);
    assert ParentHashed(hash, nodes, p);
    RecomputeCons(hash, nodes[c], nodes[Sibling(c)], ProofFrom(nodes, p), j);
  }

  /** In a hash-consistent tree, folding the audit path of node c into c's
      own hash gives the root whenever c and the index j are aligned. */
  lemma {:induction false} AlignedPathReachesRoot(hash: Hasher, nodes: seq<Bytes>, c: nat, j: nat)
    requires ParentsHashed(hash, nodes) && |nodes| % 2 == 1
    requires c < |nodes| && Aligned(c, j)
    ensures Recompute(hash, nodes[c], ProofFrom(nodes, c), j) == nodes[0]
    decreases c
  {
    if c > 0 {
      ChildOfParent(c);
      RecomputeStep(hash, nodes, c, j);
      AlignedPathReachesRoot(hash, nodes, (c - 1) / 2, j / 2);
    }
  }

  /** In a tree over n = 2^d leaves, every leaf is aligned with its index:
      each level starts at the odd node 2^level - 1. */
  lemma {:induction false} LeafAligned(d: nat, n: nat, i: nat)
    requires n == Pow2(d) && i < n
    ensures Aligned(n - 1 + i, i)
    decreases d
  {
    if d > 0 {
      LevelStep(Pow2(d - 1), i);
      LeafAligned(d - 1, Pow2(d - 1), i / 2);
    }
  }

  /** In a tree over n = 2^d leaves, every leaf is d levels below the root,
      so its audit path has d entries. */
  lemma {:induction false} LeafDepth(d: nat, n: nat, i: nat)
    requires n == Pow2(d) && i < n
    ensures Depth(n - 1 + i) == d
    decreases d
  {
    if d > 0 {
      LevelStep(Pow2(d - 1), i);
      LeafDepth(d - 1, Pow2(d - 1), i / 2);
    }
  }

  /** The round trip for any leaf aligned with its index, in any tree whose
      nodes are hash-consistent with its leaves. */
  lemma AlignedLeafRoundTrip(hash: Hasher, leaves: seq<Bytes>, nodes: seq<Bytes>, i: nat)
    requires LeavesHashed(hash, leaves, nodes) && ParentsHashed(hash, nodes)
    requires i < |leaves| && Aligned(|leaves| - 1 + i, i)
    ensures Recompute(hash, hash(leaves[i]), ProofFrom(nodes, |leaves| - 1 + i), i) == nodes[0]
  {
    assert nodes[|leaves| - 1 + i] == hash(leaves[i]);
    OddLength(|nodes|, |leaves|);
    AlignedPathReachesRoot(hash, nodes, |leaves| - 1 + i, i);
  }

  /** The round trip for 2^d leaves: the audit path of every leaf i
      verifies against the root. */
  lemma RoundTrip(hash: Hasher, leaves: seq<Bytes>, nodes: seq<Bytes>, d: nat, i: nat)
    requires LeavesHashed(hash, leaves, nodes) && ParentsHashed(hash, nodes)
    requires |leaves| == Pow2(d) && i < |leaves|
    ensures Recompute(hash, hash(leaves[i]), ProofFrom(nodes, |leaves| - 1 + i), i) == nodes[0]
  {
    LeafAligned(d, |leaves|, i);
    AlignedLeafRoundTrip(hash, leaves, nodes, i);
  }

  /** With three leaves, leaf 0 sits at node 2, a right child, but its index
      0 is even, so `verify_proof` puts the running hash on the left: the
      check succeeds only if swapping the two halves does not change the
      hash. */
  lemma ThreeLeavesSwapSides(hash: Hasher, leaves: seq<Bytes>)
    requires |leaves| == 3
    ensures var nodes := BuildNodes(hash, leaves);
            ProofFrom(nodes, 2) == [nodes[1]] &&
            (Recompute(hash, hash(leaves[0]), ProofFrom(nodes, 2), 0) == nodes[0]
             <==> hash(hash(leaves[0]) + nodes[1]) == hash(nodes[1] + hash(leaves[0])))
  {
    var nodes := BuildNodes(hash, leaves);
    assert nodes[2] == hash(leaves[0]);
    assert ProofFrom(nodes, 2) == [nodes[1]];
  }

  /** A concrete instance where the round trip fails: three one-byte leaves
      under the identity "hash". */
  lemma ThreeLeavesRoundTripFails()
    ensures var id: Hasher := b => b;
            var leaves: seq<Bytes> := [[0], [1], [2]];
            var nodes := BuildNodes(id, leaves);
            Recompute(id, id(leaves[0]), ProofFrom(nodes, 2), 0) != nodes[0]
  {
    var id: Hasher := b => b;
    var leaves: seq<Bytes> := [[0], [1], [2]];
    ThreeLeavesSwapSides(id, leaves);
    var nodes := BuildNodes(id, leaves);
    assert nodes[1] == [1, 2];
    assert id(leaves[0]) + nodes[1] == [0, 1, 2];
    assert nodes[1] + id(leaves[0]) == [1, 2, 0];
  }

  /** The tests' round trip, as a client of the three operations: build
      a tree over 2^d leaves, prove leaf i, verify the proof. */
  method ProveAndVerify(hash: Hasher, leaves: seq<Bytes>, d: nat, i: nat) returns (proof: seq<Bytes>, ok: bool)
    requires |leaves| == Pow2(d) && i < |leaves|
    ensures |proof| == d
    ensures ok
  {
    var tree := new MerkleTree(hash, leaves);
    proof, ok := ProveAndVerifyIn(hash, leaves, tree, d, i);
  }

  /** The same round trip on any hash-consistent tree over 2^d leaves. */
  method ProveAndVerifyIn(hash: Hasher, leaves: seq<Bytes>, tree: MerkleTree, d: nat, i: nat)
    returns (proof: seq<Bytes>, ok: bool)
    requires tree.Valid() && tree.leafCount == |leaves|
    requires LeavesHashed(hash, leaves, tree.nodes) && ParentsHashed(hash, tree.nodes)
    requires |leaves| == Pow2(d) && i < |leaves|
    ensures |proof| == d
    ensures ok
  {
    proof := tree.GenerateProof(i);
    LeafDepth(d, |leaves|, i);
    RoundTrip(hash, leaves, tree.nodes, d, i);
    ok := MerkleTree.VerifyProof(hash, tree.Root(), leaves[i], proof, i);
  }
}
