/**
 The Merkle signature scheme: a heap-ordered tree of one-time public keys in one trit buffer, signing
 with the sibling path of the next leaf, and verification by climbing that path.
 */
module Mss {

  import opened Common
  import opened Ternary
  import opened Wots

  const MAX_DEPTH := 20

  /** The node at heap index `i`. */
  function Node(tree: seq<Trit>, i: nat): (n: seq<Trit>)
    requires (i + 1) * HASH_LEN <= |tree|
    ensures |n| == HASH_LEN
  {
    Chunk(tree, i)
  }

  /** Node `i` is the hash of its two children. */
  ghost predicate HashesChildren(sponge: Sponge, tree: seq<Trit>, i: nat)
    requires (2 * i + 3) * HASH_LEN <= |tree|
  {
    Node(tree, i) == sponge([Node(tree, 2 * i + 1), Node(tree, 2 * i + 2)], HASH_LEN)
  }

  /** `tree` is the Merkle tree over the one-time public keys of `keys`, with `half` leaves. */
  ghost predicate IsTree(sponge: Sponge, tree: seq<Trit>, keys: seq<seq<Trit>>, half: nat) {
    && half >= 1 && |keys| == half && |tree| == (2 * half - 1) * HASH_LEN
    && (forall k :: 0 <= k < half ==> IsKey(keys[k]) && Node(tree, half - 1 + k) == PublicKey(sponge, keys[k]))
    && InnerNodesHashed(sponge, tree, half, 0)
  }

  // ----- Sibling paths

  function Sibling(node: nat): nat
    requires node > 0
  {
    if node % 2 != 0 then node + 1 else node - 1
  }

  function Parent(node: nat): nat
    requires node > 0
  {
    (node - 1) / 2
  }

  /** The siblings met on the way from `node` to the root, one after the other. */
  function SiblingPath(tree: seq<Trit>, half: nat, node: nat): (path: seq<Trit>)
    requires node < 2 * half - 1 && |tree| == (2 * half - 1) * HASH_LEN
  {
    if node == 0 then [] else Node(tree, Sibling(node)) + SiblingPath(tree, half, Parent(node))
  }

  // ----- Climbing

  /** What verification computes: hashes upwards along `path`, one sibling per level until `levels` are
      done or the path is used up; the bits of `k` say on which side the sibling is. */
  function Climb(sponge: Sponge, hash: seq<Trit>, path: seq<Trit>, k: nat, levels: nat): seq<Trit>
    decreases |path|
  {
    if path == [] || levels == 0 then hash
    else
      var n := PieceLen(|path|);
      var up := if k % 2 == 1 then sponge([path[..n], hash], HASH_LEN) else sponge([hash, path[..n]], HASH_LEN);
      Climb(sponge, up, path[n..], k / 2, levels - 1)
  }

  /** Heap arithmetic: the children of node `p` are `2 p + 1` and `2 p + 2`, each other's siblings. */
  lemma HeapStep(p: nat, bit: nat)
    requires bit <= 1
    ensures Parent(2 * p + 1 + bit) == p && Sibling(2 * p + 1 + bit) == 2 * p + 2 - bit
  {
  }

  /** The climb from `node` along its sibling path, followed by `rest`. */
  function ClimbFrom(sponge: Sponge, tree: seq<Trit>, half: nat, node: nat, k: nat, levels: nat, rest: seq<Trit>): seq<Trit>
    requires node < 2 * half - 1 && |tree| == (2 * half - 1) * HASH_LEN
  {
    Climb(sponge, Node(tree, node), SiblingPath(tree, half, node) + rest, k, levels)
  }

  /** One level up: with the sibling on the side `k` says, the climb arrives at the parent `p`. */
  lemma ClimbStep(sponge: Sponge, tree: seq<Trit>, half: nat, p: nat, k: nat, levels: nat, rest: seq<Trit>)
    requires half >= 1 && p < half - 1 && |tree| == (2 * half - 1) * HASH_LEN && levels > 0
    requires HashesChildren(sponge, tree, p)
    ensures ClimbFrom(sponge, tree, half, 2 * p + 1 + k % 2, k, levels, rest) ==
            ClimbFrom(sponge, tree, half, p, k / 2, levels - 1, rest)
  {
    var node := 2 * p + 1 + k % 2;
    HeapStep(p, k % 2);
    var path := SiblingPath(tree, half, node) + rest;
    assert path[..HASH_LEN] == Node(tree, 2 * p + 2 - k % 2);
    assert path[HASH_LEN..] == SiblingPath(tree, half, p) + rest;
  }

  /** A sibling path has one node per level. */
  lemma {:induction false} SiblingPathLength(tree: seq<Trit>, half: nat, levels: nat, k: nat)
    requires |tree| == (2 * half - 1) * HASH_LEN && Pow2(levels) <= half && k < Pow2(levels)
    ensures |SiblingPath(tree, half, Pow2(levels) - 1 + k)| == levels * HASH_LEN
    decreases levels
  {
    if levels > 0 {
      HeapStep(Pow2(levels - 1) - 1 + k / 2, k % 2);
      SiblingPathLength(tree, half, levels - 1, k / 2);
    }
  }

  ghost predicate InnerNodesHashed(sponge: Sponge, tree: seq<Trit>, half: nat, from: nat)
    requires half >= 1 && |tree| == (2 * half - 1) * HASH_LEN
  {
    forall i :: from <= i < half - 1 ==> HashesChildren(sponge, tree, i)
  }

  /** Climbing from any node of a tree along its sibling path reaches the root, whatever follows the
      path in the signature. */
  lemma {:induction false} ClimbReachesRoot(sponge: Sponge, tree: seq<Trit>, half: nat, levels: nat, k: nat, rest: seq<Trit>)
    requires half >= 1 && |tree| == (2 * half - 1) * HASH_LEN && InnerNodesHashed(sponge, tree, half, 0)
    requires Pow2(levels) <= half && k < Pow2(levels)
    ensures ClimbFrom(sponge, tree, half, Pow2(levels) - 1 + k, k, levels, rest) == Node(tree, 0)
    decreases levels
  {
    if levels > 0 {
      var p := Pow2(levels - 1) - 1 + k / 2;
      var node := Pow2(levels) - 1 + k;
      assert node == 2 * p + 1 + k % 2 && p < half - 1;
      assert ClimbFrom(sponge, tree, half, node, k, levels, rest) == ClimbFrom(sponge, tree, half, p, k / 2, levels - 1, rest) by {
        assert HashesChildren(sponge, tree, p);
        ClimbStep(sponge, tree, half, p, k, levels, rest);
      }
      ClimbReachesRoot(sponge, tree, half, levels - 1, k / 2, rest);
    }
  }

  // ----- Signatures

  datatype MssSignature = MssSignature(state: seq<Trit>, index: nat)

  /** The signature of the leaf `k`: the one-time signature, the sibling path, zeros up to 6561 trits. */
  ghost predicate IsSignature(sponge: Sponge, tree: seq<Trit>, keys: seq<seq<Trit>>, half: nat, k: nat,
                              message: seq<Trit>, s: MssSignature)
    requires IsTree(sponge, tree, keys, half) && k < half
  {
    var ots, path := Signature(sponge, keys[k], message), SiblingPath(tree, half, half - 1 + k);
    && s.index == k && |path| <= FRAGMENT_TRITS
    && s.state == ots + path + Zeros(FRAGMENT_TRITS - |path|)
  }

  /** The trits that hold the siblings: the last piece when the signature is cut every 6561 trits. */
  function SiblingTrits(state: seq<Trit>): seq<Trit> {
    var n := |state| % FRAGMENT_TRITS;
    if n == 0 && |state| >= FRAGMENT_TRITS then state[|state| - FRAGMENT_TRITS..] else state[|state| - n..]
  }

  /** The trits that hold the one-time signature. */
  function OtsTrits(state: seq<Trit>): (ots: seq<Trit>)
    requires |state| >= FRAGMENT_TRITS
    ensures IsKey(ots)
  {
    var ots := state[..(|state| / FRAGMENT_TRITS - 1) * FRAGMENT_TRITS];
    WholeFragments(|state| / FRAGMENT_TRITS - 1);
    ots
  }

  /** Whether the signature is accepted. */
  function Accepts(sponge: Sponge, root: seq<Trit>, depth: nat, message: seq<Trit>, s: MssSignature): bool
    requires depth >= 1 && |s.state| >= FRAGMENT_TRITS
  {
    Climb(sponge, Recovered(sponge, OtsTrits(s.state), message), SiblingTrits(s.state), s.index, depth - 1) == root
  }

  /** The signature uses leaf `k` and is accepted. */
  predicate AcceptedAt(sponge: Sponge, root: seq<Trit>, depth: nat, message: seq<Trit>, s: MssSignature, k: nat) {
    s.index == k && depth >= 1 && |s.state| >= FRAGMENT_TRITS && Accepts(sponge, root, depth, message, s)
  }

  /** Every signature of every leaf is accepted under the one public key, the root of the tree. */
  lemma SignaturesAccepted(sponge: Sponge, tree: seq<Trit>, keys: seq<seq<Trit>>, depth: nat, k: nat,
                           message: seq<Trit>, s: MssSignature)
    requires Lawful(sponge) && 1 <= depth <= MAX_DEPTH && IsTree(sponge, tree, keys, Pow2(depth - 1))
    requires k < Pow2(depth - 1) && Covers(message, keys[k]) && |keys[k]| >= FRAGMENT_TRITS
    requires IsSignature(sponge, tree, keys, Pow2(depth - 1), k, message, s)
    ensures AcceptedAt(sponge, Node(tree, 0), depth, message, s, k)
    ensures s.index == k && Accepts(sponge, Node(tree, 0), depth, message, s)
  {
    var half := Pow2(depth - 1);
    var ots, path := Signature(sponge, keys[k], message), SiblingPath(tree, half, half - 1 + k);
    var padding := Zeros(FRAGMENT_TRITS - |path|);
    WotsRoundTrip(sponge, keys[k], message);
    ClimbReachesRoot(sponge, tree, half, depth - 1, k, padding);
    assert s.state == ots + (path + padding);
    AcceptedWhenClimbs(sponge, Node(tree, 0), depth, message, s, ots, path + padding);
  }

  /** A signature is accepted under at most one root. */
  lemma OneRoot(sponge: Sponge, root: seq<Trit>, root': seq<Trit>, depth: nat, message: seq<Trit>, s: MssSignature)
    requires depth >= 1 && |s.state| >= FRAGMENT_TRITS
    requires Accepts(sponge, root, depth, message, s) && Accepts(sponge, root', depth, message, s)
    ensures root == root'
  {
  }

  /** The signature of a leaf is accepted if and only if the root is that of the tree. */
  lemma GenuineAcceptedIff(sponge: Sponge, tree: seq<Trit>, keys: seq<seq<Trit>>, depth: nat, k: nat,
                           message: seq<Trit>, s: MssSignature, root: seq<Trit>)
    requires Lawful(sponge) && 1 <= depth <= MAX_DEPTH && IsTree(sponge, tree, keys, Pow2(depth - 1))
    requires k < Pow2(depth - 1) && Covers(message, keys[k]) && |keys[k]| >= FRAGMENT_TRITS
    requires IsSignature(sponge, tree, keys, Pow2(depth - 1), k, message, s)
    ensures s.index == k && |s.state| >= FRAGMENT_TRITS
    ensures Accepts(sponge, root, depth, message, s) <==> root == Node(tree, 0)
  {
    SignaturesAccepted(sponge, tree, keys, depth, k, message, s);
    if Accepts(sponge, root, depth, message, s) {
      OneRoot(sponge, root, Node(tree, 0), depth, message, s);
    }
  }

  // ----- What acceptance proves

  /** The pair hashed at one level: the sibling is on the left for an odd `k`. */
  function Pair(hash: seq<Trit>, sibling: seq<Trit>, k: nat): seq<seq<Trit>> {
    if k % 2 == 1 then [sibling, hash] else [hash, sibling]
  }

  /** The heap index of the node that the climb from leaf `k` computes at `level`. */
  function ParentAt(levels: nat, level: nat, k: nat): (p: nat)
    requires level < levels && k < Pow2(levels)
    ensures 2 * p + 3 <= 2 * Pow2(levels) - 1
    decreases level
  {
    if level == 0 then Pow2(levels - 1) - 1 + k / 2 else ParentAt(levels - 1, level - 1, k / 2)
  }

  /** `k` without its `n` lowest bits. */
  function ShiftedRight(k: nat, n: nat): nat
    decreases n
  {
    if n == 0 then k else ShiftedRight(k / 2, n - 1)
  }

  /** At `level` levels above the leaf, the climb hashes another pair than the tree, to the same hash. */
  ghost predicate CollisionAt(sponge: Sponge, tree: seq<Trit>, hash: seq<Trit>, path: seq<Trit>, k: nat, levels: nat, level: nat)
    requires level < levels && (2 * Pow2(levels) - 1) * HASH_LEN <= |tree| && k < Pow2(levels)
    requires (level + 1) * HASH_LEN <= |path|
  {
    var p := ParentAt(levels, level, k);
    var pair := Pair(Climb(sponge, hash, path, k, level), Chunk(path, level), ShiftedRight(k, level));
    var treePair := [Node(tree, 2 * p + 1), Node(tree, 2 * p + 2)];
    pair != treePair && sponge(pair, HASH_LEN) == sponge(treePair, HASH_LEN)
  }

  /** Where a climb of full siblings ends at the root of a tree, it started from the tree's own node, or at
      some level of the path there is a collision. */
  lemma {:induction false} ClimbIsGenuineOrCollides(sponge: Sponge, tree: seq<Trit>, half: nat, levels: nat, k: nat,
                                                    hash: seq<Trit>, path: seq<Trit>)
    requires half >= 1 && |tree| == (2 * half - 1) * HASH_LEN && InnerNodesHashed(sponge, tree, half, 0)
    requires Pow2(levels) <= half && k < Pow2(levels) && levels * HASH_LEN <= |path|
    requires Climb(sponge, hash, path, k, levels) == Node(tree, 0)
    ensures hash == Node(tree, Pow2(levels) - 1 + k) ||
      exists level :: 0 <= level < levels && CollisionAt(sponge, tree, hash, path, k, levels, level)
    decreases levels
  {
    if levels > 0 {
      var rest := path[HASH_LEN..];
      var up := sponge(Pair(hash, path[..HASH_LEN], k), HASH_LEN);
      var p := ParentAt(levels, 0, k);
      HeapChild(levels, k);
      ClimbUnfolds(sponge, hash, path, k, levels);
      ClimbIsGenuineOrCollides(sponge, tree, half, levels - 1, k / 2, up, rest);
      if up != Node(tree, p) {
        var level :| 0 <= level < levels - 1 && CollisionAt(sponge, tree, up, rest, k / 2, levels - 1, level);
        OneLevelUp(sponge, tree, levels, k, hash, path, level);
      } else if hash != Node(tree, 2 * p + 1 + k % 2) {
        assert HashesChildren(sponge, tree, p);
        FirstLevel(sponge, tree, levels, k, hash, path, p);
      }
    }
  }

  lemma HeapChild(levels: nat, k: nat)
    requires levels > 0 && k < Pow2(levels)
    ensures var p := ParentAt(levels, 0, k);
      k / 2 < Pow2(levels - 1) && p == Pow2(levels - 1) - 1 + k / 2 && Pow2(levels) - 1 + k == 2 * p + 1 + k % 2
  {
  }

  lemma ClimbUnfolds(sponge: Sponge, hash: seq<Trit>, path: seq<Trit>, k: nat, levels: nat)
    requires levels > 0 && HASH_LEN <= |path|
    ensures Climb(sponge, hash, path, k, levels) ==
      Climb(sponge, sponge(Pair(hash, path[..HASH_LEN], k), HASH_LEN), path[HASH_LEN..], k / 2, levels - 1)
  {
  }

  lemma FirstLevel(sponge: Sponge, tree: seq<Trit>, levels: nat, k: nat, hash: seq<Trit>, path: seq<Trit>, p: nat)
    requires 0 < levels && k < Pow2(levels) && HASH_LEN <= |path| && (2 * Pow2(levels) - 1) * HASH_LEN <= |tree|
    requires p == ParentAt(levels, 0, k) && HashesChildren(sponge, tree, p)
    requires sponge(Pair(hash, path[..HASH_LEN], k), HASH_LEN) == Node(tree, p)
    requires hash != Node(tree, 2 * p + 1 + k % 2)
    ensures CollisionAt(sponge, tree, hash, path, k, levels, 0)
  {
    assert Chunk(path, 0) == path[..HASH_LEN];
    assert Climb(sponge, hash, path, k, 0) == hash;
    PairsDiffer(tree, p, hash, path[..HASH_LEN], k);
  }

  lemma PairsDiffer(tree: seq<Trit>, p: nat, hash: seq<Trit>, sibling: seq<Trit>, k: nat)
    requires (2 * p + 3) * HASH_LEN <= |tree| && hash != Node(tree, 2 * p + 1 + k % 2)
    ensures Pair(hash, sibling, k) != [Node(tree, 2 * p + 1), Node(tree, 2 * p + 2)]
  {
    assert Pair(hash, sibling, k)[k % 2] == hash;
  }

  lemma OneLevelUp(sponge: Sponge, tree: seq<Trit>, levels: nat, k: nat, hash: seq<Trit>, path: seq<Trit>, level: nat)
    requires level + 1 < levels && (2 * Pow2(levels) - 1) * HASH_LEN <= |tree| && k < Pow2(levels)
    requires (level + 2) * HASH_LEN <= |path|
    requires CollisionAt(sponge, tree, sponge(Pair(hash, path[..HASH_LEN], k), HASH_LEN), path[HASH_LEN..], k / 2, levels - 1, level)
    ensures CollisionAt(sponge, tree, hash, path, k, levels, level + 1)
  {
    assert path == path[..HASH_LEN] + path[HASH_LEN..];
    ChunkBehind(path[..HASH_LEN], path[HASH_LEN..], level + 1);
  }

  /** Unforgeability up to collisions: a signature with full siblings for a leaf of the tree that is accepted
      under the tree's root recovers the one-time public key of that leaf, or at some level of its path hashes
      another pair than the tree does, to the same hash. */
  lemma AcceptedIsGenuineOrCollides(sponge: Sponge, tree: seq<Trit>, keys: seq<seq<Trit>>, depth: nat, message: seq<Trit>,
                                    s: MssSignature)
    requires 1 <= depth <= MAX_DEPTH && IsTree(sponge, tree, keys, Pow2(depth - 1)) && s.index < Pow2(depth - 1)
    requires |s.state| >= FRAGMENT_TRITS && |s.state| % FRAGMENT_TRITS == 0
    requires Accepts(sponge, Node(tree, 0), depth, message, s)
    ensures |SiblingTrits(s.state)| == FRAGMENT_TRITS
    ensures var recovered, siblings, levels := Recovered(sponge, OtsTrits(s.state), message), SiblingTrits(s.state), depth - 1;
      recovered == PublicKey(sponge, keys[s.index]) ||
      exists level :: 0 <= level < levels && CollisionAt(sponge, tree, recovered, siblings, s.index, levels, level)
  {
    FullSiblings(s.state);
    ClimbIsGenuineOrCollides(sponge, tree, Pow2(depth - 1), depth - 1, s.index,
                             Recovered(sponge, OtsTrits(s.state), message), SiblingTrits(s.state));
  }

  lemma FullSiblings(state: seq<Trit>)
    requires |state| >= FRAGMENT_TRITS && |state| % FRAGMENT_TRITS == 0
    ensures |SiblingTrits(state)| == FRAGMENT_TRITS && MAX_DEPTH * HASH_LEN <= |SiblingTrits(state)|
  {
  }

  lemma AcceptedWhenClimbs(sponge: Sponge, root: seq<Trit>, depth: nat, message: seq<Trit>, s: MssSignature,
                           ots: seq<Trit>, siblings: seq<Trit>)
    requires IsKey(ots) && |siblings| == FRAGMENT_TRITS && s.state == ots + siblings && depth >= 1
    requires Climb(sponge, Recovered(sponge, ots, message), siblings, s.index, depth - 1) == root
    ensures AcceptedAt(sponge, root, depth, message, s, s.index)
  {
    SplitSignature(s.state, ots, siblings);
  }

  lemma SplitSignature(state: seq<Trit>, ots: seq<Trit>, tail: seq<Trit>)
    requires |ots| % FRAGMENT_TRITS == 0 && |tail| == FRAGMENT_TRITS && state == ots + tail
    ensures OtsTrits(state) == ots && SiblingTrits(state) == tail
  {
    var n := |ots| / FRAGMENT_TRITS;
    assert |state| == (n + 1) * FRAGMENT_TRITS;
  }

  lemma MessageCovers(message: seq<Trit>, key: seq<Trit>, security: nat)
    requires |key| == security * FRAGMENT_TRITS && 81 * security <= |message|
    ensures Covers(message, key)
  {
  }

  // ----- Generating

  class MssPrivateKey {
    const sponge: Sponge
    const depth: nat
    const security: nat
    var index: nat
    var keys: seq<seq<Trit>>
    var tree: seq<Trit>

    /** A tree of depth 1 to 20 over keys of the security level, with leaves left to use. */
    ghost predicate Valid()
      reads this
    {
      && Lawful(sponge) && 1 <= depth <= MAX_DEPTH && 1 <= security <= 3
      && IsTree(sponge, tree, keys, Pow2(depth - 1))
      && (forall k :: 0 <= k < |keys| ==> |keys[k]| == security * FRAGMENT_TRITS)
      && index <= Pow2(depth - 1)
    }

    /** The part of `Generate` that runs once the depth has been found to be positive: leaves first, then
        each level from the leaves' parents up to the root. */
    constructor (sponge: Sponge, depth: nat, security: nat, seed: seq<Trit>)
      requires Lawful(sponge) && 1 <= depth <= MAX_DEPTH && 1 <= security <= 3
      ensures Valid() && index == 0 && this.sponge == sponge && this.depth == depth && this.security == security
      ensures forall k :: 0 <= k < |keys| ==> keys[k] == PrivateKey(sponge, seed, k, security)
    {
      this.sponge, this.depth, this.security, index := sponge, depth, security, 0;
      var ks, t := GenerateLeaves(sponge, Pow2(depth - 1), security, seed);
      t := GenerateLevels(sponge, t, depth);
      keys, tree := ks, t;
    }

    /** The root. */
    method GeneratePublicKey() returns (root: seq<Trit>)
      requires Valid()
      ensures root == Node(tree, 0)
    {
      root := tree[0..HASH_LEN];
    }

    /** The k-th call signs with leaf k, and its signature is accepted under the root, which no call
        changes. There is none exactly when the leaves are used up, on which the code panics. */
    method Sign(message: seq<Trit>) returns (r: Option<MssSignature>)
      requires Valid() && 81 * security <= |message|
      modifies this`index
      ensures Valid() && (r.Some? <==> old(index) < Pow2(depth - 1))
      ensures index == if r.Some? then old(index) + 1 else old(index)
      ensures r.Some? ==>
        && IsSignature(sponge, tree, keys, Pow2(depth - 1), old(index), message, r.value)
        && AcceptedAt(sponge, Node(tree, 0), depth, message, r.value, old(index))
        && r.value.index == old(index) && |r.value.state| >= FRAGMENT_TRITS
        && Accepts(sponge, Node(tree, 0), depth, message, r.value)
    {
      assert |keys| == Pow2(depth - 1);
      if index < |keys| {
        var s := SignLeaf(sponge, tree, keys, depth, security, index, message);
        index := index + 1;
        r := Some(s);
      } else {
        r := None;
      }
    }
  }

  // ----- The generator

  datatype GeneratorError = InvalidDepth(depth: nat) | MissingDepth | MissingGenerator

  datatype GeneratorResult = Generator(depth: nat, security: nat) | Refused(error: GeneratorError)

  /** Builds a generator from the fields of its builder. */
  function BuildGenerator(depth: Option<nat>, security: Option<nat>): (r: GeneratorResult)
    ensures r.Generator? <==> depth.Some? && security.Some? && depth.value <= MAX_DEPTH
  {
    match depth
    case None => Refused(MissingDepth)
    case Some(d) =>
      if d > MAX_DEPTH then Refused(InvalidDepth(d))
      else if security.None? then Refused(MissingGenerator)
      else Generator(d, security.value)
  }

  /** The number of leaves, `1 << (depth - 1)`; the subtraction is unsigned and panics below zero. */
  function LeafCount(depth: nat): Option<nat> {
    if depth == 0 then None else Some(Pow2(depth - 1))
  }

  datatype Generation = Generated(key: MssPrivateKey) | Panicked

  /** Generation, for every depth that the builder lets through. */
  method Generate(sponge: Sponge, depth: nat, security: nat, seed: seq<Trit>) returns (r: Generation)
    requires Lawful(sponge) && 1 <= security <= 3 && BuildGenerator(Some(depth), Some(security)).Generator?
    ensures r.Generated? <==> depth >= 1
    ensures r.Generated? ==>
      && fresh(r.key) && r.key.Valid() && r.key.index == 0 && r.key.sponge == sponge
      && r.key.depth == depth && r.key.security == security && LeafCount(depth) == Some(|r.key.keys|)
      && forall k :: 0 <= k < |r.key.keys| ==> r.key.keys[k] == PrivateKey(sponge, seed, k, security)
  {
    if LeafCount(depth).None? {
      return Panicked;
    }
    var key := new MssPrivateKey(sponge, depth, security, seed);
    r := Generated(key);
  }

  /** The builder accepts depth 0, and no leaves can be counted for it; every other depth it accepts has
      a positive number of leaves. */
  lemma AcceptedDepthGeneratesIff(depth: nat, security: nat)
    requires BuildGenerator(Some(depth), Some(security)).Generator?
    ensures LeafCount(depth).Some? <==> depth >= 1
    ensures depth >= 1 ==> 1 <= LeafCount(depth).value <= Pow2(MAX_DEPTH - 1)
    ensures BuildGenerator(Some(0), Some(security)) == Generator(0, security) && LeafCount(0) == None
  {
    if depth >= 1 {
      Pow2Adds(depth - 1, MAX_DEPTH - depth);
    }
  }

  /** The signature of leaf `k`, and that it is accepted. */
  method SignLeaf(sponge: Sponge, tree: seq<Trit>, keys: seq<seq<Trit>>, depth: nat, ghost security: nat, k: nat,
                  message: seq<Trit>) returns (s: MssSignature)
    requires Lawful(sponge) && 1 <= depth <= MAX_DEPTH && IsTree(sponge, tree, keys, Pow2(depth - 1)) && k < Pow2(depth - 1)
    requires security >= 1 && |keys[k]| == security * FRAGMENT_TRITS && 81 * security <= |message|
    ensures IsSignature(sponge, tree, keys, Pow2(depth - 1), k, message, s)
    ensures AcceptedAt(sponge, Node(tree, 0), depth, message, s, k)
  {
    MessageCovers(message, keys[k], security);
    s := BuildSignature(sponge, tree, keys, Pow2(depth - 1), k, message, depth - 1);
    SignaturesAccepted(sponge, tree, keys, depth, k, message, s);
  }

  /** The signature of leaf `k`. */
  method BuildSignature(sponge: Sponge, tree: seq<Trit>, keys: seq<seq<Trit>>, half: nat, k: nat, message: seq<Trit>,
                        ghost levels: nat) returns (s: MssSignature)
    requires Lawful(sponge) && IsTree(sponge, tree, keys, half) && k < half && Covers(message, keys[k])
    requires half == Pow2(levels) && levels < CHUNKS_PER_FRAGMENT
    ensures IsSignature(sponge, tree, keys, half, k, message, s)
  {
    var ots := Wots.Sign(sponge, keys[k], message);
    var path := CollectSiblings(tree, half, half - 1 + k);
    SiblingPathLength(tree, half, levels, k);
    s := MssSignature(ots + path + Zeros(FRAGMENT_TRITS - |path|), k);
  }

  method GenerateLeaves(sponge: Sponge, half: nat, security: nat, seed: seq<Trit>) returns (keys: seq<seq<Trit>>, tree: seq<Trit>)
    requires Lawful(sponge) && half >= 1
    ensures |keys| == half && |tree| == (2 * half - 1) * HASH_LEN
    ensures forall k :: 0 <= k < half ==>
      && keys[k] == PrivateKey(sponge, seed, k, security) && IsKey(keys[k])
      && |keys[k]| == security * FRAGMENT_TRITS
      && Node(tree, half - 1 + k) == PublicKey(sponge, keys[k])
  {
    keys, tree := [], Zeros((2 * half - 1) * HASH_LEN);
    for k := 0 to half
      invariant |keys| == k && |tree| == (2 * half - 1) * HASH_LEN
      invariant forall j :: 0 <= j < k ==>
        && keys[j] == PrivateKey(sponge, seed, j, security) && IsKey(keys[j])
        && |keys[j]| == security * FRAGMENT_TRITS
        && Node(tree, half - 1 + j) == PublicKey(sponge, keys[j])
    {
      var key := Wots.Generate(sponge, seed, k, security);
      var publicKey := Wots.GeneratePublicKey(sponge, key);
      ghost var before := tree;
      keys := keys + [key];
      tree := WriteAt(tree, (half - 1 + k) * HASH_LEN, publicKey);
      NodesAfterWrite(before, tree, half, half - 1 + k, publicKey);
    }
  }

  /** Writing a node changes that node and no other. */
  lemma NodesAfterWrite(before: seq<Trit>, tree: seq<Trit>, half: nat, index: nat, hash: seq<Trit>)
    requires index < 2 * half - 1 && |before| == (2 * half - 1) * HASH_LEN && |hash| == HASH_LEN
    requires tree == WriteAt(before, index * HASH_LEN, hash)
    ensures forall j :: 0 <= j < 2 * half - 1 ==> Node(tree, j) == if j == index then hash else Node(before, j)
  {
    forall j | 0 <= j < 2 * half - 1
      ensures Node(tree, j) == if j == index then hash else Node(before, j)
    {
      ChunkAfterWrite(before, index, hash, j);
    }
  }

  /** Hashes the inner levels, from the parents of the leaves up to the root. */
  method GenerateLevels(sponge: Sponge, leaves: seq<Trit>, depth: nat) returns (tree: seq<Trit>)
    requires Lawful(sponge) && depth >= 1 && |leaves| == (2 * Pow2(depth - 1) - 1) * HASH_LEN
    ensures |tree| == |leaves| && InnerNodesHashed(sponge, tree, Pow2(depth - 1), 0)
    ensures forall i :: Pow2(depth - 1) - 1 <= i < 2 * Pow2(depth - 1) - 1 ==> Node(tree, i) == Node(leaves, i)
  {
    tree := leaves;
    ghost var half := Pow2(depth - 1);
    for level := depth - 1 downto 0
      invariant |tree| == |leaves| && Pow2(level) <= half && InnerNodesHashed(sponge, tree, half, Pow2(level) - 1)
      invariant forall i :: half - 1 <= i < 2 * half - 1 ==> Node(tree, i) == Node(leaves, i)
    {
      tree := GenerateLevel(sponge, tree, Pow2(level), half);
    }
  }

  /** Hashes the `width` nodes of one level, first to last. */
  method GenerateLevel(sponge: Sponge, below: seq<Trit>, width: nat, ghost half: nat) returns (tree: seq<Trit>)
    requires Lawful(sponge) && 1 <= width && 2 * width <= half && |below| == (2 * half - 1) * HASH_LEN
    requires InnerNodesHashed(sponge, below, half, 2 * width - 1)
    ensures |tree| == |below| && InnerNodesHashed(sponge, tree, half, width - 1)
    ensures forall j :: 2 * width - 1 <= j < 2 * half - 1 ==> Node(tree, j) == Node(below, j)
  {
    tree := below;
    for i := 0 to width
      invariant |tree| == |below|
      invariant forall j :: 2 * width - 1 <= j < 2 * half - 1 ==> Node(tree, j) == Node(below, j)
      invariant forall j :: width - 1 <= j < width + i - 1 ==> HashesChildren(sponge, tree, j)
    {
      var index := width + i - 1;
      var hash := sponge([Node(tree, 2 * index + 1), Node(tree, 2 * index + 2)], HASH_LEN);
      ghost var before := tree;
      tree := WriteAt(tree, index * HASH_LEN, hash);
      NodesAfterWrite(before, tree, half, index, hash);
      forall j | width - 1 <= j < index
        ensures HashesChildren(sponge, tree, j)
      {
        assert HashesChildren(sponge, before, j);
      }
      assert HashesChildren(sponge, tree, index);
    }
    forall j | 2 * width - 1 <= j < half - 1
      ensures HashesChildren(sponge, tree, j)
    {
      assert HashesChildren(sponge, below, j);
    }
  }

  /** The sibling loop of signing. */
  method CollectSiblings(tree: seq<Trit>, half: nat, leaf: nat) returns (path: seq<Trit>)
    requires leaf < 2 * half - 1 && |tree| == (2 * half - 1) * HASH_LEN
    ensures path == SiblingPath(tree, half, leaf)
  {
    path := [];
    var treeIndex: nat := leaf;
    while treeIndex != 0
      invariant treeIndex < 2 * half - 1
      invariant path + SiblingPath(tree, half, treeIndex) == SiblingPath(tree, half, leaf)
    {
      var siblingIndex: nat;
      ghost var node := treeIndex;
      if treeIndex % 2 != 0 {
        siblingIndex := treeIndex + 1;
        treeIndex := treeIndex / 2;
      } else {
        siblingIndex := treeIndex - 1;
        treeIndex := (treeIndex - 1) / 2;
      }
      assert treeIndex == Parent(node) && siblingIndex == Sibling(node);
      OneSiblingMore(tree, half, node, path);
      path := path + Node(tree, siblingIndex);
    }
    assert path + [] == path;
  }

  lemma OneSiblingMore(tree: seq<Trit>, half: nat, node: nat, path: seq<Trit>)
    requires 0 < node < 2 * half - 1 && |tree| == (2 * half - 1) * HASH_LEN
    ensures path + SiblingPath(tree, half, node)
         == path + Node(tree, Sibling(node)) + SiblingPath(tree, half, Parent(node))
  {
  }

  /** Verification: the running mask picks the bits of the index from the lowest up. */
  method Verify(sponge: Sponge, root: seq<Trit>, depth: nat, message: seq<Trit>, s: MssSignature) returns (accepted: bool)
    requires Lawful(sponge) && depth >= 1 && |s.state| >= FRAGMENT_TRITS && Covers(message, OtsTrits(s.state))
    ensures accepted <==> Accepts(sponge, root, depth, message, s)
  {
    var left := SiblingTrits(s.state);
    var hash := RecoverPublicKey(sponge, OtsTrits(s.state), message);
    ghost var climbed := Climb(sponge, hash, left, s.index, depth - 1);
    var j, i := 1, 0;
    while left != [] && depth - 1 != i
      invariant 0 <= i <= depth - 1 && j >= 1
      invariant Climb(sponge, hash, left, s.index / j, depth - 1 - i) == climbed
      decreases |left|
    {
      var n := PieceLen(|left|);
      var sibling := left[..n];
      HalfQuotient(s.index, j);
      if s.index / j % 2 == 1 {
        hash := sponge([sibling, hash], HASH_LEN);
      } else {
        hash := sponge([hash, sibling], HASH_LEN);
      }
      j, i, left := 2 * j, i + 1, left[n..];
    }
    accepted := hash == root;
  }

  lemma HalfQuotient(n: nat, j: nat)
    requires j >= 1
    ensures n / (2 * j) == n / j / 2
  {
    var q, r := n / j, n % j;
    var h, b := q / 2, q % 2;
    assert n == q * j + r && q == 2 * h + b;
    assert q * j == h * (2 * j) + b * j;
    QuotientUnique(n, 2 * j, h, b * j + r);
  }

  /** The signatures use consecutive leaves from `start` on, and every one of them is accepted. */
  ghost predicate AllAccepted(sponge: Sponge, root: seq<Trit>, depth: nat, messages: seq<seq<Trit>>,
                              signatures: seq<MssSignature>, start: nat)
  {
    |signatures| <= |messages| && forall n :: 0 <= n < |signatures| ==>
      AcceptedAt(sponge, root, depth, messages[n], signatures[n], start + n)
  }

  lemma OneMoreAccepted(sponge: Sponge, root: seq<Trit>, depth: nat, messages: seq<seq<Trit>>,
                        signatures: seq<MssSignature>, start: nat, s: MssSignature)
    requires AllAccepted(sponge, root, depth, messages, signatures, start) && |signatures| < |messages|
    requires AcceptedAt(sponge, root, depth, messages[|signatures|], s, start + |signatures|)
    ensures AllAccepted(sponge, root, depth, messages, signatures + [s], start)
  {
  }

  /** A run of signing calls, up to the one that finds no leaf left: the signatures use consecutive leaves,
      each once, and every one of them is accepted under the one root. */
  method SignRun(key: MssPrivateKey, messages: seq<seq<Trit>>) returns (signatures: seq<MssSignature>)
    requires key.Valid() && forall n :: 0 <= n < |messages| ==> 81 * key.security <= |messages[n]|
    modifies key`index
    ensures key.Valid() && key.index == old(key.index) + |signatures|
    ensures |signatures| == |messages| || (|signatures| < |messages| && key.index == Pow2(key.depth - 1))
    ensures forall n :: 0 <= n < |signatures| ==>
      && signatures[n].index == old(key.index) + n && |signatures[n].state| >= FRAGMENT_TRITS
      && Accepts(key.sponge, Node(key.tree, 0), key.depth, messages[n], signatures[n])
  {
    signatures := [];
    ghost var root, start := Node(key.tree, 0), key.index;
    for n := 0 to |messages|
      invariant key.Valid() && key.index == start + n && |signatures| == n
      invariant AllAccepted(key.sponge, root, key.depth, messages, signatures, start)
    {
      var s := key.Sign(messages[n]);
      if s.None? {
        return;
      }
      OneMoreAccepted(key.sponge, root, key.depth, messages, signatures, start, s.value);
      signatures := signatures + [s.value];
    }
  }
}
