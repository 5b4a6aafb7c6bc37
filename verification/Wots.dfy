/**
 Winternitz one-time signatures over a sponge. The sponge is any deterministic function from the list
 of inputs absorbed since the last reset, and the number of trits to squeeze, to the squeezed trits.
 */
module Wots {

  import opened Ternary
  import opened Curl
  import opened Normalization

  const FRAGMENT_TRITS := 6561
  const CHUNKS_PER_FRAGMENT := 27
  const CHAIN_LEN := 26

  type Sponge = (seq<seq<Trit>>, nat) -> seq<Trit>

  /** The sponge squeezes as many trits as it is asked for. */
  ghost predicate Lawful(sponge: Sponge) {
    forall inputs, n :: |sponge(inputs, n)| == n
  }

  /** Curl is such a sponge. */
  function CurlSponge(rounds: nat): Sponge {
    (inputs, n) => Squeezed(AbsorbedAll(Zeros(STATE_LEN), inputs, rounds), n, rounds)
  }

  function AbsorbedAll(s: CurlState, inputs: seq<seq<Trit>>, rounds: nat): CurlState
    decreases |inputs|
  {
    if inputs == [] then s else AbsorbedAll(Absorbed(s, inputs[0], rounds), inputs[1..], rounds)
  }

  lemma CurlSpongeLawful(rounds: nat)
    ensures Lawful(CurlSponge(rounds))
  {
  }

  // ----- Hash chains

  /** A 243-trit chunk hashed `k` times. */
  function Chain(sponge: Sponge, c: seq<Trit>, k: nat): seq<Trit> {
    if k == 0 then c else sponge([Chain(sponge, c, k - 1)], HASH_LEN)
  }

  lemma ChainLength(sponge: Sponge, c: seq<Trit>, k: nat)
    requires Lawful(sponge) && |c| == HASH_LEN
    ensures |Chain(sponge, c, k)| == HASH_LEN
  {
  }

  lemma {:induction false} ChainAdds(sponge: Sponge, c: seq<Trit>, a: nat, b: nat)
    ensures Chain(sponge, Chain(sponge, c, a), b) == Chain(sponge, c, a + b)
    decreases b
  {
    if b > 0 { ChainAdds(sponge, c, a, b - 1); }
  }

  /** Every chunk of a buffer, from chunk `i` on, hashed its own number of times. */
  function Advanced(sponge: Sponge, s: seq<Trit>, steps: nat -> nat, i: nat): seq<Trit>
    requires |s| % HASH_LEN == 0
    decreases |s|
  {
    if s == [] then [] else Chain(sponge, s[..HASH_LEN], steps(i)) + Advanced(sponge, s[HASH_LEN..], steps, i + 1)
  }

  lemma {:induction false} AdvancedLength(sponge: Sponge, s: seq<Trit>, steps: nat -> nat, i: nat)
    requires Lawful(sponge) && |s| % HASH_LEN == 0
    ensures |Advanced(sponge, s, steps, i)| == |s|
    decreases |s|
  {
    if s != [] {
      ChainLength(sponge, s[..HASH_LEN], steps(i));
      AdvancedLength(sponge, s[HASH_LEN..], steps, i + 1);
    }
  }

  /** Advancing twice is advancing by the sum. */
  lemma {:induction false} AdvancedAdds(sponge: Sponge, s: seq<Trit>, f: nat -> nat, g: nat -> nat, h: nat -> nat, i: nat)
    requires Lawful(sponge) && |s| % HASH_LEN == 0
    requires forall j :: f(j) + g(j) == h(j)
    ensures |Advanced(sponge, s, f, i)| % HASH_LEN == 0
    ensures Advanced(sponge, Advanced(sponge, s, f, i), g, i) == Advanced(sponge, s, h, i)
    decreases |s|
  {
    AdvancedLength(sponge, s, f, i);
    if s != [] {
      var first, rest := Chain(sponge, s[..HASH_LEN], f(i)), Advanced(sponge, s[HASH_LEN..], f, i + 1);
      ChainLength(sponge, s[..HASH_LEN], f(i));
      AdvancedLength(sponge, s[HASH_LEN..], f, i + 1);
      AdvancedCons(sponge, first, rest, g, i);
      ChainAdds(sponge, s[..HASH_LEN], f(i), g(i));
      AdvancedAdds(sponge, s[HASH_LEN..], f, g, h, i + 1);
    }
  }

  lemma AdvancedCons(sponge: Sponge, first: seq<Trit>, rest: seq<Trit>, g: nat -> nat, i: nat)
    requires |first| == HASH_LEN && |rest| % HASH_LEN == 0
    ensures |first + rest| % HASH_LEN == 0
    ensures Advanced(sponge, first + rest, g, i) == Chain(sponge, first, g(i)) + Advanced(sponge, rest, g, i + 1)
  {
    assert (first + rest)[..HASH_LEN] == first && (first + rest)[HASH_LEN..] == rest;
  }

  /** Every chunk is advanced by its own number of steps. */
  lemma {:induction false} AdvancedChunk(sponge: Sponge, s: seq<Trit>, steps: nat -> nat, i: nat, j: nat)
    requires Lawful(sponge) && |s| % HASH_LEN == 0 && (j + 1) * HASH_LEN <= |s|
    ensures |Advanced(sponge, s, steps, i)| == |s|
    ensures Chunk(Advanced(sponge, s, steps, i), j) == Chain(sponge, Chunk(s, j), steps(i + j))
    decreases |s|
  {
    AdvancedLength(sponge, s, steps, i);
    var first, rest := Chain(sponge, s[..HASH_LEN], steps(i)), Advanced(sponge, s[HASH_LEN..], steps, i + 1);
    ChainLength(sponge, s[..HASH_LEN], steps(i));
    AdvancedLength(sponge, s[HASH_LEN..], steps, i + 1);
    if j == 0 {
      assert (first + rest)[0..HASH_LEN] == first && s[0..HASH_LEN] == s[..HASH_LEN];
    } else {
      AdvancedChunk(sponge, s[HASH_LEN..], steps, i + 1, j - 1);
      ChunkBehind(first, rest, j);
      assert s == s[..HASH_LEN] + s[HASH_LEN..];
      ChunkBehind(s[..HASH_LEN], s[HASH_LEN..], j);
    }
  }

  lemma ChunkBehind(first: seq<Trit>, rest: seq<Trit>, j: nat)
    requires |first| == HASH_LEN && j > 0 && j * HASH_LEN <= |rest|
    ensures Chunk(first + rest, j) == Chunk(rest, j - 1)
  {
  }

  /** The tryte of the message that chunk `i` signs. */
  function SignedTryte(message: seq<Trit>, i: nat): Tryte {
    if 3 * i + 3 <= |message| then TryteAt(message, i) else 0
  }

  /** Hash-chain steps of signing and of recovering. */
  function SignSteps(message: seq<Trit>): nat -> nat {
    (i: nat) => MAX_TRYTE_VALUE - SignedTryte(message, i)
  }

  function RecoverSteps(message: seq<Trit>): nat -> nat {
    (i: nat) => SignedTryte(message, i) - MIN_TRYTE_VALUE
  }

  const ALL_STEPS: nat -> nat := _ => CHAIN_LEN

  // ----- Public keys

  /** One digest per fragment of 6561 trits. */
  function FragmentDigests(sponge: Sponge, s: seq<Trit>): seq<Trit>
    decreases |s|
  {
    if |s| < FRAGMENT_TRITS then [] else sponge([s[..FRAGMENT_TRITS]], HASH_LEN) + FragmentDigests(sponge, s[FRAGMENT_TRITS..])
  }

  function KeyDigest(sponge: Sponge, s: seq<Trit>): seq<Trit> {
    sponge([FragmentDigests(sponge, s)], HASH_LEN)
  }

  /** Fragment `f`, of 27 chunks. */
  function KeyFragment(s: seq<Trit>, f: nat): seq<Trit>
    requires (f + 1) * FRAGMENT_TRITS <= |s|
  {
    s[f * FRAGMENT_TRITS..(f + 1) * FRAGMENT_TRITS]
  }

  lemma FragmentBehind(s: seq<Trit>, f: nat)
    requires f > 0 && (f + 1) * FRAGMENT_TRITS <= |s|
    ensures KeyFragment(s, f) == KeyFragment(s[FRAGMENT_TRITS..], f - 1)
  {
    var from, to := (f - 1) * FRAGMENT_TRITS, f * FRAGMENT_TRITS;
    assert s[FRAGMENT_TRITS..][from..to] == s[FRAGMENT_TRITS + from..FRAGMENT_TRITS + to];
  }

  lemma {:induction false} FragmentDigestsChunk(sponge: Sponge, s: seq<Trit>, f: nat)
    requires Lawful(sponge)
    ensures |FragmentDigests(sponge, s)| == |s| / FRAGMENT_TRITS * HASH_LEN
    ensures (f + 1) * FRAGMENT_TRITS <= |s| ==>
      Chunk(FragmentDigests(sponge, s), f) == sponge([KeyFragment(s, f)], HASH_LEN)
    decreases |s|
  {
    if |s| >= FRAGMENT_TRITS {
      var first, rest := sponge([s[..FRAGMENT_TRITS]], HASH_LEN), s[FRAGMENT_TRITS..];
      FragmentDigestsChunk(sponge, rest, if f == 0 then 0 else f - 1);
      if (f + 1) * FRAGMENT_TRITS <= |s| {
        if f == 0 {
          assert KeyFragment(s, 0) == s[..FRAGMENT_TRITS];
          assert (first + FragmentDigests(sponge, rest))[0..HASH_LEN] == first;
        } else {
          ChunkBehind(first, FragmentDigests(sponge, rest), f);
          FragmentBehind(s, f);
        }
      }
    }
  }

  /** The public key is the digest of the digests of all fragments of the chains' ends. */
  ghost predicate DigestOfEnds(sponge: Sponge, ends: seq<Trit>, digests: seq<Trit>, publicKey: seq<Trit>) {
    && |digests| == |ends| / FRAGMENT_TRITS * HASH_LEN && publicKey == sponge([digests], HASH_LEN)
    && forall f :: 0 <= f < |ends| / FRAGMENT_TRITS ==> Chunk(digests, f) == sponge([KeyFragment(ends, f)], HASH_LEN)
  }

  lemma KeyDigestIsDigestOfEnds(sponge: Sponge, ends: seq<Trit>)
    requires Lawful(sponge)
    ensures DigestOfEnds(sponge, ends, FragmentDigests(sponge, ends), KeyDigest(sponge, ends))
  {
    FragmentDigestsChunk(sponge, ends, 0);
    forall f | 0 <= f < |ends| / FRAGMENT_TRITS
      ensures Chunk(FragmentDigests(sponge, ends), f) == sponge([KeyFragment(ends, f)], HASH_LEN)
    {
      FragmentDigestsChunk(sponge, ends, f);
    }
  }

  lemma WholeFragments(n: nat)
    ensures n * FRAGMENT_TRITS % HASH_LEN == 0 && n * FRAGMENT_TRITS % FRAGMENT_TRITS == 0
  {
    RemainderUnique(n * FRAGMENT_TRITS, HASH_LEN, 27 * n, 0);
    RemainderUnique(n * FRAGMENT_TRITS, FRAGMENT_TRITS, n, 0);
  }

  predicate IsKey(s: seq<Trit>) {
    |s| % HASH_LEN == 0 && |s| % FRAGMENT_TRITS == 0
  }

  /** The public key of a private key: all chains hashed to the end. */
  function PublicKey(sponge: Sponge, key: seq<Trit>): seq<Trit>
    requires IsKey(key)
  {
    KeyDigest(sponge, Advanced(sponge, key, ALL_STEPS, 0))
  }

  function Signature(sponge: Sponge, key: seq<Trit>, message: seq<Trit>): seq<Trit>
    requires IsKey(key)
  {
    Advanced(sponge, key, SignSteps(message), 0)
  }

  function Recovered(sponge: Sponge, signature: seq<Trit>, message: seq<Trit>): seq<Trit>
    requires IsKey(signature)
  {
    KeyDigest(sponge, Advanced(sponge, signature, RecoverSteps(message), 0))
  }

  /** The message covers every chunk of the key. */
  predicate Covers(message: seq<Trit>, s: seq<Trit>) {
    3 * (|s| / HASH_LEN) <= |message|
  }

  /** Recovering the public key from a signature gives the signer's public key, for every key, message
      and sponge: each chain is cut at the message's tryte and completed from there. */
  lemma WotsRoundTrip(sponge: Sponge, key: seq<Trit>, message: seq<Trit>)
    requires Lawful(sponge) && IsKey(key) && Covers(message, key)
    ensures |Signature(sponge, key, message)| == |key|
    ensures Recovered(sponge, Signature(sponge, key, message), message) == PublicKey(sponge, key)
  {
    AdvancedLength(sponge, key, SignSteps(message), 0);
    AdvancedAdds(sponge, key, SignSteps(message), RecoverSteps(message), ALL_STEPS, 0);
  }

  // ----- The loops

  /** Hashes one chunk `k` times. */
  method HashChunk(sponge: Sponge, chunk: seq<Trit>, k: nat) returns (r: seq<Trit>)
    ensures r == Chain(sponge, chunk, k)
  {
    r := chunk;
    for n := 0 to k
      invariant r == Chain(sponge, chunk, n)
    {
      r := sponge([r], HASH_LEN);
    }
  }

  /** Rehashes every chunk of the buffer in place. */
  method AdvanceChunks(sponge: Sponge, buf: seq<Trit>, steps: nat -> nat) returns (state: seq<Trit>)
    requires Lawful(sponge) && |buf| % HASH_LEN == 0
    ensures |state| == |buf| && state == Advanced(sponge, buf, steps, 0)
  {
    state := buf;
    var i, at := 0, 0;
    while at < |buf|
      invariant at == i * HASH_LEN <= |buf| && |state| == |buf|
      invariant state[..at] + Advanced(sponge, state[at..], steps, i) == Advanced(sponge, buf, steps, 0)
    {
      var chunk := state[at..at + HASH_LEN];
      var hashed := HashChunk(sponge, chunk, steps(i));
      ChainLength(sponge, chunk, steps(i));
      AdvanceOne(sponge, state, steps, i, at, hashed);
      state := state[..at] + hashed + state[at + HASH_LEN..];
      i, at := i + 1, at + HASH_LEN;
    }
    assert state[at..] == [] && state[..at] == state;
  }

  lemma AdvanceOne(sponge: Sponge, state: seq<Trit>, steps: nat -> nat, i: nat, at: nat, hashed: seq<Trit>)
    requires at + HASH_LEN <= |state| && (|state| - at) % HASH_LEN == 0 && |hashed| == HASH_LEN
    requires hashed == Chain(sponge, state[at..at + HASH_LEN], steps(i))
    ensures var next := state[..at] + hashed + state[at + HASH_LEN..];
      && |next| == |state| && (|next| - at - HASH_LEN) % HASH_LEN == 0
      && next[..at + HASH_LEN] + Advanced(sponge, next[at + HASH_LEN..], steps, i + 1)
          == state[..at] + Advanced(sponge, state[at..], steps, i)
  {
    var next := state[..at] + hashed + state[at + HASH_LEN..];
    assert state[at..][..HASH_LEN] == state[at..at + HASH_LEN];
    assert state[at..][HASH_LEN..] == state[at + HASH_LEN..] == next[at + HASH_LEN..];
    assert next[..at + HASH_LEN] == state[..at] + hashed;
  }

  method DigestKey(sponge: Sponge, state: seq<Trit>) returns (hash: seq<Trit>)
    requires IsKey(state)
    ensures hash == KeyDigest(sponge, state)
  {
    var digests := [];
    for i := 0 to |state| / FRAGMENT_TRITS
      invariant digests + FragmentDigests(sponge, state[i * FRAGMENT_TRITS..]) == FragmentDigests(sponge, state)
    {
      var fragment := state[i * FRAGMENT_TRITS..(i + 1) * FRAGMENT_TRITS];
      assert state[i * FRAGMENT_TRITS..][..FRAGMENT_TRITS] == fragment;
      assert state[i * FRAGMENT_TRITS..][FRAGMENT_TRITS..] == state[(i + 1) * FRAGMENT_TRITS..];
      digests := digests + sponge([fragment], HASH_LEN);
    }
    assert FragmentDigests(sponge, state[|state| / FRAGMENT_TRITS * FRAGMENT_TRITS..]) == [];
    assert digests == FragmentDigests(sponge, state);
    hash := sponge([digests], HASH_LEN);
  }

  method GeneratePublicKey(sponge: Sponge, key: seq<Trit>) returns (publicKey: seq<Trit>)
    requires Lawful(sponge) && IsKey(key)
    ensures publicKey == PublicKey(sponge, key)
    ensures exists ends, digests ::
      && |ends| == |key| && DigestOfEnds(sponge, ends, digests, publicKey)
      && forall i :: 0 <= i < |key| / HASH_LEN ==> Chunk(ends, i) == Chain(sponge, Chunk(key, i), 26)
  {
    var hashed := AdvanceChunks(sponge, key, ALL_STEPS);
    publicKey := DigestKey(sponge, hashed);
    KeyDigestIsDigestOfEnds(sponge, hashed);
    forall i | 0 <= i < |key| / HASH_LEN ensures Chunk(hashed, i) == Chain(sponge, Chunk(key, i), 26) {
      AdvancedChunk(sponge, key, ALL_STEPS, 0, i);
    }
  }

  method Sign(sponge: Sponge, key: seq<Trit>, message: seq<Trit>) returns (signature: seq<Trit>)
    requires Lawful(sponge) && IsKey(key) && Covers(message, key)
    ensures |signature| == |key| && signature == Signature(sponge, key, message)
    ensures forall i :: 0 <= i < |key| / HASH_LEN ==>
      Chunk(signature, i) == Chain(sponge, Chunk(key, i), 13 - TryteAt(message, i))
  {
    signature := AdvanceChunks(sponge, key, SignSteps(message));
    forall i | 0 <= i < |key| / HASH_LEN
      ensures Chunk(signature, i) == Chain(sponge, Chunk(key, i), 13 - TryteAt(message, i))
    {
      AdvancedChunk(sponge, key, SignSteps(message), 0, i);
    }
  }

  method RecoverPublicKey(sponge: Sponge, signature: seq<Trit>, message: seq<Trit>) returns (publicKey: seq<Trit>)
    requires Lawful(sponge) && IsKey(signature) && Covers(message, signature)
    ensures publicKey == Recovered(sponge, signature, message)
    ensures exists ends, digests ::
      && |ends| == |signature| && DigestOfEnds(sponge, ends, digests, publicKey)
      && forall i :: 0 <= i < |signature| / HASH_LEN ==>
           Chunk(ends, i) == Chain(sponge, Chunk(signature, i), TryteAt(message, i) + 13)
  {
    var state := AdvanceChunks(sponge, signature, RecoverSteps(message));
    publicKey := DigestKey(sponge, state);
    KeyDigestIsDigestOfEnds(sponge, state);
    forall i | 0 <= i < |signature| / HASH_LEN
      ensures Chunk(state, i) == Chain(sponge, Chunk(signature, i), TryteAt(message, i) + 13)
    {
      AdvancedChunk(sponge, signature, RecoverSteps(message), 0, i);
    }
  }

  // ----- Key generation

  function Incremented(ts: seq<Trit>, n: nat): (r: seq<Trit>)
    ensures |r| == |ts|
  {
    if n == 0 then ts else Increment(Incremented(ts, n - 1))
  }

  /** The private key for an index of a seed: the seed plus the index, hashed, then stretched. */
  function PrivateKey(sponge: Sponge, seed: seq<Trit>, index: nat, security: nat): seq<Trit> {
    sponge([sponge([Incremented(seed, index)], HASH_LEN)], security * FRAGMENT_TRITS)
  }

  /** Counting from a seed visits distinct strings until all `3^n` of them are used. */
  lemma {:induction false} IncrementedValue(ts: seq<Trit>, n: nat) returns (wraps: nat)
    ensures Value(Incremented(ts, n)) == Value(ts) + n - wraps * Pow3(|ts|)
  {
    if n == 0 {
      wraps := 0;
    } else {
      wraps := IncrementedValue(ts, n - 1);
      var before := Incremented(ts, n - 1);
      IncrementAddsOne(before);
      if AllOnes(before) {
        assert (wraps + 1) * Pow3(|ts|) == wraps * Pow3(|ts|) + Pow3(|ts|);
        wraps := wraps + 1;
      }
    }
  }

  lemma SubseedsDistinct(seed: seq<Trit>, i: nat, j: nat)
    requires i < j < i + Pow3(|seed|)
    ensures Incremented(seed, i) != Incremented(seed, j)
  {
    var a := IncrementedValue(seed, i);
    var b := IncrementedValue(seed, j);
    NoMultipleBetween(i, j, Pow3(|seed|), a, b);
  }

  lemma NoMultipleBetween(i: int, j: int, p: nat, a: int, b: int)
    requires i < j < i + p
    ensures i - a * p != j - b * p
  {
    var k := b - a;
    assert b * p - a * p == k * p;
    assert k >= 1 ==> k * p >= p;
    assert k <= 0 ==> k * p <= 0;
  }

  /** `counted` is `seed` plus `n`, modulo `3^|seed|`. */
  ghost predicate CountedUp(seed: seq<Trit>, n: nat, counted: seq<Trit>) {
    |counted| == |seed| && exists wraps: nat :: Value(counted) == Value(seed) + n - Multiple(wraps, Pow3(|seed|))
  }

  function Multiple(k: nat, p: nat): nat {
    k * p
  }

  lemma CountedUpIncremented(seed: seq<Trit>, n: nat)
    ensures CountedUp(seed, n, Incremented(seed, n))
  {
    var wraps := IncrementedValue(seed, n);
    assert Value(Incremented(seed, n)) == Value(seed) + n - Multiple(wraps, Pow3(|seed|));
  }

  /** The counting loops of `subseed`, and the two digests. */
  method Generate(sponge: Sponge, seed: seq<Trit>, index: nat, security: nat) returns (key: seq<Trit>)
    requires Lawful(sponge)
    ensures key == PrivateKey(sponge, seed, index, security) && IsKey(key)
    ensures exists counted ::
      CountedUp(seed, index, counted) && key == sponge([sponge([counted], HASH_LEN)], security * FRAGMENT_TRITS)
  {
    CountedUpIncremented(seed, index);
    WholeFragments(security);
    var subseed := seed;
    for n := 0 to index
      invariant subseed == Incremented(seed, n)
    {
      subseed := IncrementInPlace(subseed);
    }
    key := sponge([sponge([subseed], HASH_LEN)], security * FRAGMENT_TRITS);
  }

  /** The carry loop over a trit buffer. */
  method IncrementInPlace(buf: seq<Trit>) returns (r: seq<Trit>)
    ensures r == Increment(buf)
  {
    r := buf;
    for i := 0 to |buf|
      invariant |r| == |buf| && forall k :: 0 <= k < i ==> buf[k] == 1 && r[k] == -1
      invariant forall k :: i <= k < |buf| ==> r[k] == buf[k]
    {
      if r[i] != 1 {
        r := r[i := r[i] + 1];
        RippleIsIncrement(buf, r, i + 1, false);
        return;
      } else {
        r := r[i := -1];
      }
    }
    RippleIsIncrement(buf, r, |buf|, true);
  }
}
