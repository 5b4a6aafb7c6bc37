/**
 Sealing an outgoing bundle: numbering its transactions, checking that the values cancel out, and
 choosing an obsolete tag for which the bundle hash has no tryte 13 once normalised.
 */
module Sealing {

  import opened Common
  import opened Ternary
  import opened NumConversions
  import opened Normalization
  import opened Wots

  const ADDRESS_LEN := 243
  const TAG_LEN := 81
  const ESSENCE_LEN := 486

  /** The fields of a transaction builder that sealing reads or writes. */
  datatype Builder = Builder(
    payload: Option<seq<Trit>>,
    address: Option<seq<Trit>>,
    value: Option<i64>,
    obsoleteTag: Option<seq<Trit>>,
    timestamp: Option<u64>,
    index: Option<nat>,
    lastIndex: Option<nat>,
    bundle: Option<seq<Trit>>,
    tag: Option<seq<Trit>>)

  datatype SealError = MissingField(name: string) | InvalidValue(sum: i64)

  /** `Panicked` stands for the panics of the code: an index below zero for an empty builder, an `i64`
      overflow, an absent or ill-sized field when the essence is put together. */
  datatype Outcome = Sealed(builders: seq<Builder>) | Failed(error: SealError) | Panicked

  // ----- Essence

  /** The fields of the essence are there and have their sizes; `lastIndex` fits the last 27 trits. */
  predicate HasEssence(b: Builder) {
    && b.address.Some? && |b.address.value| == ADDRESS_LEN
    && b.value.Some?
    && b.obsoleteTag.Some? && |b.obsoleteTag.value| == TAG_LEN
    && b.timestamp.Some?
    && b.index.Some? && b.index.value <= I64_MAX
    && b.lastIndex.Some? && |TritsOf(b.lastIndex.value)| <= 27
  }

  /** Six pieces written one after the other at fixed offsets. */
  function WriteSix(z: seq<Trit>, a: seq<Trit>, v: seq<Trit>, o: seq<Trit>, t: seq<Trit>, i: seq<Trit>, l: seq<Trit>): (e: seq<Trit>)
    requires |z| == ESSENCE_LEN && |a| == ADDRESS_LEN && |o| == TAG_LEN
    requires |v| <= MAX_TRITS_IN_I64 && |t| <= MAX_TRITS_IN_I64 && |i| <= MAX_TRITS_IN_I64 && |l| <= 27
    ensures |e| == ESSENCE_LEN
  {
    var e0 := WriteAt(z, 0, a);
    var e1 := WriteAt(e0, 243, v);
    var e2 := WriteAt(e1, 324, o);
    var e3 := WriteAt(e2, 405, t);
    var e4 := WriteAt(e3, 432, i);
    WriteAt(e4, 459, l)
  }

  /** Where no number is longer than its field, every piece is read back from its place, followed by what was
      there; address, value and tag always are. */
  lemma WriteSixReads(z: seq<Trit>, a: seq<Trit>, v: seq<Trit>, o: seq<Trit>, t: seq<Trit>, i: seq<Trit>, l: seq<Trit>)
    requires |z| == ESSENCE_LEN && |a| == ADDRESS_LEN && |o| == TAG_LEN
    requires |v| <= MAX_TRITS_IN_I64 && |t| <= MAX_TRITS_IN_I64 && |i| <= MAX_TRITS_IN_I64 && |l| <= 27
    ensures var e := WriteSix(z, a, v, o, t, i, l);
      && e[0..243] == a && e[243..324] == v + z[243..324][|v|..] && e[324..405] == o
      && (|t| <= 27 ==> e[405..432] == t + z[405..432][|t|..])
      && (|t| <= 27 && |i| <= 27 ==> e[432..459] == i + z[432..459][|i|..] && e[459..486] == l + z[459..486][|l|..])
  {
    var e0 := WriteAt(z, 0, a);
    var e1 := WriteAt(e0, 243, v);
    var e2 := WriteAt(e1, 324, o);
    var e3 := WriteAt(e2, 405, t);
    var e4 := WriteAt(e3, 432, i);
    FirstThreeRead(z, a, v, o);
    Untouched(e2, 405, t, 432, i, 459, l, 0, 243);
    Untouched(e2, 405, t, 432, i, 459, l, 243, 81);
    Untouched(e2, 405, t, 432, i, 459, l, 324, 81);
    LastThreeRead(e2, t, i, l);
    Untouched(z, 0, a, 243, v, 324, o, 405, 27);
    Untouched(z, 0, a, 243, v, 324, o, 432, 27);
    Untouched(z, 0, a, 243, v, 324, o, 459, 27);
  }

  lemma FirstThreeRead(z: seq<Trit>, a: seq<Trit>, v: seq<Trit>, o: seq<Trit>)
    requires |z| == ESSENCE_LEN && |a| == ADDRESS_LEN && |o| == TAG_LEN && |v| <= MAX_TRITS_IN_I64
    ensures var e := WriteAt(WriteAt(WriteAt(z, 0, a), 243, v), 324, o);
      e[0..243] == a && e[243..324] == v + z[243..324][|v|..] && e[324..405] == o
  {
    var e0 := WriteAt(z, 0, a);
    var e1 := WriteAt(e0, 243, v);
    ReadWritten(z, 0, a, 243);
    ReadElsewhere(e0, 243, v, 0, 243);
    ReadElsewhere(e1, 324, o, 0, 243);
    ReadElsewhere(z, 0, a, 243, 81);
    ReadWritten(e0, 243, v, 81);
    ReadElsewhere(e1, 324, o, 243, 81);
    ReadWritten(e1, 324, o, 81);
  }

  lemma LastThreeRead(z: seq<Trit>, t: seq<Trit>, i: seq<Trit>, l: seq<Trit>)
    requires |z| == ESSENCE_LEN && |t| <= MAX_TRITS_IN_I64 && |i| <= MAX_TRITS_IN_I64 && |l| <= 27
    ensures var e := WriteAt(WriteAt(WriteAt(z, 405, t), 432, i), 459, l);
      && (|t| <= 27 ==> e[405..432] == t + z[405..432][|t|..])
      && (|t| <= 27 && |i| <= 27 ==> e[432..459] == i + z[432..459][|i|..] && e[459..486] == l + z[459..486][|l|..])
  {
    var e3 := WriteAt(z, 405, t);
    var e4 := WriteAt(e3, 432, i);
    if |t| <= 27 {
      ReadWritten(z, 405, t, 27);
      ReadElsewhere(e3, 432, i, 405, 27);
      ReadElsewhere(e4, 459, l, 405, 27);
      if |i| <= 27 {
        ReadElsewhere(z, 405, t, 432, 27);
        ReadWritten(e3, 432, i, 27);
        ReadElsewhere(e4, 459, l, 432, 27);
        ReadElsewhere(z, 405, t, 459, 27);
        ReadElsewhere(e3, 432, i, 459, 27);
        ReadWritten(e4, 459, l, 27);
      }
    }
  }

  lemma Untouched(e: seq<Trit>, p: nat, x: seq<Trit>, q: nat, y: seq<Trit>, r: nat, w: seq<Trit>, from: nat, n: nat)
    requires p + |x| <= |e| && q + |y| <= |e| && r + |w| <= |e| && from + n <= |e|
    requires (from + n <= p && from + n <= q && from + n <= r) || (p + |x| <= from && q + |y| <= from && r + |w| <= from)
    ensures WriteAt(WriteAt(WriteAt(e, p, x), q, y), r, w)[from..from + n] == e[from..from + n]
  {
    ReadElsewhere(e, p, x, from, n);
    ReadElsewhere(WriteAt(e, p, x), q, y, from, n);
    ReadElsewhere(WriteAt(WriteAt(e, p, x), q, y), r, w, from, n);
  }

  /** Address, value, obsolete tag, timestamp, index and last index, copied one after the other over
      zeros at fixed offsets. Numbers are written without padding: of a timestamp of more than 27 trits,
      those beyond stay in the index field wherever the index is too short to overwrite them. */
  function Essence(b: Builder): (e: seq<Trit>)
    requires HasEssence(b)
    ensures |e| == ESSENCE_LEN
  {
    AtMost41Trits(b.value.value);
    AtMost41Trits(U64AsI64(b.timestamp.value));
    AtMost41Trits(b.index.value as i64);
    WriteSix(Zeros(ESSENCE_LEN), b.address.value, TritsOf(b.value.value as int), b.obsoleteTag.value,
             TritsOf(U64AsI64(b.timestamp.value) as int), TritsOf(b.index.value), TritsOf(b.lastIndex.value))
  }

  /** Timestamp and index are not longer than their fields. */
  predicate NumbersFit(b: Builder)
    requires HasEssence(b)
  {
    |TritsOf(U64AsI64(b.timestamp.value) as int)| <= 27 && |TritsOf(b.index.value)| <= 27
  }

  /** The essence reads back: address and tag stand at their places, the value decodes from its place, and
      where timestamp and index fit, so do they and the last index. */
  lemma EssenceReads(b: Builder, e: seq<Trit>)
    requires HasEssence(b) && e == Essence(b)
    ensures e[0..243] == b.address.value && e[324..405] == b.obsoleteTag.value
    ensures Decoded(e[243..324]) == Ok(b.value.value)
    ensures |TritsOf(U64AsI64(b.timestamp.value) as int)| <= 27 && |TritsOf(b.index.value)| <= 27 ==>
      && Decoded(e[405..432]) == Ok(U64AsI64(b.timestamp.value))
      && Decoded(e[432..459]) == Ok(b.index.value as i64)
      && 0 <= b.lastIndex.value <= I64_MAX && Decoded(e[459..486]) == Ok(b.lastIndex.value as i64)
  {
    var z, v, t := Zeros(ESSENCE_LEN), TritsOf(b.value.value as int), TritsOf(U64AsI64(b.timestamp.value) as int);
    var i, l := TritsOf(b.index.value), TritsOf(b.lastIndex.value);
    AtMost41Trits(b.value.value);
    AtMost41Trits(U64AsI64(b.timestamp.value));
    AtMost41Trits(b.index.value as i64);
    WriteSixReads(z, b.address.value, v, b.obsoleteTag.value, t, i, l);
    DecodePadded(b.value.value, z, 243, 81);
    if NumbersFit(b) {
      ShortFitsI64(b.lastIndex.value, 27);
      DecodePadded(U64AsI64(b.timestamp.value), z, 405, 27);
      DecodePadded(b.index.value as i64, z, 432, 27);
      DecodePadded(b.lastIndex.value as i64, z, 459, 27);
    }
  }

  lemma ShortFitsI64(v: int, n: nat)
    requires |TritsOf(v)| <= n && 1 <= n <= 40
    ensures I64_MIN <= v <= I64_MAX
  {
    TritsOfLength(v, n);
    MaxValueForty(40);
    MaxValueMonotone(n, 40);
  }

  /** Where timestamps and indices fit, the essence commits to every field it is made of. */
  lemma EssenceCommits(b: Builder, c: Builder)
    requires HasEssence(b) && HasEssence(c) && NumbersFit(b) && NumbersFit(c) && Essence(b) == Essence(c)
    ensures b.address == c.address && b.value == c.value && b.obsoleteTag == c.obsoleteTag
    ensures b.timestamp == c.timestamp && b.index == c.index && b.lastIndex == c.lastIndex
  {
    EssenceReads(b, Essence(b));
    EssenceReads(c, Essence(c));
    CastRoundTrip(b.timestamp.value);
    CastRoundTrip(c.timestamp.value);
  }

  /** A timestamp of 28 trits whose highest one the index overwrites leaves no trace of it. */
  lemma LongTimestampHides(z: seq<Trit>, a: seq<Trit>, v: seq<Trit>, o: seq<Trit>, t: seq<Trit>, i: seq<Trit>, l: seq<Trit>)
    requires |z| == ESSENCE_LEN && |a| == ADDRESS_LEN && |o| == TAG_LEN && |t| <= 27 && 1 <= |i|
    requires |v| <= MAX_TRITS_IN_I64 && |i| <= MAX_TRITS_IN_I64 && |l| <= 27 && forall k :: 0 <= k < |z| ==> z[k] == 0
    ensures WriteSix(z, a, v, o, t + Zeros(27 - |t|) + [1], i, l) == WriteSix(z, a, v, o, t, i, l)
  {
    var e2 := WriteAt(WriteAt(WriteAt(z, 0, a), 243, v), 324, o);
    Untouched(z, 0, a, 243, v, 324, o, 405, 27);
    assert forall k :: 405 <= k < 432 ==> e2[k] == e2[405..432][k - 405] == z[405..432][k - 405] == 0;
    var x, y := WriteAt(e2, 405, t + Zeros(27 - |t|) + [1]), WriteAt(e2, 405, t);
    assert x == e2[..405] + (t + Zeros(27 - |t|) + [1]) + e2[433..] && y == e2[..405] + t + e2[405 + |t|..];
    assert forall k :: 0 <= k < ESSENCE_LEN && k != 432 ==> x[k] == y[k];
    assert WriteAt(x, 432, i) == WriteAt(y, 432, i);
  }

  lemma {:induction false} AppendOne(ts: seq<Trit>, n: nat)
    requires |ts| <= n
    ensures Value(ts + Zeros(n - |ts|) + [1]) == Value(ts) + Pow3(n)
  {
    ValuePadded(ts, n - |ts|);
    LeadingOne(ts + Zeros(n - |ts|), [1]);
  }

  lemma {:induction false} LeadingOne(low: seq<Trit>, one: seq<Trit>)
    requires one == [1]
    ensures Value(low + one) == Value(low) + Pow3(|low|)
  {
    ValueConcat(low, one);
    assert one[1..] == [];
    assert Value(one) == 1;
  }

  /** The encoding of a number of at most `n` trits plus `3^n`. */
  lemma PlusPower(t: int, ts: seq<Trit>, n: nat, sum: int)
    requires n >= 1 && |ts| <= n && Value(ts) == t && 0 - MaxValue(n) <= t <= MaxValue(n) && sum == t + Pow3(n)
    ensures TritsOf(sum) == ts + Zeros(n - |ts|) + [1]
  {
    AppendOne(ts, n);
    OneTritMore(t, n);
    TritsOfUnique(ts + Zeros(n - |ts|) + [1], sum);
  }

  lemma OneTritMore(t: int, n: nat)
    requires n >= 1 && 0 - MaxValue(n) <= t <= MaxValue(n)
    ensures t + Pow3(n) >= 0 && IsMinTrits(t + Pow3(n), n + 1)
  {
    MaxValueIsHalfPow3(n);
    MaxValueIsHalfPow3(n + 1);
    forall m | 1 <= m < n + 1 ensures MaxValue(m) < t + Pow3(n) { MaxValueMonotone(m, n); }
  }

  /** But no essence pins its timestamp down: every builder whose numbers fit shares its essence with one
      whose timestamp does not. */
  lemma EssenceForgetsTimestamp(b: Builder) returns (c: Builder)
    requires HasEssence(b) && NumbersFit(b)
    ensures c == b.(timestamp := c.timestamp) && c.timestamp != b.timestamp
    ensures HasEssence(c) && !NumbersFit(c) && Essence(c) == Essence(b)
  {
    c := LongerTimestamp(b, 27);
  }

  lemma LongerTimestamp(b: Builder, n: nat) returns (c: Builder)
    requires HasEssence(b) && NumbersFit(b) && n == 27
    ensures c == b.(timestamp := c.timestamp) && c.timestamp != b.timestamp
    ensures HasEssence(c) && !NumbersFit(c) && Essence(c) == Essence(b)
  {
    var t := U64AsI64(b.timestamp.value) as int;
    var ts := TritsOf(t);
    TritsOfValue(t);
    TritsOfLength(t, n);
    PowerInRange(t, n);
    var sum := t + Pow3(n);
    PlusPower(t, ts, n, sum);
    c := b.(timestamp := Some(I64AsU64(sum as i64)));
    CastBackRoundTrip(sum as i64);
    SameEssence(b, c, ts);
  }

  lemma SameEssence(b: Builder, c: Builder, ts: seq<Trit>)
    requires HasEssence(b) && HasEssence(c) && c == b.(timestamp := c.timestamp)
    requires ts == TritsOf(U64AsI64(b.timestamp.value) as int) && 1 <= |ts| <= 27
    requires TritsOf(U64AsI64(c.timestamp.value) as int) == ts + Zeros(27 - |ts|) + [1]
    ensures Essence(c) == Essence(b)
  {
    AtMost41Trits(b.value.value);
    AtMost41Trits(b.index.value as i64);
    LongTimestampHides(Zeros(ESSENCE_LEN), b.address.value, TritsOf(b.value.value as int), b.obsoleteTag.value,
                       ts, TritsOf(b.index.value), TritsOf(b.lastIndex.value));
  }

  lemma PowerInRange(t: int, n: nat)
    requires 0 - MaxValue(n) <= t <= MaxValue(n) && n < 40
    ensures I64_MIN <= t + Pow3(n) <= I64_MAX
  {
    MaxValueIsHalfPow3(n);
    MaxValueIsHalfPow3(n + 1);
    MaxValueForty(40);
    MaxValueMonotone(n + 1, 40);
  }

  /** A builder with the six fields in place has an essence. */
  lemma CompleteHasEssence(b: Builder)
    requires b.address.Some? && |b.address.value| == 243 && b.value.Some? && b.obsoleteTag.Some? && |b.obsoleteTag.value| == 81
    requires b.timestamp.Some? && b.index.Some? && b.index.value <= I64_MAX
    requires b.lastIndex.Some? && |TritsOf(b.lastIndex.value)| <= 27
    ensures HasEssence(b)
  {
  }

  function Essences(bs: seq<Builder>): (es: seq<seq<Trit>>)
    requires forall i :: 0 <= i < |bs| ==> HasEssence(bs[i])
    ensures |es| == |bs| && forall i :: 0 <= i < |bs| ==> es[i] == Essence(bs[i])
  {
    seq(|bs|, (i: nat) requires i < |bs| => Essence(bs[i]))
  }

  function BundleHash(sponge: Sponge, bs: seq<Builder>): seq<Trit>
    requires forall i :: 0 <= i < |bs| ==> HasEssence(bs[i])
  {
    sponge(Essences(bs), HASH_LEN)
  }

  /** Some tryte of the normalised hash is 13: its signature chunk would be the private key itself. */
  ghost predicate HasMBug(hash: seq<Trit>)
    requires |hash| == HASH_LEN
  {
    exists i, k :: 0 <= i < FRAGMENTS && 0 <= k < FRAGMENT_LEN && Balanced(Fragment(hash, i))[k] == MAX_TRYTE_VALUE
  }

  // ----- The tag search

  /** The builders with the first obsolete tag moved up `n` times. */
  function WithTag(bs: seq<Builder>, n: nat): (r: seq<Builder>)
    requires bs != [] && bs[0].obsoleteTag.Some?
    ensures |r| == |bs|
  {
    bs[0 := bs[0].(obsoleteTag := Some(Incremented(bs[0].obsoleteTag.value, n)))]
  }

  lemma NoTagMove(bs: seq<Builder>)
    requires bs != [] && bs[0].obsoleteTag.Some?
    ensures Incremented(bs[0].obsoleteTag.value, 0) == bs[0].obsoleteTag.value && WithTag(bs, 0) == bs
  {
  }

  predicate AllHaveEssence(bs: seq<Builder>) {
    bs != [] && forall i :: 0 <= i < |bs| ==> HasEssence(bs[i])
  }

  lemma WithTagKeepsEssence(bs: seq<Builder>, n: nat)
    requires AllHaveEssence(bs)
    ensures AllHaveEssence(WithTag(bs, n))
  {
  }

  /** The hash after `n` rejected attempts. */
  function HashAfter(sponge: Sponge, bs: seq<Builder>, n: nat): seq<Trit>
    requires AllHaveEssence(bs)
  {
    WithTagKeepsEssence(bs, n);
    BundleHash(sponge, WithTag(bs, n))
  }

  ghost predicate AcceptedAfter(sponge: Sponge, bs: seq<Builder>, n: nat)
    requires Lawful(sponge) && AllHaveEssence(bs)
  {
    !HasMBug(HashAfter(sponge, bs, n))
  }

  /** The search of the code ends: some tag is accepted. */
  ghost predicate SearchEnds(sponge: Sponge, bs: seq<Builder>)
    requires Lawful(sponge) && AllHaveEssence(bs)
  {
    exists n: nat :: AcceptedAfter(sponge, bs, n)
  }

  /** The first `n` attempts are rejected. */
  ghost predicate RejectedBefore(sponge: Sponge, bs: seq<Builder>, n: nat)
    requires Lawful(sponge) && AllHaveEssence(bs)
  {
    n == 0 || (RejectedBefore(sponge, bs, n - 1) && !AcceptedAfter(sponge, bs, n - 1))
  }

  /** The first `n` attempts are rejected and the next is accepted. */
  ghost predicate FirstAccepted(sponge: Sponge, bs: seq<Builder>, n: nat)
    requires Lawful(sponge) && AllHaveEssence(bs)
  {
    RejectedBefore(sponge, bs, n) && AcceptedAfter(sponge, bs, n)
  }

  /** There is exactly one such number when the search ends: the least accepted one. */
  lemma {:induction false} RejectedIsRejected(sponge: Sponge, bs: seq<Builder>, n: nat, m: nat)
    requires Lawful(sponge) && AllHaveEssence(bs) && RejectedBefore(sponge, bs, n) && m < n
    ensures !AcceptedAfter(sponge, bs, m)
    decreases n
  {
    if m < n - 1 { RejectedIsRejected(sponge, bs, n - 1, m); }
  }

  /** The three trits are all 1. */
  method IsM(trits: seq<Trit>) returns (isM: bool)
    requires |trits| == 3
    ensures isM <==> trits[0] == 1 && trits[1] == 1 && trits[2] == 1
  {
    isM := true;
    for t := 0 to 3
      invariant isM && forall u :: 0 <= u < t ==> trits[u] == 1
    {
      if trits[t] != 1 {
        isM := false;
        break;
      }
    }
  }

  /** Looks for a tryte 13, that is three trits 1. */
  method HasM(normalized: seq<Trit>) returns (found: bool)
    requires |normalized| == HASH_LEN
    ensures found <==> exists j :: 0 <= j < FRAGMENTS * FRAGMENT_LEN && TryteAt(normalized, j) == MAX_TRYTE_VALUE
  {
    found := false;
    for j := 0 to FRAGMENTS * FRAGMENT_LEN
      invariant !found && forall k :: 0 <= k < j ==> TryteAt(normalized, k) != MAX_TRYTE_VALUE
    {
      var trits := normalized[3 * j..3 * j + 3];
      var isM := IsM(trits);
      assert trits[0] == normalized[3 * j] && trits[1] == normalized[3 * j + 1] && trits[2] == normalized[3 * j + 2];
      if isM {
        assert TryteAt(normalized, j) == MAX_TRYTE_VALUE;
        found := true;
        break;
      }
    }
  }

  lemma TryteThirteenIsMBug(hash: seq<Trit>, normalized: seq<Trit>)
    requires |hash| == HASH_LEN && IsNormalized(hash, normalized)
    ensures HasMBug(hash) <==> exists j :: 0 <= j < FRAGMENTS * FRAGMENT_LEN && TryteAt(normalized, j) == MAX_TRYTE_VALUE
  {
    forall i, k | 0 <= i < FRAGMENTS && 0 <= k < FRAGMENT_LEN
      ensures Balanced(Fragment(hash, i))[k] == TryteAt(normalized, i * FRAGMENT_LEN + k)
    {
      assert Fragment(normalized, i)[k] == TryteAt(normalized, i * FRAGMENT_LEN + k);
    }
    if j :| 0 <= j < FRAGMENTS * FRAGMENT_LEN && TryteAt(normalized, j) == MAX_TRYTE_VALUE {
      var i, k := j / FRAGMENT_LEN, j % FRAGMENT_LEN;
      assert Balanced(Fragment(hash, i))[k] == TryteAt(normalized, i * FRAGMENT_LEN + k);
    }
  }

  /** Absorbs every essence. */
  method CollectEssences(bs: seq<Builder>) returns (es: seq<seq<Trit>>)
    requires forall i :: 0 <= i < |bs| ==> HasEssence(bs[i])
    ensures es == Essences(bs)
  {
    es := [];
    for i := 0 to |bs|
      invariant |es| == i && forall k :: 0 <= k < i ==> es[k] == Essence(bs[k])
    {
      es := es + [Essence(bs[i])];
    }
  }

  /** One attempt: hashes the essences and inspects the normalised hash. */
  method Attempt(sponge: Sponge, current: seq<Builder>, ghost bs: seq<Builder>, ghost n: nat)
    returns (hash: seq<Trit>, rejected: bool)
    requires Lawful(sponge) && AllHaveEssence(bs) && current == WithTag(bs, n)
    ensures hash == HashAfter(sponge, bs, n) && rejected == !AcceptedAfter(sponge, bs, n)
  {
    WithTagKeepsEssence(bs, n);
    var essences := CollectEssences(current);
    hash := sponge(essences, HASH_LEN);
    var normalized := NormalizeHash(hash);
    rejected := HasM(normalized);
    TryteThirteenIsMBug(hash, normalized);
  }

  /** Every builder carries the bundle hash. */
  function WithBundle(bs: seq<Builder>, hash: seq<Trit>): (r: seq<Builder>)
    ensures |r| == |bs| && forall i :: 0 <= i < |bs| ==> r[i] == bs[i].(bundle := Some(hash))
  {
    seq(|bs|, (i: nat) requires i < |bs| => bs[i].(bundle := Some(hash)))
  }

  /** Moves the tag up once and stores it in the first builder. */
  method MoveTag(ghost bs: seq<Builder>, current: seq<Builder>, tag: seq<Trit>, ghost n: nat)
    returns (next: seq<Builder>, nextTag: seq<Trit>)
    requires bs != [] && bs[0].obsoleteTag.Some?
    requires tag == Incremented(bs[0].obsoleteTag.value, n) && current == WithTag(bs, n)
    ensures nextTag == Incremented(bs[0].obsoleteTag.value, n + 1) && next == WithTag(bs, n + 1)
  {
    nextTag := IncrementInPlace(tag);
    next := current[0 := current[0].(obsoleteTag := Some(nextTag))];
  }

  /** The search loop: moves the first obsolete tag up until the normalised hash has no tryte 13. */
  method FindTag(sponge: Sponge, bs: seq<Builder>) returns (current: seq<Builder>, hash: seq<Trit>, ghost attempts: nat)
    requires Lawful(sponge) && AllHaveEssence(bs) && SearchEnds(sponge, bs)
    ensures FirstAccepted(sponge, bs, attempts)
    ensures current == WithTag(bs, attempts) && hash == HashAfter(sponge, bs, attempts)
  {
    ghost var bound: nat :| AcceptedAfter(sponge, bs, bound);
    var obsoleteTag := bs[0].obsoleteTag.value;
    current, hash, attempts := bs, [], 0;
    NoTagMove(bs);
    var rejected := true;
    while rejected
      invariant Searching(bs, current, obsoleteTag, attempts)
      invariant RejectedBefore(sponge, bs, attempts) && attempts <= bound
      invariant !rejected ==> hash == HashAfter(sponge, bs, attempts) && AcceptedAfter(sponge, bs, attempts)
      decreases rejected, bound - attempts
    {
      hash, rejected, current, obsoleteTag := SearchStep(sponge, bs, current, obsoleteTag, attempts, bound);
      attempts := if rejected then attempts + 1 else attempts;
    }
  }

  /** One turn of the search loop. */
  method SearchStep(sponge: Sponge, ghost bs: seq<Builder>, current: seq<Builder>, tag: seq<Trit>, ghost n: nat, ghost bound: nat)
    returns (hash: seq<Trit>, rejected: bool, next: seq<Builder>, nextTag: seq<Trit>)
    requires Lawful(sponge) && AllHaveEssence(bs) && Searching(bs, current, tag, n)
    requires RejectedBefore(sponge, bs, n) && n <= bound && AcceptedAfter(sponge, bs, bound)
    ensures !rejected ==> hash == HashAfter(sponge, bs, n) && AcceptedAfter(sponge, bs, n) && next == current && nextTag == tag
    ensures rejected ==> n < bound && RejectedBefore(sponge, bs, n + 1) && Searching(bs, next, nextTag, n + 1)
  {
    next, nextTag := current, tag;
    hash, rejected := Attempt(sponge, current, bs, n);
    if rejected {
      NotYet(sponge, bs, n, bound);
      next, nextTag := MoveTag(bs, current, tag, n);
    }
  }

  /** The tag has been moved up `n` times, and the first builder holds it. */
  ghost predicate Searching(bs: seq<Builder>, current: seq<Builder>, tag: seq<Trit>, n: nat)
    requires bs != [] && bs[0].obsoleteTag.Some?
  {
    tag == Incremented(bs[0].obsoleteTag.value, n) && current == WithTag(bs, n)
  }

  lemma NotYet(sponge: Sponge, bs: seq<Builder>, n: nat, bound: nat)
    requires Lawful(sponge) && AllHaveEssence(bs) && RejectedBefore(sponge, bs, n) && n <= bound
    requires AcceptedAfter(sponge, bs, bound) && !AcceptedAfter(sponge, bs, n)
    ensures n < bound && RejectedBefore(sponge, bs, n + 1)
  {
  }

  /** Stores the hash in every builder. */
  method StoreHash(bs: seq<Builder>, hash: seq<Trit>) returns (r: seq<Builder>)
    ensures r == WithBundle(bs, hash)
  {
    r := bs;
    for i := 0 to |bs|
      invariant |r| == |bs|
      invariant forall k :: 0 <= k < |bs| ==> r[k] == if k < i then bs[k].(bundle := Some(hash)) else bs[k]
    {
      r := r[i := r[i].(bundle := Some(hash))];
    }
  }

  /** Stops at the first accepted tag and stores its hash in every builder. */
  method CalculateBundleHash(sponge: Sponge, bs: seq<Builder>) returns (r: seq<Builder>)
    requires Lawful(sponge) && AllHaveEssence(bs) && SearchEnds(sponge, bs)
    ensures exists n: nat :: FirstAccepted(sponge, bs, n) && r == WithBundle(WithTag(bs, n), HashAfter(sponge, bs, n))
  {
    var current, hash;
    ghost var attempts;
    current, hash, attempts := FindTag(sponge, bs);
    r := StoreHash(current, hash);
  }

  // ----- Sealing

  predicate FieldsPresent(b: Builder) {
    b.payload.Some? && b.address.Some? && b.value.Some? && b.tag.Some?
  }

  /** The sum of the first `n` values. */
  function ValueSum(bs: seq<Builder>, n: nat): int
    requires n <= |bs|
  {
    if n == 0 then 0 else ValueSum(bs, n - 1) + (if bs[n - 1].value.Some? then bs[n - 1].value.value as int else 0)
  }

  predicate WithinSupply(x: int) {
    -IOTA_SUPPLY <= x <= IOTA_SUPPLY
  }

  /** The builders with their indices. */
  function Numbered(bs: seq<Builder>): (r: seq<Builder>)
    ensures |r| == |bs|
    ensures forall i :: 0 <= i < |bs| ==> r[i] == bs[i].(index := Some(i), lastIndex := Some(|bs| - 1))
  {
    seq(|bs|, (i: nat) requires i < |bs| => bs[i].(index := Some(i), lastIndex := Some(|bs| - 1)))
  }

  /** Exactly when sealing can succeed: there is a transaction, no field is missing, no prefix of the
      values leaves the supply, the values cancel out, and the essences can be put together. */
  ghost predicate Sealable(bs: seq<Builder>) {
    && bs != []
    && (forall i :: 0 <= i < |bs| ==> FieldsPresent(bs[i]))
    && (forall n :: 0 <= n <= |bs| ==> WithinSupply(ValueSum(bs, n)))
    && ValueSum(bs, |bs|) == 0
    && AllHaveEssence(Numbered(bs))
  }

  /** The sealed builders: numbered, the first tag moved to the first accepted one, the hash stored. */
  ghost predicate IsSealedFrom(sponge: Sponge, bs: seq<Builder>, r: seq<Builder>, attempts: nat)
    requires Lawful(sponge) && AllHaveEssence(Numbered(bs))
  {
    var hash := HashAfter(sponge, Numbered(bs), attempts);
    && FirstAccepted(sponge, Numbered(bs), attempts)
    && r == WithBundle(WithTag(Numbered(bs), attempts), hash)
  }

  predicate Misses(b: Builder, name: string) {
    || (name == "payload" && b.payload.None?) || (name == "address" && b.address.None?)
    || (name == "value" && b.value.None?) || (name == "tag" && b.tag.None?)
  }

  /** The first absent field, in the order of the checks. */
  function FirstMissing(b: Builder): (name: Option<string>)
    ensures name.None? <==> FieldsPresent(b)
    ensures name.Some? ==> Misses(b, name.value)
  {
    if b.payload.None? then Some("payload")
    else if b.address.None? then Some("address")
    else if b.value.None? then Some("value")
    else if b.tag.None? then Some("tag")
    else None
  }

  predicate OutOfRange(sum: int) {
    sum > I64_MAX || sum <= I64_MIN
  }

  /** The first `i` builders pass the checks of the loop. */
  ghost predicate Passes(bs: seq<Builder>, i: nat) {
    && i <= |bs| && (forall k :: 0 <= k < i ==> FieldsPresent(bs[k]))
    && forall n :: 0 <= n <= i ==> WithinSupply(ValueSum(bs, n))
  }

  /** Some partial sum, or its absolute value, leaves the range of an `i64` before any error is found. */
  ghost predicate SumOverflows(bs: seq<Builder>) {
    exists i :: 0 <= i < |bs| && Passes(bs, i) && FieldsPresent(bs[i]) && OutOfRange(ValueSum(bs, i + 1))
  }

  /** Exactly when sealing panics: there is no builder, a sum overflows, or everything is in order but an
      essence, of which a field is absent or ill-sized. */
  ghost predicate SealPanics(bs: seq<Builder>) {
    || bs == []
    || SumOverflows(bs)
    || (Passes(bs, |bs|) && ValueSum(bs, |bs|) == 0 && bs[0].obsoleteTag.Some? && !AllHaveEssence(Numbered(bs)))
  }

  /** An error found at builder `i` comes before any panic. */
  lemma ErrorFirst(bs: seq<Builder>, i: nat)
    requires i < |bs| && Passes(bs, i)
    requires !FieldsPresent(bs[i]) || (!WithinSupply(ValueSum(bs, i + 1)) && !OutOfRange(ValueSum(bs, i + 1)))
    ensures !SealPanics(bs)
  {
    forall k | 0 <= k < |bs| && Passes(bs, k) && FieldsPresent(bs[k])
      ensures !OutOfRange(ValueSum(bs, k + 1))
    {
      assert k <= i;
      assert k < i ==> WithinSupply(ValueSum(bs, k + 1));
    }
    assert !Passes(bs, |bs|);
  }

  lemma NoSumOverflows(bs: seq<Builder>)
    requires Passes(bs, |bs|)
    ensures !SumOverflows(bs)
  {
    forall k | 0 <= k < |bs| && Passes(bs, k) ensures !OutOfRange(ValueSum(bs, k + 1)) {
      assert WithinSupply(ValueSum(bs, k + 1));
    }
  }

  method Seal(sponge: Sponge, bs: seq<Builder>) returns (outcome: Outcome, ghost attempts: nat)
    requires Lawful(sponge) && (Sealable(bs) ==> SearchEnds(sponge, Numbered(bs)))
    ensures outcome.Sealed? <==> Sealable(bs)
    ensures outcome.Sealed? ==> IsSealedFrom(sponge, bs, outcome.builders, attempts)
    ensures outcome == Panicked <==> SealPanics(bs)
    ensures outcome.Failed? && outcome.error.InvalidValue? ==>
      exists n :: 0 <= n <= |bs| && outcome.error.sum as int == ValueSum(bs, n) != 0 && (n == |bs| || !WithinSupply(ValueSum(bs, n)))
    ensures outcome == Failed(MissingField("payload")) ==> exists i :: 0 <= i < |bs| && bs[i].payload.None?
    ensures outcome == Failed(MissingField("address")) ==> exists i :: 0 <= i < |bs| && bs[i].address.None?
    ensures outcome == Failed(MissingField("value")) ==> exists i :: 0 <= i < |bs| && bs[i].value.None?
    ensures outcome == Failed(MissingField("tag")) ==> exists i :: 0 <= i < |bs| && bs[i].tag.None?
    ensures outcome == Failed(MissingField("obsolete_tag")) ==> bs != [] && bs[0].obsoleteTag.None?
    ensures outcome.Failed? && outcome.error.MissingField? ==>
      outcome.error.name in {"payload", "address", "value", "tag", "obsolete_tag"}
  {
    attempts := 0;
    if |bs| == 0 {
      return Panicked, attempts;
    }
    var builders := bs;
    var sum: i64 := 0;
    for i := 0 to |bs|
      invariant |builders| == |bs| && sum as int == ValueSum(bs, i) && Passes(bs, i)
      invariant forall k :: 0 <= k < |bs| ==> builders[k] == if k < i then Numbered(bs)[k] else bs[k]
    {
      var b := builders[i];
      var exact := if b.value.Some? then sum as int + b.value.value as int else 0;
      if !FieldsPresent(b) || (!OutOfRange(exact) && !WithinSupply(exact)) {
        ErrorFirst(bs, i);
      }
      var missing := FirstMissing(b);
      if missing.Some? {
        return Failed(MissingField(missing.value)), attempts;
      }
      builders := builders[i := b.(index := Some(i), lastIndex := Some(|bs| - 1))];
      assert exact == ValueSum(bs, i + 1);
      if OutOfRange(exact) {
        return Panicked, attempts;
      }
      sum := sum + b.value.value;
      if !WithinSupply(sum as int) {
        return Failed(InvalidValue(sum)), attempts;
      }
    }
    NoSumOverflows(bs);
    if sum != 0 {
      return Failed(InvalidValue(sum)), attempts;
    }
    assert builders == Numbered(bs);
    if builders[0].obsoleteTag.None? {
      return Failed(MissingField("obsolete_tag")), attempts;
    }
    var ok := CanHash(builders);
    if !ok {
      return Panicked, attempts;
    }
    var sealed := CalculateBundleHash(sponge, builders);
    ghost var n: nat :| FirstAccepted(sponge, builders, n)
      && sealed == WithBundle(WithTag(builders, n), HashAfter(sponge, builders, n));
    attempts := n;
    outcome := Sealed(sealed);
  }

  /** Putting the essences together does not panic. */
  method CanHash(bs: seq<Builder>) returns (ok: bool)
    requires bs != []
    ensures ok <==> AllHaveEssence(bs)
  {
    ok := true;
    for i := 0 to |bs|
      invariant ok && forall k :: 0 <= k < i ==> HasEssence(bs[k])
    {
      if !HasEssence(bs[i]) {
        ok := false;
        break;
      }
    }
  }

  // ----- Main results

  /** Every bundle field of a sealed bundle is the hash of the essences as they are now, and that hash
      has no tryte 13 once normalised. */
  lemma SealedHash(sponge: Sponge, bs: seq<Builder>, r: seq<Builder>, attempts: nat)
    requires Lawful(sponge) && Sealable(bs) && IsSealedFrom(sponge, bs, r, attempts)
    ensures |r| == |bs| && AllHaveEssence(r) && !HasMBug(BundleHash(sponge, r))
    ensures forall i :: 0 <= i < |r| ==> r[i].bundle == Some(sponge(Essences(r), HASH_LEN))
  {
    var tagged := WithTag(Numbered(bs), attempts);
    WithTagKeepsEssence(Numbered(bs), attempts);
    EssencesIgnoreBundle(tagged, HashAfter(sponge, Numbered(bs), attempts));
  }

  /** Indices of a sealed bundle run from 0 to the last, its values cancel out, and nothing else moved but
      the first obsolete tag. */
  lemma SealedFields(sponge: Sponge, bs: seq<Builder>, r: seq<Builder>, attempts: nat)
    requires Lawful(sponge) && Sealable(bs) && IsSealedFrom(sponge, bs, r, attempts)
    ensures |r| == |bs| && ValueSum(r, |r|) == 0 && NothingElseMoved(bs, r)
  {
    NumberedKeepsFields(bs, Numbered(bs), attempts, HashAfter(sponge, Numbered(bs), attempts));
  }

  lemma SealedBuilder(bs: seq<Builder>, r: seq<Builder>, i: nat)
    requires NothingElseMoved(bs, r) && i < |r|
    ensures |r| == |bs| && r[i].index == Some(i) && r[i].lastIndex == Some(|r| - 1)
    ensures r[i].payload == bs[i].payload && r[i].address == bs[i].address && r[i].value == bs[i].value
    ensures r[i].timestamp == bs[i].timestamp && r[i].tag == bs[i].tag
    ensures i > 0 ==> r[i].obsoleteTag == bs[i].obsoleteTag
  {
  }

  /** Apart from the first obsolete tag and the bundle fields only the indices are new. */
  ghost predicate NothingElseMoved(bs: seq<Builder>, r: seq<Builder>) {
    |r| == |bs| && forall i :: 0 <= i < |r| ==>
      r[i] == bs[i].(index := Some(i), lastIndex := Some(|r| - 1), bundle := r[i].bundle,
                     obsoleteTag := if i == 0 then r[0].obsoleteTag else bs[i].obsoleteTag)
  }

  lemma NumberedKeepsFields(bs: seq<Builder>, numbered: seq<Builder>, n: nat, hash: seq<Trit>)
    requires numbered == Numbered(bs) && bs != [] && numbered[0].obsoleteTag.Some?
    ensures var r := WithBundle(WithTag(numbered, n), hash);
      NothingElseMoved(bs, r) && ValueSum(r, |r|) == ValueSum(bs, |bs|)
  {
    SameValues(bs, WithBundle(WithTag(numbered, n), hash), |bs|);
  }

  /** The tag of a sealed bundle has moved by the number of rejected attempts, modulo `3^81`. */
  lemma SealedTag(sponge: Sponge, bs: seq<Builder>, r: seq<Builder>, attempts: nat) returns (wraps: nat)
    requires Lawful(sponge) && Sealable(bs) && IsSealedFrom(sponge, bs, r, attempts)
    ensures bs[0].obsoleteTag.Some? && r != [] && r[0].obsoleteTag.Some?
    ensures Value(r[0].obsoleteTag.value) == Value(bs[0].obsoleteTag.value) + attempts - wraps * Pow3(|bs[0].obsoleteTag.value|)
  {
    assert HasEssence(Numbered(bs)[0]);
    wraps := IncrementedValue(bs[0].obsoleteTag.value, attempts);
  }

  lemma EssencesIgnoreBundle(bs: seq<Builder>, hash: seq<Trit>)
    requires AllHaveEssence(bs)
    ensures AllHaveEssence(WithBundle(bs, hash)) && Essences(WithBundle(bs, hash)) == Essences(bs)
  {
    var r := WithBundle(bs, hash);
    forall i | 0 <= i < |bs|
      ensures HasEssence(r[i]) && Essence(r[i]) == Essence(bs[i])
    {
      assert r[i] == bs[i].(bundle := Some(hash));
    }
  }

  lemma {:induction false} SameValues(a: seq<Builder>, b: seq<Builder>, n: nat)
    requires n <= |a| == |b| && forall i :: 0 <= i < |a| ==> a[i].value == b[i].value
    ensures ValueSum(a, n) == ValueSum(b, n)
  {
    if n > 0 { SameValues(a, b, n - 1); }
  }

  /** Without a tryte 13 every chunk of a signature is hashed at least once. */
  lemma EveryChunkHashed(hash: seq<Trit>, normalized: seq<Trit>, i: nat)
    requires |hash| == HASH_LEN && IsNormalized(hash, normalized) && !HasMBug(hash)
    requires i < FRAGMENTS * FRAGMENT_LEN
    ensures SignSteps(normalized)(i) >= 1
  {
    TryteThirteenIsMBug(hash, normalized);
  }
}
