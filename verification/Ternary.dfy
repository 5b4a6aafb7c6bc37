/**
 Balanced trits, the number a trit string stands for (least significant trit first), and buffers of
 trits that are read and written in pieces.
 */
module Ternary {

  type Trit = t: int | -1 <= t <= 1

  function Pow3(n: nat): (p: nat)
    ensures p >= 1
  {
    if n == 0 then 1 else 3 * Pow3(n - 1)
  }

  /** The largest number `n` balanced trits can hold. */
  function MaxValue(n: nat): nat {
    if n == 0 then 0 else 3 * MaxValue(n - 1) + 1
  }

  function Value(ts: seq<Trit>): int {
    if ts == [] then 0 else ts[0] + 3 * Value(ts[1..])
  }

  function Zeros(n: nat): (z: seq<Trit>)
    ensures |z| == n && forall i :: 0 <= i < n ==> z[i] == 0
  {
    seq(n, _ => 0)
  }

  lemma {:induction false} MaxValueIsHalfPow3(n: nat)
    ensures 2 * MaxValue(n) + 1 == Pow3(n)
  {
    if n > 0 { MaxValueIsHalfPow3(n - 1); }
  }

  lemma {:induction false} MaxValueMonotone(m: nat, n: nat)
    requires m <= n
    ensures MaxValue(m) <= MaxValue(n)
    decreases n
  {
    if m < n { MaxValueMonotone(m, n - 1); }
  }

  lemma {:induction false} Pow3Adds(m: nat, n: nat)
    ensures Pow3(m + n) == Pow3(m) * Pow3(n)
  {
    if m > 0 { Pow3Adds(m - 1, n); }
  }

  function Pow2(n: nat): (p: nat)
    ensures p >= 1
  {
    if n == 0 then 1 else 2 * Pow2(n - 1)
  }

  lemma {:induction false} Pow2Adds(m: nat, n: nat)
    ensures Pow2(m + n) == Pow2(m) * Pow2(n)
  {
    if m > 0 { Pow2Adds(m - 1, n); }
  }

  lemma {:induction false} ValueBound(ts: seq<Trit>)
    ensures 0 - MaxValue(|ts|) <= Value(ts) <= MaxValue(|ts|)
  {
    if ts != [] { ValueBound(ts[1..]); }
  }

  lemma {:induction false} ValueOfZeros(ts: seq<Trit>)
    requires forall i :: 0 <= i < |ts| ==> ts[i] == 0
    ensures Value(ts) == 0
  {
    if ts != [] { ValueOfZeros(ts[1..]); }
  }

  lemma {:induction false} ValueConcat(a: seq<Trit>, b: seq<Trit>)
    ensures Value(a + b) == Value(a) + Pow3(|a|) * Value(b)
  {
    if a == [] {
      assert a + b == b;
    } else {
      assert (a + b)[1..] == a[1..] + b;
      ValueConcat(a[1..], b);
      ShiftedSum(a[0], Value(a[1..]), Pow3(|a| - 1), Value(b));
    }
  }

  lemma ShiftedSum(t: int, x: int, p: int, v: int)
    ensures t + 3 * (x + p * v) == t + 3 * x + 3 * p * v
  {
  }

  lemma Triple(c: int, p: int)
    ensures 3 * (c * p) == c * (3 * p)
  {
  }

  /** Trits above the significant ones that are all zero do not change the number. */
  lemma ValuePadded(a: seq<Trit>, n: nat)
    ensures Value(a + Zeros(n)) == Value(a)
  {
    ValueConcat(a, Zeros(n));
    ValueOfZeros(Zeros(n));
  }

  lemma {:induction false} ValueInjective(a: seq<Trit>, b: seq<Trit>)
    requires |a| == |b| && Value(a) == Value(b)
    ensures a == b
  {
    if a != [] {
      assert a[0] == b[0] && Value(a[1..]) == Value(b[1..]);
      ValueInjective(a[1..], b[1..]);
      assert a == [a[0]] + a[1..] && b == [b[0]] + b[1..];
    }
  }

  // ----- Ripple-carry increment, as the tag, the subseed and the nonce counters do it

  /** One balanced trit plus one, wrapping from 1 to -1. */
  function NextTrit(t: Trit): Trit {
    if t == 1 then -1 else t + 1
  }

  function Increment(ts: seq<Trit>): (r: seq<Trit>)
    ensures |r| == |ts|
  {
    if ts == [] then []
    else if ts[0] == 1 then [-1] + Increment(ts[1..])
    else [ts[0] + 1] + ts[1..]
  }

  predicate AllOnes(ts: seq<Trit>) {
    forall i :: 0 <= i < |ts| ==> ts[i] == 1
  }

  /** Incrementing adds one to the number, and wraps to the smallest number exactly when every trit is
      one; so it is addition of one modulo `3^n`. */
  lemma {:induction false} IncrementAddsOne(ts: seq<Trit>)
    ensures Value(Increment(ts)) == if AllOnes(ts) then Value(ts) + 1 - Pow3(|ts|) else Value(ts) + 1
  {
    if ts != [] {
      IncrementAddsOne(ts[1..]);
      assert AllOnes(ts) <==> ts[0] == 1 && AllOnes(ts[1..]) by {
        forall i | 0 < i < |ts| ensures ts[i] == ts[1..][i - 1] { }
      }
      assert Increment(ts)[1..] == if ts[0] == 1 then Increment(ts[1..]) else ts[1..];
    }
  }

  /** Stepping up a leading run of ones and the trit after it is incrementing. */
  lemma {:induction false} RippleIsIncrement(ts: seq<Trit>, r: seq<Trit>, n: nat, exhausted: bool)
    requires |r| == |ts| && n <= |ts|
    requires forall i :: 0 <= i < n ==> r[i] == NextTrit(ts[i])
    requires forall i :: n <= i < |ts| ==> r[i] == ts[i]
    requires forall i :: 0 <= i < n - 1 ==> ts[i] == 1
    requires if exhausted then n == |ts| && (n > 0 ==> ts[n - 1] == 1) else n > 0 && ts[n - 1] != 1
    ensures r == Increment(ts) && (exhausted <==> AllOnes(ts))
  {
    if ts != [] && ts[0] == 1 {
      RippleIsIncrement(ts[1..], r[1..], n - 1, exhausted);
      assert r == [r[0]] + r[1..];
      assert AllOnes(ts) <==> AllOnes(ts[1..]) by {
        forall i | 0 < i < |ts| ensures ts[i] == ts[1..][i - 1] { }
      }
    }
  }

  // ----- Buffers

  const HASH_LEN := 243

  /** The `i`-th piece of 243 trits. */
  function Chunk(b: seq<Trit>, i: nat): (c: seq<Trit>)
    requires (i + 1) * HASH_LEN <= |b|
    ensures |c| == HASH_LEN
  {
    b[i * HASH_LEN..(i + 1) * HASH_LEN]
  }

  /** The length of the next piece of `n` trits. */
  function PieceLen(n: nat): nat {
    if n < HASH_LEN then n else HASH_LEN
  }

  /** Overwrites the trits from `at` on with `data`. */
  function WriteAt(b: seq<Trit>, at: nat, data: seq<Trit>): (r: seq<Trit>)
    requires at + |data| <= |b|
    ensures |r| == |b|
    ensures r[at..at + |data|] == data
    ensures forall i :: 0 <= i < at || at + |data| <= i < |b| ==> r[i] == b[i]
  {
    b[..at] + data + b[at + |data|..]
  }

  /** Overwriting a piece changes that piece and no other. */
  lemma ChunkAfterWrite(b: seq<Trit>, i: nat, data: seq<Trit>, k: nat)
    requires |data| == HASH_LEN && (i + 1) * HASH_LEN <= |b| && (k + 1) * HASH_LEN <= |b|
    ensures Chunk(WriteAt(b, i * HASH_LEN, data), k) == if k == i then data else Chunk(b, k)
  {
  }

  /** Reading a field after writing its first trits: the data, then what was there. */
  lemma ReadWritten(b: seq<Trit>, at: nat, data: seq<Trit>, n: nat)
    requires |data| <= n && at + n <= |b|
    ensures WriteAt(b, at, data)[at..at + n] == data + b[at..at + n][|data|..]
  {
  }

  /** Reading a field that does not overlap what was written. */
  lemma ReadElsewhere(b: seq<Trit>, at: nat, data: seq<Trit>, from: nat, n: nat)
    requires at + |data| <= |b| && from + n <= |b| && (from + n <= at || at + |data| <= from)
    ensures WriteAt(b, at, data)[from..from + n] == b[from..from + n]
  {
  }

  // ----- Division

  lemma QuotientUnique(u: nat, m: nat, q: nat, r: nat)
    requires m > 0 && r < m && u == q * m + r
    ensures u / m == q
  {
    var d := u / m - q;
    assert u == u / m * m + u % m;
    assert d * m == r - u % m && -d * m == u % m - r;
    if d >= 1 {
      MultipleAtLeast(d, m);
    } else if -d >= 1 {
      MultipleAtLeast(-d, m);
    }
  }

  lemma RemainderUnique(u: nat, m: nat, q: nat, r: nat)
    requires m > 0 && r < m && u == q * m + r
    ensures u % m == r
  {
    QuotientUnique(u, m, q, r);
    assert u == u / m * m + u % m;
  }

  lemma MultipleAtLeast(d: int, m: int)
    requires d >= 1 && m >= 0
    ensures d * m >= m
  {
  }
}
