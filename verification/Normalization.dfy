/**
 Normalisation of a hash before signing: each of the three fragments of 27 trytes is adjusted, first
 tryte first, until it sums to zero.
 */
module Normalization {

  import opened Ternary
  import opened PackedTrits

  const MIN_TRYTE_VALUE := -13
  const MAX_TRYTE_VALUE := 13
  const FRAGMENTS := 3
  const FRAGMENT_LEN := 27

  type Tryte = v: int | -13 <= v <= 13

  function Sum(vs: seq<Tryte>): int {
    if vs == [] then 0 else vs[0] + Sum(vs[1..])
  }

  /** The tryte made of three trits from position `3 j` on. */
  function TryteAt(trits: seq<Trit>, j: nat): Tryte
    requires 3 * j + 3 <= |trits|
  {
    trits[3 * j] + 3 * trits[3 * j + 1] as int + 9 * trits[3 * j + 2] as int
  }

  /** The `n` trytes from tryte `j` on. */
  function Trytes(trits: seq<Trit>, j: nat, n: nat): (vs: seq<Tryte>)
    requires 3 * (j + n) <= |trits|
    ensures |vs| == n && forall k :: 0 <= k < n ==> vs[k] == TryteAt(trits, j + k)
    decreases n, trits
  {
    if n == 0 then [] else [TryteAt(trits, j)] + Trytes(trits, j + 1, n - 1)
  }

  /** The trytes of fragment `i`. */
  function Fragment(trits: seq<Trit>, i: nat): (vs: seq<Tryte>)
    requires 3 * FRAGMENT_LEN * (i + 1) <= |trits|
    ensures |vs| == FRAGMENT_LEN
  {
    Trytes(trits, i * FRAGMENT_LEN, FRAGMENT_LEN)
  }

  // ----- Reference: one pass that saturates trytes from the front

  /** Takes `k` away from the trytes, each giving what it can before the next is touched. */
  function Lowered(vs: seq<Tryte>, k: nat): (r: seq<Tryte>)
    ensures |r| == |vs|
  {
    if vs == [] then []
    else
      var d: nat := if k < vs[0] - MIN_TRYTE_VALUE then k else vs[0] - MIN_TRYTE_VALUE;
      [vs[0] - d] + Lowered(vs[1..], k - d)
  }

  /** Adds `k` to the trytes, each taking what it can before the next is touched. */
  function Raised(vs: seq<Tryte>, k: nat): (r: seq<Tryte>)
    ensures |r| == |vs|
  {
    if vs == [] then []
    else
      var d: nat := if k < MAX_TRYTE_VALUE - vs[0] then k else MAX_TRYTE_VALUE - vs[0];
      [vs[0] + d] + Raised(vs[1..], k - d)
  }

  /** The adjusted fragment. */
  function Balanced(vs: seq<Tryte>): (r: seq<Tryte>)
    ensures |r| == |vs|
  {
    if Sum(vs) > 0 then Lowered(vs, Sum(vs)) else Raised(vs, -Sum(vs))
  }

  lemma {:induction false} SumBound(vs: seq<Tryte>)
    ensures MIN_TRYTE_VALUE * |vs| <= Sum(vs) <= MAX_TRYTE_VALUE * |vs|
  {
    if vs != [] { SumBound(vs[1..]); }
  }

  lemma {:induction false} LoweredSum(vs: seq<Tryte>, k: nat)
    requires k <= Sum(vs) - MIN_TRYTE_VALUE * |vs|
    ensures Sum(Lowered(vs, k)) == Sum(vs) - k
    ensures k == 0 ==> Lowered(vs, k) == vs
  {
    if vs != [] {
      var d: nat := if k < vs[0] - MIN_TRYTE_VALUE then k else vs[0] - MIN_TRYTE_VALUE;
      SumBound(vs[1..]);
      LoweredSum(vs[1..], k - d);
    }
  }

  lemma {:induction false} RaisedSum(vs: seq<Tryte>, k: nat)
    requires k <= MAX_TRYTE_VALUE * |vs| - Sum(vs)
    ensures Sum(Raised(vs, k)) == Sum(vs) + k
    ensures k == 0 ==> Raised(vs, k) == vs
  {
    if vs != [] {
      var d: nat := if k < MAX_TRYTE_VALUE - vs[0] then k else MAX_TRYTE_VALUE - vs[0];
      SumBound(vs[1..]);
      RaisedSum(vs[1..], k - d);
    }
  }

  /** A normalised fragment sums to zero, and a fragment that does is left alone: normalising twice is
      normalising once. */
  lemma BalancedIsZeroSum(vs: seq<Tryte>)
    ensures Sum(Balanced(vs)) == 0
    ensures Sum(vs) == 0 ==> Balanced(vs) == vs
    ensures Balanced(Balanced(vs)) == Balanced(vs)
  {
    ZeroSumKept(vs);
    if Sum(vs) > 0 {
      LoweredSum(vs, Sum(vs));
    } else {
      RaisedSum(vs, -Sum(vs));
    }
    ZeroSumKept(Balanced(vs));
  }

  lemma {:induction false} LoweredShape(vs: seq<Tryte>, k: nat) returns (p: nat)
    ensures p <= |vs| && forall i :: 0 <= i < p ==> Lowered(vs, k)[i] == MIN_TRYTE_VALUE
    ensures forall i :: p < i < |vs| ==> Lowered(vs, k)[i] == vs[i]
    ensures p < |vs| ==> Lowered(vs, k)[p] <= vs[p]
  {
    if vs == [] {
      p := 0;
    } else if k < vs[0] - MIN_TRYTE_VALUE {
      p := 0;
      SumBound(vs[1..]);
      LoweredSum(vs[1..], 0);
    } else {
      var q := LoweredShape(vs[1..], k - (vs[0] - MIN_TRYTE_VALUE));
      p := q + 1;
    }
  }

  lemma {:induction false} RaisedShape(vs: seq<Tryte>, k: nat) returns (p: nat)
    ensures p <= |vs| && forall i :: 0 <= i < p ==> Raised(vs, k)[i] == MAX_TRYTE_VALUE
    ensures forall i :: p < i < |vs| ==> Raised(vs, k)[i] == vs[i]
    ensures p < |vs| ==> Raised(vs, k)[p] >= vs[p]
  {
    if vs == [] {
      p := 0;
    } else if k < MAX_TRYTE_VALUE - vs[0] {
      p := 0;
      SumBound(vs[1..]);
      RaisedSum(vs[1..], 0);
    } else {
      var q := RaisedShape(vs[1..], k - (MAX_TRYTE_VALUE - vs[0]));
      p := q + 1;
    }
  }

  /** The adjustment saturates trytes from the front, down for a positive and up for a negative sum, moves at
      most one further tryte, and leaves those behind it alone. With the sum at zero this determines it. */
  lemma BalancedShape(vs: seq<Tryte>) returns (p: nat)
    ensures p <= |vs| && |Balanced(vs)| == |vs| && Sum(Balanced(vs)) == 0
    ensures forall i :: p < i < |vs| ==> Balanced(vs)[i] == vs[i]
    ensures Sum(vs) > 0 ==> (forall i :: 0 <= i < p ==> Balanced(vs)[i] == -13) && (p < |vs| ==> Balanced(vs)[p] <= vs[p])
    ensures Sum(vs) < 0 ==> (forall i :: 0 <= i < p ==> Balanced(vs)[i] == 13) && (p < |vs| ==> Balanced(vs)[p] >= vs[p])
    ensures Sum(vs) == 0 ==> Balanced(vs) == vs
  {
    BalancedIsZeroSum(vs);
    if Sum(vs) > 0 {
      p := LoweredShape(vs, Sum(vs));
    } else {
      p := RaisedShape(vs, -Sum(vs));
    }
  }

  lemma ZeroSumKept(vs: seq<Tryte>)
    ensures Sum(vs) == 0 ==> Balanced(vs) == vs
  {
    if Sum(vs) == 0 {
      SumBound(vs);
      RaisedSum(vs, 0);
    }
  }

  /** No fragment dominates another with the same sum: to raise one tryte another must go down. Hence
      no normalised hash needs at most the hash-chain steps of a different one everywhere. */
  lemma {:induction false} NoDomination(a: seq<Tryte>, b: seq<Tryte>)
    requires |a| == |b| && forall j :: 0 <= j < |a| ==> a[j] <= b[j]
    ensures Sum(a) <= Sum(b) && (Sum(a) == Sum(b) ==> a == b)
  {
    if a != [] {
      NoDomination(a[1..], b[1..]);
      assert a == [a[0]] + a[1..] && b == [b[0]] + b[1..];
    }
  }

  // ----- The unit steps of the loops

  /** One less at the first tryte above the minimum. */
  function StepDown(vs: seq<Tryte>): (r: seq<Tryte>)
    ensures |r| == |vs|
  {
    if vs == [] then []
    else if vs[0] > MIN_TRYTE_VALUE then [vs[0] - 1] + vs[1..]
    else [vs[0]] + StepDown(vs[1..])
  }

  /** One more at the first tryte below the maximum. */
  function StepUp(vs: seq<Tryte>): (r: seq<Tryte>)
    ensures |r| == |vs|
  {
    if vs == [] then []
    else if vs[0] < MAX_TRYTE_VALUE then [vs[0] + 1] + vs[1..]
    else [vs[0]] + StepUp(vs[1..])
  }

  /** Unit steps add up to the one pass, as long as a tryte is left to adjust. */
  lemma {:induction false} StepDownLowers(vs: seq<Tryte>, k: nat)
    requires k < Sum(vs) - MIN_TRYTE_VALUE * |vs|
    ensures StepDown(Lowered(vs, k)) == Lowered(vs, k + 1)
  {
    if vs != [] {
      var room := vs[0] - MIN_TRYTE_VALUE;
      SumBound(vs[1..]);
      if k < room {
        LoweredSum(vs[1..], 0);
        assert Lowered(vs, k)[1..] == vs[1..];
      } else {
        assert Lowered(vs, k)[1..] == Lowered(vs[1..], k - room);
        StepDownLowers(vs[1..], k - room);
      }
    }
  }

  lemma {:induction false} StepUpRaises(vs: seq<Tryte>, k: nat)
    requires k < MAX_TRYTE_VALUE * |vs| - Sum(vs)
    ensures StepUp(Raised(vs, k)) == Raised(vs, k + 1)
  {
    if vs != [] {
      var room := MAX_TRYTE_VALUE - vs[0];
      SumBound(vs[1..]);
      if k < room {
        RaisedSum(vs[1..], 0);
        assert Raised(vs, k)[1..] == vs[1..];
      } else {
        assert Raised(vs, k)[1..] == Raised(vs[1..], k - room);
        StepUpRaises(vs[1..], k - room);
      }
    }
  }

  lemma {:induction false} StepDownAt(vs: seq<Tryte>, j: nat)
    requires j <= |vs| && forall i :: 0 <= i < j ==> vs[i] == MIN_TRYTE_VALUE
    ensures j < |vs| && vs[j] > MIN_TRYTE_VALUE ==> StepDown(vs) == vs[j := vs[j] - 1]
    ensures j == |vs| ==> StepDown(vs) == vs
  {
    if j > 0 {
      assert vs == [vs[0]] + vs[1..];
      StepDownAt(vs[1..], j - 1);
    }
  }

  lemma {:induction false} StepUpAt(vs: seq<Tryte>, j: nat)
    requires j <= |vs| && forall i :: 0 <= i < j ==> vs[i] == MAX_TRYTE_VALUE
    ensures j < |vs| && vs[j] < MAX_TRYTE_VALUE ==> StepUp(vs) == vs[j := vs[j] + 1]
    ensures j == |vs| ==> StepUp(vs) == vs
  {
    if j > 0 {
      assert vs == [vs[0]] + vs[1..];
      StepUpAt(vs[1..], j - 1);
    }
  }

  // ----- The loops

  /** The search of one downward step over one fragment; always finds a tryte when the sum is positive. */
  method LowerFirst(values: array<Tryte>, from: nat) returns (found: bool)
    requires from + FRAGMENT_LEN <= values.Length
    modifies values
    ensures values[..from] == old(values[..from]) && values[from + FRAGMENT_LEN..] == old(values[from + FRAGMENT_LEN..])
    ensures values[from..from + FRAGMENT_LEN] == StepDown(old(values[from..from + FRAGMENT_LEN]))
    ensures Sum(old(values[from..from + FRAGMENT_LEN])) > 0 ==> found
  {
    ghost var vs := values[from..from + FRAGMENT_LEN];
    found := false;
    for j := from to from + FRAGMENT_LEN
      invariant !found && values[..] == old(values[..])
      invariant forall i :: 0 <= i < j - from ==> vs[i] == MIN_TRYTE_VALUE
    {
      if values[j] > MIN_TRYTE_VALUE {
        StepDownAt(vs, j - from);
        values[j] := values[j] - 1;
        found := true;
        assert values[from..from + FRAGMENT_LEN] == vs[j - from := vs[j - from] - 1];
        return;
      }
      assert vs[j - from] == values[j];
    }
    StepDownAt(vs, FRAGMENT_LEN);
    AllMinimal(vs);
  }

  lemma {:induction false} AllMinimal(vs: seq<Tryte>)
    requires forall i :: 0 <= i < |vs| ==> vs[i] == MIN_TRYTE_VALUE
    ensures Sum(vs) <= 0
  {
    if vs != [] { AllMinimal(vs[1..]); }
  }

  method RaiseFirst(values: array<Tryte>, from: nat) returns (found: bool)
    requires from + FRAGMENT_LEN <= values.Length
    modifies values
    ensures values[..from] == old(values[..from]) && values[from + FRAGMENT_LEN..] == old(values[from + FRAGMENT_LEN..])
    ensures values[from..from + FRAGMENT_LEN] == StepUp(old(values[from..from + FRAGMENT_LEN]))
    ensures Sum(old(values[from..from + FRAGMENT_LEN])) < 0 ==> found
  {
    ghost var vs := values[from..from + FRAGMENT_LEN];
    found := false;
    for j := from to from + FRAGMENT_LEN
      invariant !found && values[..] == old(values[..])
      invariant forall i :: 0 <= i < j - from ==> vs[i] == MAX_TRYTE_VALUE
    {
      if values[j] < MAX_TRYTE_VALUE {
        StepUpAt(vs, j - from);
        values[j] := values[j] + 1;
        found := true;
        assert values[from..from + FRAGMENT_LEN] == vs[j - from := vs[j - from] + 1];
        return;
      }
      assert vs[j - from] == values[j];
    }
    StepUpAt(vs, FRAGMENT_LEN);
    AllMaximal(vs);
  }

  lemma {:induction false} AllMaximal(vs: seq<Tryte>)
    requires forall i :: 0 <= i < |vs| ==> vs[i] == MAX_TRYTE_VALUE
    ensures Sum(vs) >= 0
  {
    if vs != [] { AllMaximal(vs[1..]); }
  }

  /** Only the fragment from `from` on may differ. */
  ghost predicate OnlyFragment(before: seq<Tryte>, after: seq<Tryte>, from: nat) {
    && |after| == |before| && from + FRAGMENT_LEN <= |before|
    && after[..from] == before[..from] && after[from + FRAGMENT_LEN..] == before[from + FRAGMENT_LEN..]
  }

  lemma LoweredNothing(vs: seq<Tryte>)
    ensures Lowered(vs, 0) == vs
  {
    SumBound(vs);
    LoweredSum(vs, 0);
  }

  lemma RaisedNothing(vs: seq<Tryte>)
    ensures Raised(vs, 0) == vs
  {
    SumBound(vs);
    RaisedSum(vs, 0);
  }

  /** As long as the sum is positive, lowering by one more is a step. */
  lemma {:induction false} OneLower(vs: seq<Tryte>, k: nat)
    requires k < Sum(vs)
    ensures Sum(Lowered(vs, k)) > 0 && StepDown(Lowered(vs, k)) == Lowered(vs, k + 1)
  {
    SumBound(vs);
    LoweredSum(vs, k);
    StepDownLowers(vs, k);
  }

  lemma {:induction false} OneRaise(vs: seq<Tryte>, k: nat)
    requires k < -Sum(vs)
    ensures Sum(Raised(vs, k)) < 0 && StepUp(Raised(vs, k)) == Raised(vs, k + 1)
  {
    SumBound(vs);
    RaisedSum(vs, k);
    StepUpRaises(vs, k);
  }

  /** Counts a positive sum down to zero by unit steps. */
  method LowerFragment(values: array<Tryte>, from: nat, total: int)
    requires from + FRAGMENT_LEN <= values.Length && total == Sum(values[from..from + FRAGMENT_LEN]) >= 0
    modifies values
    ensures OnlyFragment(old(values[..]), values[..], from)
    ensures values[from..from + FRAGMENT_LEN] == Lowered(old(values[from..from + FRAGMENT_LEN]), total)
  {
    ghost var vs := values[from..from + FRAGMENT_LEN];
    var sum := total;
    LoweredNothing(vs);
    while sum > 0
      invariant 0 <= sum <= total && OnlyFragment(old(values[..]), values[..], from)
      invariant values[from..from + FRAGMENT_LEN] == Lowered(vs, total - sum)
    {
      OneLower(vs, total - sum);
      var found := LowerFirst(values, from);
      assert found;
      sum := sum - 1;
    }
  }

  /** Counts a negative sum up to zero by unit steps. */
  method RaiseFragment(values: array<Tryte>, from: nat, total: int)
    requires from + FRAGMENT_LEN <= values.Length && total == Sum(values[from..from + FRAGMENT_LEN]) <= 0
    modifies values
    ensures OnlyFragment(old(values[..]), values[..], from)
    ensures values[from..from + FRAGMENT_LEN] == Raised(old(values[from..from + FRAGMENT_LEN]), -total)
  {
    ghost var vs := values[from..from + FRAGMENT_LEN];
    var sum := total;
    RaisedNothing(vs);
    while sum < 0
      invariant total <= sum <= 0 && OnlyFragment(old(values[..]), values[..], from)
      invariant values[from..from + FRAGMENT_LEN] == Raised(vs, sum - total)
    {
      OneRaise(vs, sum - total);
      var found := RaiseFirst(values, from);
      assert found;
      sum := sum + 1;
    }
  }

  /** Fills one fragment from the trits, adding it up, and adjusts it. The sum fits an `i16`. */
  method NormalizeFragment(hash: seq<Trit>, values: array<Tryte>, i: nat)
    requires |hash| >= HASH_LEN && values.Length == FRAGMENTS * FRAGMENT_LEN && i < FRAGMENTS
    modifies values
    ensures OnlyFragment(old(values[..]), values[..], i * FRAGMENT_LEN)
    ensures values[i * FRAGMENT_LEN..(i + 1) * FRAGMENT_LEN] == Balanced(Fragment(hash, i))
  {
    var from := i * FRAGMENT_LEN;
    var sum: int := 0;
    ghost var vs := Fragment(hash, i);
    for j := from to from + FRAGMENT_LEN
      invariant OnlyFragment(old(values[..]), values[..], from)
      invariant values[from..j] == vs[..j - from] && sum == Sum(vs[..j - from])
    {
      values[j] := TryteAt(hash, j);
      assert vs[j - from] == values[j];
      SumAppend(vs[..j - from], vs[j - from]);
      assert vs[..j - from + 1] == vs[..j - from] + [vs[j - from]];
      sum := sum + values[j] as int;
    }
    assert vs[..FRAGMENT_LEN] == vs;
    SumBound(vs);
    if sum > 0 {
      LowerFragment(values, from, sum);
    } else {
      RaiseFragment(values, from, sum);
    }
  }

  lemma {:induction false} SumAppend(vs: seq<Tryte>, v: Tryte)
    ensures Sum(vs + [v]) == Sum(vs) + v
  {
    if vs == [] {
      assert vs + [v] == [v];
    } else {
      assert (vs + [v])[1..] == vs[1..] + [v];
      SumAppend(vs[1..], v);
    }
  }

  // ----- Back to trits

  /** The three trits of a tryte, as the packed encoding with three trits per byte reads them. */
  function TritsOfTryte(v: Tryte): (ts: seq<Trit>)
    ensures |ts| == 3
  {
    assert IsValidByte(3, v) by { assert MaxValue(3) == 13; }
    [Extract(3, v, 0), Extract(3, v, 1), Extract(3, v, 2)]
  }

  lemma TryteRoundTrip(v: Tryte)
    ensures var ts := TritsOfTryte(v); ts[0] + 3 * ts[1] as int + 9 * ts[2] as int == v
  {
    assert MaxValue(3) == 13;
    ThreeDigits(v + 13);
  }

  lemma ThreeDigits(u: nat)
    requires u < 27
    ensures Digit(u, 0) + 3 * Digit(u, 1) + 9 * Digit(u, 2) == u
  {
    var q := u / 3;
    assert Digit(u, 1) == Digit(q, 0) == q % 3;
    assert Digit(u, 2) == Digit(q, 1) == Digit(q / 3, 0) == q / 3;
    assert u == 3 * q + u % 3;
    assert q == 3 * (q / 3) + q % 3;
  }

  /** `normalized` are 243 trits whose fragments are the adjusted fragments of `hash`. */
  ghost predicate IsNormalized(hash: seq<Trit>, normalized: seq<Trit>)
    requires |hash| >= HASH_LEN
  {
    |normalized| == HASH_LEN && forall i :: 0 <= i < FRAGMENTS ==> Fragment(normalized, i) == Balanced(Fragment(hash, i))
  }

  /** The whole normalisation: re-encoded, the result has exactly the adjusted tryte values. */
  method NormalizeHash(hash: seq<Trit>) returns (normalized: seq<Trit>)
    requires |hash| >= HASH_LEN
    ensures IsNormalized(hash, normalized)
  {
    var values := new Tryte[FRAGMENTS * FRAGMENT_LEN](_ => 0);
    for i := 0 to FRAGMENTS
      invariant forall k :: 0 <= k < i ==> values[..][k * FRAGMENT_LEN..(k + 1) * FRAGMENT_LEN] == Balanced(Fragment(hash, k))
    {
      ghost var before := values[..];
      NormalizeFragment(hash, values, i);
      forall k | 0 <= k < i
        ensures values[..][k * FRAGMENT_LEN..(k + 1) * FRAGMENT_LEN] == before[k * FRAGMENT_LEN..(k + 1) * FRAGMENT_LEN]
      {
        OtherFragment(before, values[..], i, k);
      }
    }
    normalized := EncodeTrytes(values[..]);
    forall i | 0 <= i < FRAGMENTS
      ensures Fragment(normalized, i) == values[..][i * FRAGMENT_LEN..(i + 1) * FRAGMENT_LEN]
    {
    }
  }

  lemma OtherFragment(before: seq<Tryte>, after: seq<Tryte>, i: nat, k: nat)
    requires OnlyFragment(before, after, i * FRAGMENT_LEN) && k < i
    ensures after[k * FRAGMENT_LEN..(k + 1) * FRAGMENT_LEN] == before[k * FRAGMENT_LEN..(k + 1) * FRAGMENT_LEN]
  {
    var n := i * FRAGMENT_LEN;
    assert after[k * FRAGMENT_LEN..(k + 1) * FRAGMENT_LEN] == after[..n][k * FRAGMENT_LEN..(k + 1) * FRAGMENT_LEN];
    assert before[k * FRAGMENT_LEN..(k + 1) * FRAGMENT_LEN] == before[..n][k * FRAGMENT_LEN..(k + 1) * FRAGMENT_LEN];
  }

  /** Unpacks trytes into trits. */
  method EncodeTrytes(values: seq<Tryte>) returns (trits: seq<Trit>)
    ensures |trits| == 3 * |values| && forall k :: 0 <= k < |values| ==> TryteAt(trits, k) == values[k]
  {
    trits := [];
    for j := 0 to |values|
      invariant |trits| == 3 * j
      invariant forall k :: 0 <= k < j ==> TryteAt(trits, k) == values[k]
    {
      TryteRoundTrip(values[j]);
      ghost var before := trits;
      trits := trits + TritsOfTryte(values[j]);
      assert forall k :: 0 <= k < j ==> TryteAt(trits, k) == TryteAt(before, k);
    }
  }

  // ----- Main results

  /** Every fragment of a normalised hash sums to zero, and normalising it again gives it back. */
  lemma NormalizationIdempotent(hash: seq<Trit>, normalized: seq<Trit>)
    requires |hash| >= HASH_LEN && IsNormalized(hash, normalized)
    ensures forall i :: 0 <= i < FRAGMENTS ==> Sum(Fragment(normalized, i)) == 0
    ensures IsNormalized(normalized, normalized)
  {
    forall i | 0 <= i < FRAGMENTS
      ensures Sum(Fragment(normalized, i)) == 0 && Fragment(normalized, i) == Balanced(Fragment(normalized, i))
    {
      BalancedIsZeroSum(Fragment(hash, i));
    }
  }

  /** Two normalised hashes of which one is nowhere above the other are the same hash. A signature
      reveals `13 - v` hash-chain steps at a tryte `v`, so a signature never serves for another hash. */
  lemma NormalizedAntichain(a: seq<Trit>, b: seq<Trit>, x: seq<Trit>, y: seq<Trit>)
    requires |a| >= HASH_LEN && |b| >= HASH_LEN && IsNormalized(a, x) && IsNormalized(b, y)
    requires forall j :: 0 <= j < FRAGMENTS * FRAGMENT_LEN ==> TryteAt(x, j) <= TryteAt(y, j)
    ensures x == y
  {
    NormalizationIdempotent(a, x);
    NormalizationIdempotent(b, y);
    forall j | 0 <= j < FRAGMENTS * FRAGMENT_LEN
      ensures TryteAt(x, j) == TryteAt(y, j)
    {
      FragmentBelow(x, y, j / FRAGMENT_LEN);
      TryteOfFragment(x, j);
      TryteOfFragment(y, j);
    }
    TrytesDetermine(x, y);
  }

  lemma FragmentBelow(x: seq<Trit>, y: seq<Trit>, i: nat)
    requires |x| == HASH_LEN && |y| == HASH_LEN && i < FRAGMENTS && Sum(Fragment(x, i)) == Sum(Fragment(y, i))
    requires forall j :: 0 <= j < FRAGMENTS * FRAGMENT_LEN ==> TryteAt(x, j) <= TryteAt(y, j)
    ensures Fragment(x, i) == Fragment(y, i)
  {
    NoDomination(Fragment(x, i), Fragment(y, i));
  }

  lemma TryteOfFragment(x: seq<Trit>, j: nat)
    requires |x| == HASH_LEN && j < FRAGMENTS * FRAGMENT_LEN
    ensures j / FRAGMENT_LEN < FRAGMENTS && Fragment(x, j / FRAGMENT_LEN)[j % FRAGMENT_LEN] == TryteAt(x, j)
  {
    assert j / FRAGMENT_LEN * FRAGMENT_LEN + j % FRAGMENT_LEN == j;
  }

  lemma TrytesDetermine(x: seq<Trit>, y: seq<Trit>)
    requires |x| == HASH_LEN && |y| == HASH_LEN
    requires forall j :: 0 <= j < FRAGMENTS * FRAGMENT_LEN ==> TryteAt(x, j) == TryteAt(y, j)
    ensures x == y
  {
    forall p | 0 <= p < HASH_LEN ensures x[p] == y[p] {
      assert TryteAt(x, p / 3) == TryteAt(y, p / 3);
    }
  }
}
