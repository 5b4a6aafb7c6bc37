/**
 Conversion of a 384-bit number, as twelve 32-bit digits with the most significant first, into 243
 unbalanced trits by repeated in-place long division by three.
 */
module BigInt {

  import opened Common
  import opened Ternary

  const BASE := 0x1_0000_0000
  const DIGITS := 12
  const TRITS := 243

  type Utrit = t: int | 0 <= t <= 2

  /** The number that big-endian digits stand for. */
  function Number(digits: seq<u32>): (n: nat)
    decreases |digits|
  {
    if digits == [] then 0 else Number(digits[..|digits| - 1]) * BASE + digits[|digits| - 1] as int
  }

  /** The number that trits stand for in base three, least significant first. */
  function Unbalanced(trits: seq<Utrit>): (n: nat) {
    if trits == [] then 0 else trits[0] + 3 * Unbalanced(trits[1..])
  }

  function PowBase(n: nat): (p: nat)
    ensures p >= 1
  {
    if n == 0 then 1 else BASE * PowBase(n - 1)
  }

  lemma {:induction false} NumberBound(digits: seq<u32>)
    ensures Number(digits) < PowBase(|digits|)
  {
    if digits != [] {
      NumberBound(digits[..|digits| - 1]);
    }
  }

  lemma {:induction false} NumberOfZeros(digits: seq<u32>)
    requires forall i :: 0 <= i < |digits| ==> digits[i] == 0
    ensures Number(digits) == 0
  {
    if digits != [] {
      NumberOfZeros(digits[..|digits| - 1]);
    }
  }

  lemma {:induction false} UnbalancedAppend(trits: seq<Utrit>, t: Utrit)
    ensures Unbalanced(trits + [t]) == Unbalanced(trits) + Pow3(|trits|) * t
  {
    if trits == [] {
      assert [t][1..] == [];
    } else {
      assert (trits + [t])[1..] == trits[1..] + [t];
      UnbalancedAppend(trits[1..], t);
    }
  }

  // ----- 384 bits fit 243 trits

  lemma SmallPowers()
    ensures Pow2(4) == 16 && Pow2(19) == 0x8_0000 && Pow2(32) == BASE
    ensures Pow3(3) == 27 && Pow3(12) == 531441
  {
    assert Pow2(3) == 8;
    Pow2Adds(4, 4);
    Pow2Adds(8, 8);
    Pow2Adds(16, 3);
    Pow2Adds(16, 16);
    assert Pow3(6) == 729;
    Pow3Adds(6, 6);
  }

  /** Twelve trits hold more than nineteen bits. */
  lemma {:induction false} BlocksOfTwelve(k: nat)
    ensures Pow2(19 * k) <= Pow3(12 * k)
  {
    if k > 0 {
      BlocksOfTwelve(k - 1);
      SmallPowers();
      Pow3Adds(12, 12 * (k - 1));
      Pow2Adds(19, 19 * (k - 1));
      assert 12 + 12 * (k - 1) == 12 * k && 19 + 19 * (k - 1) == 19 * k;
    }
  }

  lemma {:induction false} PowBaseIsPow2(n: nat)
    ensures PowBase(n) == Pow2(32 * n)
  {
    if n > 0 {
      PowBaseIsPow2(n - 1);
      Pow2Adds(32, 32 * (n - 1));
      SmallPowers();
      assert 32 + 32 * (n - 1) == 32 * n;
    }
  }

  /** Digits of 32 bits that amount to `19 k + 4` bits fit into `12 k + 3` trits; `k` is 20 here. */
  lemma DigitsFitTrits(digits: nat, trits: nat, k: nat)
    requires 32 * digits == 19 * k + 4 && trits == 12 * k + 3
    ensures PowBase(digits) <= Pow3(trits)
  {
    PowBaseIsPow2(digits);
    BlocksOfTwelve(k);
    Pow3Adds(12 * k, 3);
    Pow2Adds(19 * k, 4);
    SmallPowers();
  }

  // ----- Long division

  /** Dividing the digits of `before` by three from the most significant one down: the quotients read
      so far and the remainder make up the digits read so far. */
  ghost predicate Divided(before: seq<u32>, after: seq<u32>, rem: u32) {
    |after| == |before| && rem < 3 && Number(before) == 3 * Number(after) + rem as int
  }

  /** One pass of long division, in place, over the digits from `start` on; the digits before are zero.
      The partial dividend fits a `u64` and every quotient a `u32`. */
  method DivideByThree(digits: array<u32>, start: nat) returns (rem: u32)
    requires start <= digits.Length && forall i :: 0 <= i < start ==> digits[i] == 0
    modifies digits
    ensures forall i :: 0 <= i < start ==> digits[i] == 0
    ensures Divided(old(digits[..]), digits[..], rem)
  {
    rem := 0;
    assert digits[..start] == old(digits[..])[..start];
    NumberOfZeros(digits[..start]);
    for i := start to digits.Length
      invariant forall k :: 0 <= k < start ==> digits[k] == 0
      invariant forall k :: i <= k < digits.Length ==> digits[k] == old(digits[k])
      invariant Divided(old(digits[..])[..i], digits[..i], rem)
    {
      var digit := digits[i];
      var withRem: u64 := (rem as u64) * BASE as u64 + digit as u64;
      ghost var done := digits[..i];
      digits[i] := (withRem / 3) as u32;
      rem := (withRem % 3) as u32;
      assert digits[..i + 1] == done + [digits[i]];
      assert old(digits[..])[..i + 1] == old(digits[..])[..i] + [digit];
      NumberAppend(done, digits[i]);
      NumberAppend(old(digits[..])[..i], digit);
    }
    assert digits[..digits.Length] == digits[..] && old(digits[..])[..digits.Length] == old(digits[..]);
  }

  lemma NumberAppend(digits: seq<u32>, d: u32)
    ensures Number(digits + [d]) == Number(digits) * BASE + d as int
  {
    assert (digits + [d])[..|digits|] == digits;
  }

  /** The leading-zero skip of one pass: the first non-zero digit from `start` on, or the last digit when
      all are zero. Only zero digits are skipped. */
  method SkipLeadingZeros(digits: array<u32>, start: nat) returns (first: nat)
    requires start < digits.Length && forall i :: 0 <= i < start ==> digits[i] == 0
    ensures start <= first < digits.Length && forall i :: 0 <= i < first ==> digits[i] == 0
    ensures digits[first] == 0 ==> first == digits.Length - 1
  {
    first := start;
    for i := start to digits.Length
      invariant start <= first < digits.Length && (first == i - 1 || (i == start && first == start))
      invariant forall k :: 0 <= k < i ==> digits[k] == 0
    {
      first := i;
      if digits[i] != 0 {
        break;
      }
    }
  }

  /** 243 passes yield the base-three digits of the number, and use it up. */
  method FromU384(value: seq<u32>) returns (trits: seq<Utrit>)
    requires |value| == DIGITS
    ensures |trits| == TRITS && Unbalanced(trits) == Number(value)
  {
    var digits := new u32[DIGITS](i requires 0 <= i < DIGITS => value[i]);
    assert digits[..] == value;
    var start := 0;
    trits := [];
    for i := 0 to TRITS
      invariant |trits| == i && start < DIGITS
      invariant forall k :: 0 <= k < start ==> digits[k] == 0
      invariant Unbalanced(trits) + Pow3(|trits|) * Number(digits[..]) == Number(value)
    {
      ghost var before := digits[..];
      start := SkipLeadingZeros(digits, start);
      var rem := DivideByThree(digits, start);
      PassKeepsNumber(trits, before, digits[..], rem);
      trits := trits + [rem as int];
    }
    NothingLeft(value, digits[..], trits);
  }

  lemma PassKeepsNumber(trits: seq<Utrit>, before: seq<u32>, after: seq<u32>, rem: u32)
    requires Divided(before, after, rem)
    ensures Unbalanced(trits + [rem as int]) + Pow3(|trits| + 1) * Number(after) ==
            Unbalanced(trits) + Pow3(|trits|) * Number(before)
  {
    UnbalancedAppend(trits, rem as int);
    SplitProduct(Pow3(|trits|), Number(after), rem as int, Number(before));
  }

  lemma SplitProduct(p: nat, q: nat, r: nat, n: nat)
    requires n == 3 * q + r
    ensures p * r + 3 * p * q == p * n
  {
  }

  /** After 243 passes the quotient is zero, because 384 bits fit 243 trits. */
  lemma NothingLeft(value: seq<u32>, left: seq<u32>, trits: seq<Utrit>)
    requires |value| == DIGITS && |trits| == TRITS
    requires Unbalanced(trits) + Pow3(|trits|) * Number(left) == Number(value)
    ensures Number(left) == 0 && Unbalanced(trits) == Number(value)
  {
    NumberBound(value);
    DigitsFitTrits(|value|, |trits|, 20);
    SmallProduct(Pow3(|trits|), Number(left));
  }

  lemma SmallProduct(p: nat, q: nat)
    requires p * q < p
    ensures q == 0
  {
  }
}
