/**
 Conversion between 64-bit integers and balanced trits, with every intermediate of the code shown to
 fit the integer type the code computes it in.
 */
module NumConversions {

  import opened Common
  import opened Ternary

  const I128_MAX := 0x7FFF_FFFF_FFFF_FFFF_FFFF_FFFF_FFFF_FFFF

  /** `(0.63 * 64_f32) as usize + 1`. */
  const MAX_TRITS_IN_I64 := 41

  newtype i128 = x: int | -I128_MAX - 1 <= x <= I128_MAX

  datatype ConversionError = EmptyTrits | AbsValueTooBig

  datatype Result<T> = Ok(value: T) | Err(error: ConversionError)

  lemma Pow3Double(n: nat, p: nat)
    requires Pow3(n) == p
    ensures Pow3(2 * n) == p * p
  {
    Pow3Adds(n, n);
  }

  lemma Pow3Forty(n: nat)
    requires n == 40
    ensures Pow3(n) == 12157665459056928801 && Pow3(n + 1) == 36472996377170786403
  {
    assert Pow3(5) == 243;
    Pow3Double(5, 243);
    Pow3Double(10, 59049);
    Pow3Double(20, 3486784401);
  }

  /** The largest numbers of 40 and 41 trits, around the 64-bit limits. */
  lemma MaxValueForty(n: nat)
    requires n == 40
    ensures MaxValue(n) == 6078832729528464400 && MaxValue(n + 1) == 18236498188585393201
  {
    Pow3Forty(n);
    MaxValueIsHalfPow3(n);
  }

  /** The number of tokens is the largest number of 33 trits. */
  lemma SupplyIsThirtyThreeTrits(n: nat)
    requires n == 11
    ensures MaxValue(3 * n) == IOTA_SUPPLY
  {
    assert Pow3(n) == 177147;
    Pow3Adds(n, n);
    Pow3Adds(n, 2 * n);
    MaxValueIsHalfPow3(3 * n);
  }

  /** The number of trits `v` needs. */
  ghost predicate IsMinTrits(v: nat, n: nat) {
    n >= 1 && v <= MaxValue(n) && forall m :: 1 <= m < n ==> MaxValue(m) < v
  }

  /** The least `n >= 1` such that `n` trits can hold the value. The running value stays within a `u64`
      for everything an `i64` magnitude can be. */
  method MinTrits(value: u64) returns (num: nat)
    requires value as int <= -I64_MIN
    ensures IsMinTrits(value as nat, num) && num <= MAX_TRITS_IN_I64
  {
    MaxValueForty(40);
    num := 1;
    var vp: u64 := 1;
    while value > vp
      invariant 1 <= num <= MAX_TRITS_IN_I64 && vp as nat == MaxValue(num)
      invariant forall m :: 1 <= m < num ==> MaxValue(m) < value as nat
      decreases MAX_TRITS_IN_I64 - num
    {
      assert num <= 40;
      MaxValueMonotone(num, 40);
      vp := vp * 3 + 1;
      num := num + 1;
    }
  }

  /** The encoding loop: least significant trit first, until the value is used up. Every trit above
      the last non-zero one stays zero. */
  method EncodeMagnitude(magnitude: u64, negative: bool, size: nat) returns (buf: seq<Trit>)
    requires magnitude as int <= MaxValue(size) && magnitude as int <= -I64_MIN
    ensures |buf| == size && Value(buf) == if negative then -(magnitude as int) else magnitude as int
  {
    buf := Zeros(size);
    var rest := magnitude;
    ghost var sign := if negative then -1 else 1;
    var pos := 0;
    while pos < size && rest != 0
      invariant 0 <= pos <= size == |buf|
      invariant forall i :: pos <= i < size ==> buf[i] == 0
      invariant Encoding(buf[..pos], rest as int, sign, magnitude as int)
      invariant rest as int <= MaxValue(size - pos) && rest <= magnitude
    {
      var trit: Trit := ((rest + 1) % 3) as int - 1;
      if negative {
        trit := -trit;
      }
      ghost var before := buf[..pos];
      buf := buf[pos := trit];
      assert buf[..pos + 1] == before + [trit];
      EncodeOne(before, rest as int, sign, magnitude as int, trit);
      MaxValueThird(rest as int, size - pos);
      rest := rest + 1;
      rest := rest / 3;
      pos := pos + 1;
    }
    assert buf == buf[..pos] + Zeros(size - pos);
    ValuePadded(buf[..pos], size - pos);
    assert sign * (Pow3(pos) * 0) == 0;
  }

  /** Encoding yields the shortest string for the number. */
  method FromI64(value: i64) returns (buf: seq<Trit>)
    ensures Value(buf) == value as int && |buf| <= MAX_TRITS_IN_I64
    ensures IsMinTrits(if value < 0 then -(value as int) else value as int, |buf|)
    ensures buf == TritsOf(value as int)
  {
    // The magnitude of the smallest `i64` is no `i64`; the code names it as a `u64`.
    var magnitude: u64 := if value == I64_MIN as i64 then 0x8000_0000_0000_0000 else
                          if value < 0 then (-value) as u64 else value as u64;
    var size := MinTrits(magnitude);
    buf := EncodeMagnitude(magnitude, value < 0, size);
    TritsOfUnique(buf, value as int);
  }

  /** What `pre` holds and what is left make up the number. */
  ghost predicate Encoding(pre: seq<Trit>, rest: nat, sign: int, magnitude: nat) {
    Value(pre) + sign * (Pow3(|pre|) * rest) == sign * magnitude
  }

  lemma EncodeOne(pre: seq<Trit>, rest: nat, sign: int, magnitude: nat, trit: Trit)
    requires Encoding(pre, rest, sign, magnitude) && trit == sign * ((rest + 1) % 3 - 1)
    ensures Encoding(pre + [trit], (rest + 1) / 3, sign, magnitude)
  {
    ValueConcat(pre, [trit]);
    EncodeStep(rest, |pre|, sign);
  }

  lemma MaxValueThird(rest: nat, n: nat)
    requires rest <= MaxValue(n) && n > 0
    ensures (rest + 1) / 3 <= MaxValue(n - 1)
  {
  }

  lemma EncodeStep(rest: nat, pos: nat, sign: int)
    ensures var trit := (rest + 1) % 3 - 1;
      sign * (Pow3(pos) * rest) == Pow3(pos) * (sign * trit) + sign * (Pow3(pos + 1) * ((rest + 1) / 3))
  {
    var trit, q, p := (rest + 1) % 3 - 1, (rest + 1) / 3, Pow3(pos);
    assert rest == trit + 3 * q;
    assert p * rest == p * trit + 3 * p * q;
  }

  // ----- Decoding

  /** What a cast from `i128` to `i64` keeps: the low 64 bits. */
  function WrapToI64(x: i128): i64 {
    ((x as int - I64_MIN) % (U64_MAX + 1) + I64_MIN) as i64
  }

  /** What decoding must answer, in terms of the number the trits stand for. The cut-off admits one
      number too many below the range of an `i64`, and the cast turns that one into the largest. */
  function Decoded(trits: seq<Trit>): Result<i64> {
    if trits == [] then Err(EmptyTrits)
    else if I64_MIN <= Value(trits) <= I64_MAX then Ok(Value(trits) as i64)
    else if Value(trits) == I64_MIN - 1 then Ok(I64_MAX as i64)
    else Err(AbsValueTooBig)
  }

  /** Once the leading trits alone are out of range, so is the whole number. */
  lemma {:induction false} LeadingTritsDecide(ts: seq<Trit>, i: nat, bound: int)
    requires i <= |ts| && bound >= 1
    ensures Value(ts[i..]) > bound ==> Value(ts) > bound
    ensures Value(ts[i..]) < -bound ==> Value(ts) < -bound
  {
    if i == 0 {
      assert ts[0..] == ts;
    } else {
      assert ts[i - 1..][1..] == ts[i..];
      LeadingTritsDecide(ts, i - 1, bound);
    }
  }

  /** A non-zero trit from position 41 on puts the number out of every 64-bit range. */
  lemma HighTritOutOfRange(ts: seq<Trit>, i: nat)
    requires MAX_TRITS_IN_I64 <= i < |ts| && ts[i] != 0
    ensures Value(ts) > I64_MAX || Value(ts) < I64_MIN - 1
  {
    var lo, hi := ts[..MAX_TRITS_IN_I64], ts[MAX_TRITS_IN_I64..];
    assert ts == lo + hi;
    ValueConcat(lo, hi);
    ValueBound(lo);
    Pow3Forty(40);
    MaxValueForty(40);
    NonZeroTrit(hi, i - MAX_TRITS_IN_I64);
    FarFromZero(Value(lo), MaxValue(MAX_TRITS_IN_I64), Pow3(MAX_TRITS_IN_I64), Value(hi));
  }

  lemma FarFromZero(a: int, m: nat, p: nat, v: int)
    requires 0 - m <= a <= m && v != 0
    ensures a + p * v >= p - m || a + p * v <= m - p
  {
    if v >= 1 {
      MultipleAtLeast(v, p);
    } else {
      MultipleAtLeast(-v, p);
    }
  }

  lemma {:induction false} NonZeroTrit(ts: seq<Trit>, i: nat)
    requires i < |ts| && ts[i] != 0
    ensures Value(ts) != 0
  {
    if ts[0] == 0 {
      NonZeroTrit(ts[1..], i - 1);
    }
  }

  /** The decoding loops: the guarded one in `i128` for 41 trits or more, the plain one below. */
  method TryFromTrits(trits: seq<Trit>) returns (r: Result<i64>)
    ensures r == Decoded(trits)
  {
    if |trits| == 0 {
      return Err(EmptyTrits);
    }
    if |trits| > MAX_TRITS_IN_I64 {
      for index := MAX_TRITS_IN_I64 to |trits|
      {
        if trits[index] != 0 {
          HighTritOutOfRange(trits, index);
          return Err(AbsValueTooBig);
        }
      }
    }
    var accum: i64 := 0;
    if |trits| >= MAX_TRITS_IN_I64 {
      var wide: i128 := 0;
      for index := |trits| downto 0
        invariant wide as int == Value(trits[index..]) && accum == WrapToI64(wide)
        invariant I64_MIN - 1 <= wide as int <= I64_MAX
      {
        assert trits[index..][1..] == trits[index + 1..];
        wide := wide * 3 + trits[index] as i128;
        if wide > I64_MAX as i128 || wide < I64_MIN as i128 - 1 {
          LeadingTritsDecide(trits, index, I64_MAX);
          LeadingTritsDecide(trits, index, I64_MAX + 2);
          return Err(AbsValueTooBig);
        }
        accum := WrapToI64(wide);
      }
    } else {
      for index := |trits| downto 0
        invariant accum as int == Value(trits[index..])
      {
        assert trits[index..][1..] == trits[index + 1..];
        ValueBound(trits[index..]);
        MaxValueForty(40);
        MaxValueMonotone(|trits| - index, 40);
        accum := accum * 3 + trits[index] as i64;
      }
      ValueBound(trits);
      MaxValueForty(40);
      MaxValueMonotone(|trits|, 40);
    }
    assert trits[0..] == trits;
    r := Ok(accum);
  }

  // ----- Encoding as a function, and the round trips

  /** The least `m >= n` with room for `v`. */
  function TritsNeeded(v: nat, n: nat): (m: nat)
    ensures n <= m && v <= MaxValue(m) && forall k :: n <= k < m ==> MaxValue(k) < v
    decreases v - MaxValue(n)
  {
    if v <= MaxValue(n) then n else TritsNeeded(v, n + 1)
  }

  function BalancedTrits(v: int, n: nat): (ts: seq<Trit>)
    ensures |ts| == n
    decreases n
  {
    if n == 0 then [] else
      var t := (v + 1) % 3 - 1;
      [t] + BalancedTrits((v - t) / 3, n - 1)
  }

  lemma {:induction false} BalancedTritsValue(v: int, n: nat)
    requires 0 - MaxValue(n) <= v <= MaxValue(n)
    ensures Value(BalancedTrits(v, n)) == v
    decreases n
  {
    if n > 0 {
      BalancedTritsValue((v - ((v + 1) % 3 - 1)) / 3, n - 1);
    }
  }

  /** The trits `From<i64>` yields for `v`. */
  function TritsOf(v: int): (ts: seq<Trit>)
    ensures |ts| >= 1
  {
    BalancedTrits(v, TritsNeeded(if v < 0 then -v else v, 1))
  }

  lemma TritsOfValue(v: int)
    ensures Value(TritsOf(v)) == v && IsMinTrits(if v < 0 then -v else v, |TritsOf(v)|)
  {
    BalancedTritsValue(v, |TritsOf(v)|);
  }

  /** A number takes at most `n` trits exactly when `n` trits can hold it. */
  lemma TritsOfLength(v: int, n: nat)
    requires n >= 1
    ensures |TritsOf(v)| <= n <==> 0 - MaxValue(n) <= v <= MaxValue(n)
  {
    TritsOfValue(v);
    if |TritsOf(v)| <= n {
      MaxValueMonotone(|TritsOf(v)|, n);
    }
  }

  /** No `i64` takes more than 41 trits. */
  lemma AtMost41Trits(v: i64)
    ensures |TritsOf(v as int)| <= MAX_TRITS_IN_I64
  {
    MaxValueForty(40);
    TritsOfLength(v as int, MAX_TRITS_IN_I64);
  }

  /** A string is what encoding yields exactly when it is the shortest string for its number. */
  lemma TritsOfUnique(buf: seq<Trit>, v: int)
    ensures buf == TritsOf(v) <==> Value(buf) == v && IsMinTrits(if v < 0 then -v else v, |buf|)
  {
    TritsOfValue(v);
    if Value(buf) == v && IsMinTrits(if v < 0 then -v else v, |buf|) {
      MinTritsUnique(if v < 0 then -v else v, |buf|, |TritsOf(v)|);
      ValueInjective(buf, TritsOf(v));
    }
  }

  lemma MinTritsUnique(v: nat, m: nat, n: nat)
    requires IsMinTrits(v, m) && IsMinTrits(v, n)
    ensures m == n
  {
    assert !(m < n);
    assert !(n < m);
  }

  /** Encoding then decoding is the identity on every `i64`, also when zero trits are appended, as when
      the number is written into a wider field. */
  lemma DecodeEncoded(v: i64, padding: nat)
    ensures Decoded(TritsOf(v as int) + Zeros(padding)) == Ok(v)
  {
    TritsOfValue(v as int);
    ValuePadded(TritsOf(v as int), padding);
  }

  /** As when the number is written over zeros. */
  lemma DecodePadded(v: i64, z: seq<Trit>, from: nat, n: nat)
    requires from + n <= |z| && (forall k :: 0 <= k < |z| ==> z[k] == 0) && |TritsOf(v as int)| <= n
    ensures Decoded(TritsOf(v as int) + z[from..from + n][|TritsOf(v as int)|..]) == Ok(v)
  {
    ZeroSuffix(z, from, n, |TritsOf(v as int)|);
    DecodeEncoded(v, n - |TritsOf(v as int)|);
  }

  lemma ZeroSuffix(z: seq<Trit>, from: nat, n: nat, k: nat)
    requires from + n <= |z| && k <= n && forall i :: 0 <= i < |z| ==> z[i] == 0
    ensures z[from..from + n][k..] == Zeros(n - k)
  {
    var s := z[from..from + n][k..];
    assert |s| == n - k && forall i :: 0 <= i < |s| ==> s[i] == z[from + k + i];
  }

  /** Decoding is exact on every string but those of one number; for that number it is wrong. */
  lemma DecodeExactIff(trits: seq<Trit>)
    requires trits != []
    ensures (Decoded(trits).Ok? ==> Decoded(trits).value as int == Value(trits)) <==> Value(trits) != I64_MIN - 1
  {
  }

  /** The number that is decoded wrongly is hit by a real string of 41 trits. */
  lemma DecodeWrongWitness() returns (trits: seq<Trit>)
    ensures |trits| == MAX_TRITS_IN_I64 && Value(trits) == I64_MIN - 1 && Decoded(trits) == Ok(I64_MAX as i64)
  {
    MaxValueForty(40);
    trits := BalancedTrits(I64_MIN - 1, MAX_TRITS_IN_I64);
    BalancedTritsValue(I64_MIN - 1, MAX_TRITS_IN_I64);
  }
}
