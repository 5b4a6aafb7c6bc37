/**
 The bit-sliced Curl of the proof-of-work search: 64 hashes at once, lane by lane in two words per
 state position, with swapped buffers and an in-place, truncated last round.

 The code applies only bitwise operators to its `u64` words, so a word is modelled by its 64 bits.
 */
module PearlDiver {

  import opened Ternary
  import opened Curl

  const NUM_ROUNDS := 81
  const LANES := 64
  const OUTER_INCR_START := 166
  const INNER_INCR_START := 193

  type Word = w: seq<bool> | |w| == LANES witness seq(LANES, _ => false)

  function And(a: Word, b: Word): (w: Word)
    ensures forall l :: 0 <= l < LANES ==> w[l] == (a[l] && b[l])
  {
    seq(LANES, (l: nat) requires l < LANES => a[l] && b[l])
  }

  function Or(a: Word, b: Word): (w: Word)
    ensures forall l :: 0 <= l < LANES ==> w[l] == (a[l] || b[l])
  {
    seq(LANES, (l: nat) requires l < LANES => a[l] || b[l])
  }

  function Xor(a: Word, b: Word): (w: Word)
    ensures forall l :: 0 <= l < LANES ==> w[l] == (a[l] != b[l])
  {
    seq(LANES, (l: nat) requires l < LANES => a[l] != b[l])
  }

  function Not(a: Word): (w: Word)
    ensures forall l :: 0 <= l < LANES ==> w[l] == !a[l]
  {
    seq(LANES, (l: nat) requires l < LANES => !a[l])
  }

  /** The word is not zero. */
  predicate NonZero(w: Word) {
    exists l :: 0 <= l < LANES && w[l]
  }

  // ----- Trit codes

  /** The trit coded by a high and a low bit; (0, 0) is no code. */
  function Decode(hi: bool, lo: bool): Trit {
    if hi && lo then 0 else if hi then 1 else if lo then -1 else 0
  }

  /** Every lane of a position holds a trit code. */
  predicate ValidCode(hi: Word, lo: Word) {
    forall l :: 0 <= l < LANES ==> hi[l] || lo[l]
  }

  ghost predicate ValidCodes(hi: seq<Word>, lo: seq<Word>) {
    |hi| == STATE_LEN && |lo| == STATE_LEN && forall j :: 0 <= j < STATE_LEN ==> ValidCode(hi[j], lo[j])
  }

  /** The Curl state that lane `l` carries. */
  ghost function LaneState(hi: seq<Word>, lo: seq<Word>, l: nat): (s: CurlState)
    requires |hi| == STATE_LEN && |lo| == STATE_LEN && l < LANES
    ensures forall j :: 0 <= j < STATE_LEN ==> s[j] == Decode(hi[j][l], lo[j][l])
  {
    seq(STATE_LEN, (j: nat) requires j < STATE_LEN => Decode(hi[j][l], lo[j][l]))
  }

  // ----- The substitution box on words

  /** The words of a position after a round, from the words at the two positions read. */
  function NextWords(hi1: Word, lo1: Word, hi2: Word, lo2: Word): (Word, Word) {
    var delta := And(Or(lo1, Not(hi2)), Xor(lo2, hi1));
    (Or(Xor(lo1, hi2), delta), Not(delta))
  }

  /** On trit codes the word formula is the substitution box in every lane, and yields codes again. */
  lemma WordSbox(hi1: Word, lo1: Word, hi2: Word, lo2: Word)
    requires ValidCode(hi1, lo1) && ValidCode(hi2, lo2)
    ensures var (hi, lo) := NextWords(hi1, lo1, hi2, lo2);
      && ValidCode(hi, lo)
      && forall l :: 0 <= l < LANES ==>
           Decode(hi[l], lo[l]) == Sbox(Decode(hi1[l], lo1[l]), Decode(hi2[l], lo2[l]))
  {
  }

  /** The words `hw`, `lw` are position `j` after a round of the state, in every lane. */
  ghost predicate IsRoundAt(hi: seq<Word>, lo: seq<Word>, hw: Word, lw: Word, j: nat)
    requires |hi| == STATE_LEN && |lo| == STATE_LEN && j < STATE_LEN
  {
    ValidCode(hw, lw) && forall l :: 0 <= l < LANES ==> Decode(hw[l], lw[l]) == RoundAt(LaneState(hi, lo, l), j)
  }

  lemma NextWordsAreRound(hi: seq<Word>, lo: seq<Word>, j: nat)
    requires ValidCodes(hi, lo) && j < STATE_LEN
    ensures var (hw, lw) := NextWords(hi[Index(j)], lo[Index(j)], hi[Index(j + 1)], lo[Index(j + 1)]);
      IsRoundAt(hi, lo, hw, lw, j)
  {
    WordSbox(hi[Index(j)], lo[Index(j)], hi[Index(j + 1)], lo[Index(j + 1)]);
  }

  /** Positions below `n` of the primed state are a round of the unprimed one. */
  ghost predicate IsRound(hi: seq<Word>, lo: seq<Word>, hi': seq<Word>, lo': seq<Word>, n: nat)
    requires |hi| == STATE_LEN && |lo| == STATE_LEN && |hi'| == STATE_LEN && |lo'| == STATE_LEN && n <= STATE_LEN
  {
    forall j :: 0 <= j < n ==> IsRoundAt(hi, lo, hi'[j], lo'[j], j)
  }

  lemma RoundInLane(hi: seq<Word>, lo: seq<Word>, hi': seq<Word>, lo': seq<Word>, l: nat)
    requires ValidCodes(hi, lo) && |hi'| == STATE_LEN && |lo'| == STATE_LEN && l < LANES
    requires IsRound(hi, lo, hi', lo', STATE_LEN)
    ensures LaneState(hi', lo', l) == Round(LaneState(hi, lo, l)) && ValidCodes(hi', lo')
  {
    forall j | 0 <= j < STATE_LEN
      ensures LaneState(hi', lo', l)[j] == Round(LaneState(hi, lo, l))[j] && ValidCode(hi'[j], lo'[j])
    {
      assert IsRoundAt(hi, lo, hi'[j], lo'[j], j);
    }
  }

  /** The two words per position, as the search threads share them by pointer. */
  class PowCurlState {
    const hi: array<Word>
    const lo: array<Word>

    ghost predicate Valid() {
      hi.Length == STATE_LEN && lo.Length == STATE_LEN && hi != lo
    }

    /** Every word of every position starts as `init`; with all bits set this is the zero state. */
    constructor (init: Word)
      ensures Valid() && fresh(hi) && fresh(lo)
      ensures forall j :: 0 <= j < STATE_LEN ==> hi[j] == init && lo[j] == init
    {
      hi := new Word[STATE_LEN](_ => init);
      lo := new Word[STATE_LEN](_ => init);
    }

    /** Adds one in every lane of a position; the carry says that some lane wrapped. */
    method BitAdd(index: nat) returns (withCarry: bool)
      requires Valid() && index < STATE_LEN && ValidCode(hi[index], lo[index])
      modifies hi, lo
      ensures hi[..] == old(hi[..])[index := hi[index]] && lo[..] == old(lo[..])[index := lo[index]]
      ensures ValidCode(hi[index], lo[index])
      ensures forall l :: 0 <= l < LANES ==>
        Decode(hi[index][l], lo[index][l]) == NextTrit(Decode(old(hi[index])[l], old(lo[index])[l]))
      ensures withCarry <==> exists l :: 0 <= l < LANES && Decode(old(hi[index])[l], old(lo[index])[l]) == 1
    {
      var h, o := hi[index], lo[index];
      hi[index] := o;
      lo[index] := Xor(h, o);
      withCarry := NonZero(And(h, Not(o)));
    }
  }

  /** One full round from one pair of buffers into the other. */
  method TransformRound(hpre: array<Word>, lpre: array<Word>, htmp: array<Word>, ltmp: array<Word>)
    requires hpre.Length == STATE_LEN && lpre.Length == STATE_LEN && htmp.Length == STATE_LEN && ltmp.Length == STATE_LEN
    requires ValidCodes(hpre[..], lpre[..])
    requires htmp != ltmp && hpre != htmp && hpre != ltmp && lpre != htmp && lpre != ltmp
    modifies htmp, ltmp
    ensures IsRound(hpre[..], lpre[..], htmp[..], ltmp[..], STATE_LEN)
  {
    for j := 0 to STATE_LEN
      invariant IsRound(hpre[..], lpre[..], htmp[..], ltmp[..], j)
    {
      var index1, index2 := Index(j), Index(j + 1);
      var (hi, lo) := NextWords(hpre[index1], lpre[index1], hpre[index2], lpre[index2]);
      NextWordsAreRound(hpre[..], lpre[..], j);
      ltmp[j] := lo;
      htmp[j] := hi;
    }
  }

  /** The last round, truncated to the hash and in place: a position is written only after every round
      position that reads it has been computed. */
  method TransformLastRound(hpre: array<Word>, lpre: array<Word>)
    requires hpre.Length == STATE_LEN && lpre.Length == STATE_LEN && hpre != lpre && ValidCodes(hpre[..], lpre[..])
    modifies hpre, lpre
    ensures IsRound(old(hpre[..]), old(lpre[..]), hpre[..], lpre[..], HASH_LEN)
    ensures hpre[HASH_LEN..] == old(hpre[HASH_LEN..]) && lpre[HASH_LEN..] == old(lpre[HASH_LEN..])
  {
    for j := 0 to HASH_LEN
      invariant IsRound(old(hpre[..]), old(lpre[..]), hpre[..], lpre[..], j)
      invariant forall k :: j <= k < STATE_LEN ==> hpre[k] == old(hpre[k]) && lpre[k] == old(lpre[k])
    {
      var index1, index2 := Index(j), Index(j + 1);
      var (hi, lo) := NextWords(hpre[index1], lpre[index1], hpre[index2], lpre[index2]);
      NextWordsAreRound(old(hpre[..]), old(lpre[..]), j);
      lpre[j] := lo;
      hpre[j] := hi;
    }
  }

  /** Every lane of the second state is `n` reference rounds away from that lane of the first. */
  ghost predicate LanesAfter(hi0: seq<Word>, lo0: seq<Word>, hi: seq<Word>, lo: seq<Word>, n: nat)
    requires |hi0| == STATE_LEN && |lo0| == STATE_LEN
  {
    && ValidCodes(hi, lo)
    && forall l :: 0 <= l < LANES ==> LaneState(hi, lo, l) == Rounds(LaneState(hi0, lo0, l), n)
  }

  lemma LanesAfterRound(hi0: seq<Word>, lo0: seq<Word>, hi: seq<Word>, lo: seq<Word>, hi': seq<Word>, lo': seq<Word>, n: nat)
    requires |hi0| == STATE_LEN && |lo0| == STATE_LEN && LanesAfter(hi0, lo0, hi, lo, n)
    requires |hi'| == STATE_LEN && |lo'| == STATE_LEN && IsRound(hi, lo, hi', lo', STATE_LEN)
    ensures LanesAfter(hi0, lo0, hi', lo', n + 1)
  {
    RoundInLane(hi, lo, hi', lo', 0);
    forall l | 0 <= l < LANES
      ensures LaneState(hi', lo', l) == Rounds(LaneState(hi0, lo0, l), n + 1)
    {
      RoundInLane(hi, lo, hi', lo', l);
    }
  }

  /** Positions of the hash hold 81 rounds of `s`, the others 80 rounds. */
  ghost predicate LaneTransformed(s: CurlState, r: CurlState) {
    && (forall j :: 0 <= j < HASH_LEN ==> r[j] == Rounds(s, NUM_ROUNDS)[j])
    && (forall j :: HASH_LEN <= j < STATE_LEN ==> r[j] == Rounds(s, NUM_ROUNDS - 1)[j])
  }

  ghost predicate Transformed(hi0: seq<Word>, lo0: seq<Word>, hi: seq<Word>, lo: seq<Word>)
    requires |hi0| == STATE_LEN && |lo0| == STATE_LEN
  {
    && ValidCodes(hi, lo)
    && forall l :: 0 <= l < LANES ==> LaneTransformed(LaneState(hi0, lo0, l), LaneState(hi, lo, l))
  }

  /** All 64 lanes at once compute the reference Curl. */
  method Transform(pre: PowCurlState, tmp: PowCurlState)
    requires pre.Valid() && tmp.Valid() && {pre.hi, pre.lo} !! {tmp.hi, tmp.lo}
    requires ValidCodes(pre.hi[..], pre.lo[..])
    modifies pre.hi, pre.lo, tmp.hi, tmp.lo
    ensures Transformed(old(pre.hi[..]), old(pre.lo[..]), pre.hi[..], pre.lo[..])
    ensures forall l, j :: 0 <= l < 64 && 0 <= j < 243 ==>
      Decode(pre.hi[j][l], pre.lo[j][l]) == Rounds(LaneState(old(pre.hi[..]), old(pre.lo[..]), l), 81)[j]
    ensures forall l, j :: 0 <= l < 64 && 243 <= j < 729 ==>
      Decode(pre.hi[j][l], pre.lo[j][l]) == Rounds(LaneState(old(pre.hi[..]), old(pre.lo[..]), l), 80)[j]
  {
    ghost var hi0, lo0 := pre.hi[..], pre.lo[..];
    assert LanesAfter(hi0, lo0, hi0, lo0, 0);
    var hpre, lpre := TransformFullRounds(pre, tmp, NUM_ROUNDS - 1);
    ghost var hi, lo := hpre[..], lpre[..];
    TransformLastRound(hpre, lpre);
    LastRoundInLanes(hi0, lo0, hi, lo, hpre[..], lpre[..]);
    forall l, j | 0 <= l < 64 && 0 <= j < 729
      ensures Decode(pre.hi[j][l], pre.lo[j][l]) == Rounds(LaneState(hi0, lo0, l), if j < 243 then 81 else 80)[j]
    {
      TransformedAt(hi0, lo0, pre.hi[..], pre.lo[..], l, j);
    }
  }

  lemma TransformedAt(hi0: seq<Word>, lo0: seq<Word>, hi: seq<Word>, lo: seq<Word>, l: nat, j: nat)
    requires |hi0| == STATE_LEN && |lo0| == STATE_LEN && Transformed(hi0, lo0, hi, lo) && l < 64 && j < 729
    ensures Decode(hi[j][l], lo[j][l]) == Rounds(LaneState(hi0, lo0, l), if j < 243 then 81 else 80)[j]
  {
    assert LaneTransformed(LaneState(hi0, lo0, l), LaneState(hi, lo, l));
    assert LaneState(hi, lo, l)[j] == Decode(hi[j][l], lo[j][l]);
  }

  /** The rounds that swap buffers. After an even number of them the current buffers are those of `pre`. */
  method TransformFullRounds(pre: PowCurlState, tmp: PowCurlState, n: nat) returns (hpre: array<Word>, lpre: array<Word>)
    requires pre.Valid() && tmp.Valid() && {pre.hi, pre.lo} !! {tmp.hi, tmp.lo}
    requires ValidCodes(pre.hi[..], pre.lo[..])
    modifies pre.hi, pre.lo, tmp.hi, tmp.lo
    ensures hpre == (if n % 2 == 0 then pre else tmp).hi && lpre == (if n % 2 == 0 then pre else tmp).lo
    ensures LanesAfter(old(pre.hi[..]), old(pre.lo[..]), hpre[..], lpre[..], n)
  {
    ghost var hi0, lo0 := pre.hi[..], pre.lo[..];
    var htmp, ltmp := tmp.hi, tmp.lo;
    hpre, lpre := pre.hi, pre.lo;
    for i := 0 to n
      invariant hpre == (if i % 2 == 0 then pre else tmp).hi && lpre == (if i % 2 == 0 then pre else tmp).lo
      invariant htmp == (if i % 2 == 0 then tmp else pre).hi && ltmp == (if i % 2 == 0 then tmp else pre).lo
      invariant LanesAfter(hi0, lo0, hpre[..], lpre[..], i)
    {
      FullRound(hpre, lpre, htmp, ltmp, hi0, lo0, i);
      hpre, lpre, htmp, ltmp := htmp, ltmp, hpre, lpre;
    }
  }

  /** One round into the other pair of buffers. */
  method FullRound(hpre: array<Word>, lpre: array<Word>, htmp: array<Word>, ltmp: array<Word>,
                   ghost hi0: seq<Word>, ghost lo0: seq<Word>, ghost n: nat)
    requires hpre.Length == lpre.Length == htmp.Length == ltmp.Length == STATE_LEN
    requires htmp != ltmp && {hpre, lpre} !! {htmp, ltmp}
    requires |hi0| == STATE_LEN && |lo0| == STATE_LEN && LanesAfter(hi0, lo0, hpre[..], lpre[..], n)
    modifies htmp, ltmp
    ensures LanesAfter(hi0, lo0, htmp[..], ltmp[..], n + 1)
  {
    TransformRound(hpre, lpre, htmp, ltmp);
    LanesAfterRound(hi0, lo0, hpre[..], lpre[..], htmp[..], ltmp[..], n);
  }

  lemma LastRoundInLanes(hi0: seq<Word>, lo0: seq<Word>, hi: seq<Word>, lo: seq<Word>, hi': seq<Word>, lo': seq<Word>)
    requires |hi0| == STATE_LEN && |lo0| == STATE_LEN && LanesAfter(hi0, lo0, hi, lo, NUM_ROUNDS - 1)
    requires |hi'| == STATE_LEN && |lo'| == STATE_LEN && IsRound(hi, lo, hi', lo', HASH_LEN)
    requires hi'[HASH_LEN..] == hi[HASH_LEN..] && lo'[HASH_LEN..] == lo[HASH_LEN..]
    ensures Transformed(hi0, lo0, hi', lo')
  {
    forall j | 0 <= j < STATE_LEN
      ensures ValidCode(hi'[j], lo'[j])
      ensures j >= HASH_LEN ==> hi'[j] == hi[j] && lo'[j] == lo[j]
    {
      if j < HASH_LEN {
        assert IsRoundAt(hi, lo, hi'[j], lo'[j], j);
      } else {
        assert hi'[j] == hi'[HASH_LEN..][j - HASH_LEN] && lo'[j] == lo'[HASH_LEN..][j - HASH_LEN];
      }
    }
    forall l | 0 <= l < LANES
      ensures LaneTransformed(LaneState(hi0, lo0, l), LaneState(hi', lo', l))
    {
      forall j | 0 <= j < HASH_LEN
        ensures LaneState(hi', lo', l)[j] == RoundAt(LaneState(hi, lo, l), j)
      {
        assert IsRoundAt(hi, lo, hi'[j], lo'[j], j);
      }
    }
  }

  // ----- Counters

  /** The trits lane `l` holds at positions `from..to`. */
  ghost function Counter(hi: seq<Word>, lo: seq<Word>, from: nat, to: nat, l: nat): (c: seq<Trit>)
    requires |hi| == STATE_LEN && |lo| == STATE_LEN && from <= to <= STATE_LEN && l < LANES
    ensures |c| == to - from && forall i :: 0 <= i < to - from ==> c[i] == Decode(hi[from + i][l], lo[from + i][l])
  {
    LaneState(hi, lo, l)[from..to]
  }

  /** Some lane of the position holds 1, so that adding one there carries. */
  predicate Carries(hi: Word, lo: Word) {
    exists l :: 0 <= l < LANES && Decode(hi[l], lo[l]) == 1
  }

  /** All lanes hold the same trit at each of the positions. */
  predicate Uniform(hi: seq<Word>, lo: seq<Word>, from: nat, to: nat)
    requires |hi| == STATE_LEN && |lo| == STATE_LEN && from <= to <= STATE_LEN
  {
    forall j, l :: from <= j < to && 0 <= l < LANES ==> Decode(hi[j][l], lo[j][l]) == Decode(hi[j][0], lo[j][0])
  }

  /** In every lane the positions `from..end` went one trit up, and no other position changed. */
  ghost predicate SteppedUp(hi: seq<Word>, lo: seq<Word>, hi': seq<Word>, lo': seq<Word>, from: nat, end: nat) {
    && ValidCodes(hi, lo) && ValidCodes(hi', lo') && from <= end <= STATE_LEN
    && (forall j :: (0 <= j < from || end <= j < STATE_LEN) ==> hi'[j] == hi[j] && lo'[j] == lo[j])
    && (forall j, l :: from <= j < end && 0 <= l < LANES ==>
          Decode(hi'[j][l], lo'[j][l]) == NextTrit(Decode(hi[j][l], lo[j][l])))
  }

  ghost predicate SteppedWithin(hi: seq<Word>, lo: seq<Word>, hi': seq<Word>, lo': seq<Word>, from: nat, to: nat) {
    exists end: nat | end <= to :: SteppedUp(hi, lo, hi', lo', from, end)
  }

  /** The carry loop: steps up position after position until one steps up without a carry in any lane.
      Where all lanes agree this adds one to the counter of every lane. */
  method IncrementPositions(state: PowCurlState, from: nat, to: nat) returns (exhausted: bool, ghost end: nat)
    requires state.Valid() && from <= to <= STATE_LEN && ValidCodes(state.hi[..], state.lo[..])
    modifies state.hi, state.lo
    ensures from <= end <= to && SteppedUp(old(state.hi[..]), old(state.lo[..]), state.hi[..], state.lo[..], from, end)
    ensures forall j :: from <= j < end - 1 ==> Carries(old(state.hi[j]), old(state.lo[j]))
    ensures exhausted ==> end == to && (from < to ==> Carries(old(state.hi[to - 1]), old(state.lo[to - 1])))
    ensures !exhausted ==> from < end && !Carries(old(state.hi[end - 1]), old(state.lo[end - 1]))
    ensures old(Uniform(state.hi[..], state.lo[..], from, to)) ==> forall l :: 0 <= l < LANES ==>
      && Counter(state.hi[..], state.lo[..], from, to, l) == Increment(old(Counter(state.hi[..], state.lo[..], from, to, l)))
      && (exhausted <==> AllOnes(old(Counter(state.hi[..], state.lo[..], from, to, l))))
  {
    exhausted, end := true, from;
    for i := from to to
      invariant end == i
      invariant SteppedUp(old(state.hi[..]), old(state.lo[..]), state.hi[..], state.lo[..], from, i)
      invariant forall j :: from <= j < i ==> Carries(old(state.hi[j]), old(state.lo[j]))
    {
      ghost var hi, lo := state.hi[..], state.lo[..];
      assert ValidCode(hi[i], lo[i]) && hi[i] == old(state.hi[..])[i] && lo[i] == old(state.lo[..])[i];
      var withCarry := state.BitAdd(i);
      SteppedOneMore(old(state.hi[..]), old(state.lo[..]), hi, lo, state.hi[..], state.lo[..], from, i);
      end := i + 1;
      if !withCarry {
        exhausted := false;
        break;
      }
    }
    SteppedUpUniform(old(state.hi[..]), old(state.lo[..]), state.hi[..], state.lo[..], from, to, end, exhausted);
  }

  lemma SteppedOneMore(hi0: seq<Word>, lo0: seq<Word>, hi: seq<Word>, lo: seq<Word>, hi': seq<Word>, lo': seq<Word>, from: nat, i: nat)
    requires SteppedUp(hi0, lo0, hi, lo, from, i) && i < STATE_LEN && |hi'| == STATE_LEN && |lo'| == STATE_LEN
    requires hi' == hi[i := hi'[i]] && lo' == lo[i := lo'[i]] && ValidCode(hi'[i], lo'[i])
    requires forall l :: 0 <= l < LANES ==> Decode(hi'[i][l], lo'[i][l]) == NextTrit(Decode(hi0[i][l], lo0[i][l]))
    ensures SteppedUp(hi0, lo0, hi', lo', from, i + 1)
  {
  }

  lemma SteppedUpUniform(hi: seq<Word>, lo: seq<Word>, hi': seq<Word>, lo': seq<Word>, from: nat, to: nat, end: nat,
                         exhausted: bool)
    requires from <= end <= to <= STATE_LEN && SteppedUp(hi, lo, hi', lo', from, end)
    requires forall j :: from <= j < end - 1 ==> Carries(hi[j], lo[j])
    requires exhausted ==> end == to && (from < to ==> Carries(hi[to - 1], lo[to - 1]))
    requires !exhausted ==> from < end && !Carries(hi[end - 1], lo[end - 1])
    ensures Uniform(hi, lo, from, to) ==> forall l :: 0 <= l < LANES ==>
      && Counter(hi', lo', from, to, l) == Increment(Counter(hi, lo, from, to, l))
      && (exhausted <==> AllOnes(Counter(hi, lo, from, to, l)))
  {
    if Uniform(hi, lo, from, to) {
      forall l | 0 <= l < LANES
        ensures Counter(hi', lo', from, to, l) == Increment(Counter(hi, lo, from, to, l))
        ensures exhausted <==> AllOnes(Counter(hi, lo, from, to, l))
      {
        var ts := Counter(hi, lo, from, to, l);
        forall i | 0 <= i < to - from
          ensures Carries(hi[from + i], lo[from + i]) <==> ts[i] == 1
        {
          assert ts[i] == Decode(hi[from + i][l], lo[from + i][l]);
        }
        RippleIsIncrement(ts, Counter(hi', lo', from, to, l), end - from, exhausted);
      }
    }
  }

  /** The counter that tells the search threads apart. */
  method OuterIncrement(prestate: PowCurlState)
    requires prestate.Valid() && ValidCodes(prestate.hi[..], prestate.lo[..])
    modifies prestate.hi, prestate.lo
    ensures SteppedWithin(old(prestate.hi[..]), old(prestate.lo[..]), prestate.hi[..], prestate.lo[..], OUTER_INCR_START, INNER_INCR_START)
    ensures forall j :: (0 <= j < 166 || 193 <= j < 729) ==>
      prestate.hi[j] == old(prestate.hi[j]) && prestate.lo[j] == old(prestate.lo[j])
    ensures (forall j, l :: OUTER_INCR_START <= j < INNER_INCR_START && 0 <= l < 64 ==>
        Decode(old(prestate.hi[j])[l], old(prestate.lo[j])[l]) == Decode(old(prestate.hi[j])[0], old(prestate.lo[j])[0])) ==>
      forall l :: 0 <= l < LANES ==>
        Counter(prestate.hi[..], prestate.lo[..], OUTER_INCR_START, INNER_INCR_START, l) ==
        Increment(old(Counter(prestate.hi[..], prestate.lo[..], OUTER_INCR_START, INNER_INCR_START, l)))
  {
    ghost var end;
    var exhausted;
    exhausted, end := IncrementPositions(prestate, OUTER_INCR_START, INNER_INCR_START);
  }

  /** The counter of one thread; true when it wrapped around. */
  method InnerIncrement(prestate: PowCurlState) returns (exhausted: bool)
    requires prestate.Valid() && ValidCodes(prestate.hi[..], prestate.lo[..])
    modifies prestate.hi, prestate.lo
    ensures SteppedWithin(old(prestate.hi[..]), old(prestate.lo[..]), prestate.hi[..], prestate.lo[..], INNER_INCR_START, HASH_LEN)
    ensures forall j :: (0 <= j < 193 || 243 <= j < 729) ==>
      prestate.hi[j] == old(prestate.hi[j]) && prestate.lo[j] == old(prestate.lo[j])
    ensures (forall j, l :: INNER_INCR_START <= j < HASH_LEN && 0 <= l < 64 ==>
        Decode(old(prestate.hi[j])[l], old(prestate.lo[j])[l]) == Decode(old(prestate.hi[j])[0], old(prestate.lo[j])[0])) ==>
      forall l :: 0 <= l < LANES ==>
        && Counter(prestate.hi[..], prestate.lo[..], INNER_INCR_START, HASH_LEN, l) ==
           Increment(old(Counter(prestate.hi[..], prestate.lo[..], INNER_INCR_START, HASH_LEN, l)))
        && (exhausted <==> AllOnes(old(Counter(prestate.hi[..], prestate.lo[..], INNER_INCR_START, HASH_LEN, l))))
  {
    ghost var end;
    exhausted, end := IncrementPositions(prestate, INNER_INCR_START, HASH_LEN);
  }
}
