/**
 The reference Curl-P sponge: a 729-trit state, a substitution box applied in rounds, and the
 absorb / squeeze / reset interface.
 */
module Curl {

  import opened Ternary

  const STATE_LEN := 729
  const HALF_STATE_LEN := 364

  const TRUTH_TABLE: seq<int> := [1, 0, -1, 2, 1, -1, 0, 2, -1, 1, 0]

  type CurlState = s: seq<Trit> | |s| == STATE_LEN witness Zeros(STATE_LEN)

  /** The substitution box on two trits. */
  function Sbox(p: Trit, q: Trit): Trit {
    if q == -1 then -p
    else if q == 0 then (if p == -1 then 1 else if p == 0 then -1 else 0)
    else (if p == -1 then -1 else if p == 0 then 1 else 0)
  }

  /** The substitution box is the lookup `p + (q << 2) + 5` in the truth table; the two entries 2 of
      the table, which are no trits, are never hit. */
  lemma SboxIsTruthTable(p: Trit, q: Trit)
    ensures 0 <= p as int + 4 * q as int + 5 < |TRUTH_TABLE| && Sbox(p, q) == TRUTH_TABLE[p as int + 4 * q as int + 5]
  {
  }

  /** The position a round reads first for position `j` of its result (it reads `Index(j + 1)` second):
      the positions run backwards through the two halves of the state in turn. */
  function Index(j: nat): (i: nat)
    requires j <= STATE_LEN
    ensures i < STATE_LEN
  {
    if j == 0 then 0 else if j % 2 == 0 then STATE_LEN - j / 2 else HALF_STATE_LEN - j / 2
  }

  /** The positions are the multiples of 364 modulo 729: the contents of the table `INDICES`. */
  lemma IndexIsMultipleOf364(j: nat)
    requires j <= STATE_LEN
    ensures Index(j) == 364 * j % STATE_LEN
  {
    var k := j / 2;
    if j > 0 && j % 2 == 0 {
      RemainderUnique(364 * j, STATE_LEN, k - 1, STATE_LEN - k);
    } else if j % 2 == 1 {
      RemainderUnique(364 * j, STATE_LEN, k, HALF_STATE_LEN - k);
    }
  }

  /** Position `j` of the state after a round. */
  function RoundAt(s: CurlState, j: nat): Trit
    requires j < STATE_LEN
  {
    Sbox(s[Index(j)], s[Index(j + 1)])
  }

  /** One round. */
  function Round(s: CurlState): (r: CurlState)
  {
    seq(STATE_LEN, (j: nat) requires j < STATE_LEN => RoundAt(s, j))
  }

  function Rounds(s: CurlState, n: nat): CurlState {
    if n == 0 then s else Round(Rounds(s, n - 1))
  }

  /** Absorbing: the input is copied over the front of the state, 243 trits at a time. */
  function Absorbed(s: CurlState, input: seq<Trit>, rounds: nat): CurlState
    decreases |input|
  {
    if input == [] then s
    else
      var n := PieceLen(|input|);
      Absorbed(Rounds(input[..n] + s[n..], rounds), input[n..], rounds)
  }

  /** Squeezing `n` trits, 243 at a time, with a transformation after each piece. */
  function Squeezed(s: CurlState, n: nat, rounds: nat): (out: seq<Trit>)
    ensures |out| == n
    decreases n
  {
    if n == 0 then [] else s[..PieceLen(n)] + Squeezed(Rounds(s, rounds), n - PieceLen(n), rounds)
  }

  /** The hash of `input`, `n` trits long. */
  function Digest(input: seq<Trit>, n: nat, rounds: nat): (out: seq<Trit>)
    ensures |out| == n
  {
    Squeezed(Absorbed(Zeros(STATE_LEN), input, rounds), n, rounds)
  }

  /** Absorbing whole 243-trit pieces one call at a time is the same as absorbing them at once. */
  lemma {:induction false} AbsorbedConcat(s: CurlState, a: seq<Trit>, b: seq<Trit>, rounds: nat)
    requires |a| % HASH_LEN == 0
    ensures Absorbed(Absorbed(s, a, rounds), b, rounds) == Absorbed(s, a + b, rounds)
    decreases |a|
  {
    if a == [] {
      assert a + b == b;
    } else {
      assert (a + b)[..HASH_LEN] == a[..HASH_LEN] && (a + b)[HASH_LEN..] == a[HASH_LEN..] + b;
      AbsorbedConcat(Rounds(a[..HASH_LEN] + s[HASH_LEN..], rounds), a[HASH_LEN..], b, rounds);
    }
  }

  // ----- The two buffers

  /** The state and the scratch buffer it is swapped with. */
  datatype Buffers = Buffers(state: CurlState, work: CurlState)

  /** The buffers after `n` turns of the loop: a round into the scratch buffer, then a swap. */
  function Swapped(b: Buffers, n: nat): Buffers {
    if n == 0 then b else var p := Swapped(b, n - 1).state; Buffers(Round(p), p)
  }

  /** The transformation, with the closing swap for even counts. */
  function Transformed(b: Buffers, rounds: nat): Buffers {
    var t := Swapped(b, rounds);
    if rounds % 2 == 0 then Buffers(t.work, t.state) else t
  }

  /** The number of rounds that end up in the state. */
  function EffectiveRounds(rounds: nat): nat
    requires rounds > 0
  {
    if rounds % 2 == 1 then rounds else rounds - 1
  }

  lemma {:induction false} SwappedIsRounds(b: Buffers, n: nat)
    ensures Swapped(b, n).state == Rounds(b.state, n)
  {
    if n > 0 {
      SwappedIsRounds(b, n - 1);
      var p := Swapped(b, n - 1).state;
      assert Swapped(b, n).state == Round(p) && Rounds(b.state, n) == Round(p);
    }
  }

  /** The transformed state does not depend on the scratch buffer, unless there is no round at all. */
  lemma TransformedState(b: Buffers, rounds: nat)
    ensures rounds > 0 ==> Transformed(b, rounds).state == Rounds(b.state, EffectiveRounds(rounds))
    ensures rounds == 0 ==> Transformed(b, rounds) == Buffers(b.work, b.state)
  {
    SwappedIsRounds(b, rounds);
    if rounds > 0 {
      SwappedIsRounds(b, rounds - 1);
    }
  }

  function Constant(t: Trit): CurlState {
    seq(STATE_LEN, _ => t)
  }

  /** A round takes a constant state to a constant state, and always to a different one. */
  lemma RoundOfConstant(t: Trit)
    ensures Round(Constant(t)) == Constant(Sbox(t, t)) && Sbox(t, t) != t
  {
    var r := Round(Constant(t));
    assert forall j :: 0 <= j < STATE_LEN ==> r[j] == RoundAt(Constant(t), j) == Sbox(t, t);
  }

  lemma {:induction false} RoundsOfZeros(n: nat) returns (t: Trit)
    ensures Rounds(Zeros(STATE_LEN), n) == Constant(t)
  {
    if n == 0 {
      t := 0;
      assert Zeros(STATE_LEN) == Constant(0);
    } else {
      var p := RoundsOfZeros(n - 1);
      RoundOfConstant(p);
      t := Sbox(p, p);
    }
  }

  /** One round more or less always shows, on the zero state that every sponge starts from. */
  lemma LastRoundShows(n: nat)
    requires n > 0
    ensures Rounds(Zeros(STATE_LEN), n) != Rounds(Zeros(STATE_LEN), n - 1)
  {
    var t := RoundsOfZeros(n - 1);
    RoundOfConstant(t);
    assert Constant(t)[0] == t && Constant(Sbox(t, t))[0] == Sbox(t, t);
  }

  /** Exactly for odd counts the transformation performs all its rounds, whatever the buffers hold. */
  lemma AllRoundsIffOdd(rounds: nat)
    ensures (forall b: Buffers :: Transformed(b, rounds).state == Rounds(b.state, rounds)) <==> rounds % 2 == 1
  {
    if rounds % 2 == 1 {
      forall b: Buffers ensures Transformed(b, rounds).state == Rounds(b.state, rounds) {
        TransformedState(b, rounds);
      }
    } else {
      EvenRoundsFall(rounds);
    }
  }

  /** Absorbing, for every number of rounds. */
  function AbsorbedBuffers(b: Buffers, input: seq<Trit>, rounds: nat): Buffers
    decreases |input|
  {
    if input == [] then b
    else
      var n := PieceLen(|input|);
      AbsorbedBuffers(Transformed(Buffers(input[..n] + b.state[n..], b.work), rounds), input[n..], rounds)
  }

  /** A fresh sponge. */
  const FRESH := Buffers(Zeros(STATE_LEN), Zeros(STATE_LEN))

  /** For every even count the transformation of a fresh sponge ends in a wrong state; without any round,
      that of one that has absorbed a trit. */
  lemma EvenRoundsFall(rounds: nat)
    requires rounds % 2 == 0
    ensures var b := if rounds > 0 then FRESH else AbsorbedBuffers(FRESH, [1], rounds);
      Transformed(b, rounds).state != Rounds(b.state, rounds)
  {
    if rounds > 0 {
      TransformedState(FRESH, rounds);
      LastRoundShows(rounds);
    } else {
      var over := Buffers([1] + Zeros(STATE_LEN)[1..], Zeros(STATE_LEN));
      TransformedState(over, rounds);
      assert AbsorbedBuffers(FRESH, [1], rounds) == Transformed(over, rounds);
      TransformedState(Transformed(over, rounds), rounds);
      assert over.state[0] != over.work[0];
    }
  }

  datatype Squeeze = Squeeze(out: seq<Trit>, buffers: Buffers)

  /** Squeezing after `out`: the trits handed out, and the buffers, transformed once for every piece. */
  function SqueezedBuffers(out: seq<Trit>, b: Buffers, n: nat, rounds: nat): Squeeze
    decreases n
  {
    if n == 0 then Squeeze(out, b)
    else SqueezedBuffers(out + b.state[..PieceLen(n)], Transformed(b, rounds), n - PieceLen(n), rounds)
  }

  /** With an even number of rounds the sponge is the one with a round less. */
  lemma {:induction false} AbsorbedState(b: Buffers, input: seq<Trit>, rounds: nat)
    requires rounds > 0
    ensures AbsorbedBuffers(b, input, rounds).state == Absorbed(b.state, input, EffectiveRounds(rounds))
    decreases |input|
  {
    if input != [] {
      var n := PieceLen(|input|);
      var over := Buffers(input[..n] + b.state[n..], b.work);
      TransformedState(over, rounds);
      AbsorbedState(Transformed(over, rounds), input[n..], rounds);
    }
  }

  lemma {:induction false} SqueezedOut(out: seq<Trit>, b: Buffers, n: nat, rounds: nat)
    requires rounds > 0
    ensures SqueezedBuffers(out, b, n, rounds).out == out + Squeezed(b.state, n, EffectiveRounds(rounds))
    decreases n
  {
    var e := EffectiveRounds(rounds);
    if n == 0 {
      assert out + [] == out;
    } else {
      var piece, next, left := b.state[..PieceLen(n)], Transformed(b, rounds), n - PieceLen(n);
      TransformedState(b, rounds);
      SqueezedOut(out + piece, next, left, rounds);
      Regroup(out, piece, Squeezed(next.state, left, e));
    }
  }

  lemma Regroup(a: seq<Trit>, b: seq<Trit>, c: seq<Trit>)
    ensures a + (b + c) == a + b + c
  {
  }

  function DigestBuffers(b: Buffers, input: seq<Trit>, len: nat, rounds: nat): Squeeze {
    SqueezedBuffers([], AbsorbedBuffers(b, input, rounds), len, rounds)
  }

  /** The digest of a sponge whose state is zeros depends on the input only: nothing of one message, in
      the state or in the scratch buffer, reaches the next digest. */
  lemma DigestOfReset(b: Buffers, input: seq<Trit>, len: nat, rounds: nat)
    requires rounds > 0 && b.state == Zeros(STATE_LEN)
    ensures DigestBuffers(b, input, len, rounds).out == Digest(input, len, EffectiveRounds(rounds))
  {
    AbsorbedState(b, input, rounds);
    SqueezedOut([], AbsorbedBuffers(b, input, rounds), len, rounds);
  }

  // ----- The sponge

  /** The sponge object. Its two trit buffers are growable lists in the code, hence sequences here. */
  class CurlP {
    const rounds: nat
    var state: CurlState
    var workState: CurlState

    ghost function Contents(): Buffers
      reads this
    {
      Buffers(state, workState)
    }

    constructor (rounds: nat)
      ensures this.rounds == rounds && Contents() == Buffers(Zeros(STATE_LEN), Zeros(STATE_LEN))
    {
      this.rounds := rounds;
      state := Zeros(STATE_LEN);
      workState := Zeros(STATE_LEN);
    }

    /** One round: overwrites `output`, in the order the code fills it, with the round of `input`. */
    static method ApplySubstitutionBox(input: CurlState, output: CurlState) returns (filled: CurlState)
      ensures filled == Round(input)
    {
      filled := output[0 := Sbox(input[0], input[HALF_STATE_LEN])];
      for stateIndex := 0 to HALF_STATE_LEN
        invariant forall j :: 0 <= j <= 2 * stateIndex ==> filled[j] == RoundAt(input, j)
      {
        var left := HALF_STATE_LEN - stateIndex;
        var right := STATE_LEN - stateIndex - 1;
        filled := filled[2 * stateIndex + 1 := Sbox(input[left], input[right])];
        left := left - 1;
        filled := filled[2 * stateIndex + 2 := Sbox(input[right], input[left])];
      }
    }

    /** Runs the rounds, swapping the two buffers after each, with a closing swap for even counts. */
    method Transform()
      modifies this
      ensures Contents() == Transformed(old(Contents()), rounds)
    {
      for i := 0 to rounds
        invariant Contents() == Swapped(old(Contents()), i)
      {
        var filled := ApplySubstitutionBox(state, workState);
        state, workState := filled, state;
      }
      if rounds % 2 == 0 {
        state, workState := workState, state;
      }
    }

    method Absorb(input: seq<Trit>)
      modifies this
      ensures Contents() == AbsorbedBuffers(old(Contents()), input, rounds)
    {
      var left := input;
      while left != []
        invariant AbsorbedBuffers(Contents(), left, rounds) == AbsorbedBuffers(old(Contents()), input, rounds)
        decreases |left|
      {
        var n := PieceLen(|left|);
        state := left[..n] + state[n..];
        Transform();
        left := left[n..];
      }
    }

    method SqueezeInto(len: nat) returns (out: seq<Trit>)
      modifies this
      ensures Squeeze(out, Contents()) == SqueezedBuffers([], old(Contents()), len, rounds)
    {
      out := [];
      var left := len;
      while left > 0
        invariant SqueezedBuffers(out, Contents(), left, rounds) == SqueezedBuffers([], old(Contents()), len, rounds)
      {
        var n := PieceLen(left);
        out := out + state[..n];
        Transform();
        left := left - n;
      }
    }

    method Reset()
      modifies this`state
      ensures state == Zeros(STATE_LEN)
    {
      for i := 0 to STATE_LEN
        invariant forall k :: 0 <= k < i ==> state[k] == 0
      {
        state := state[i := 0];
      }
    }

    method DigestInto(input: seq<Trit>, len: nat) returns (out: seq<Trit>)
      modifies this
      ensures out == DigestBuffers(old(Contents()), input, len, rounds).out && state == Zeros(STATE_LEN)
      ensures workState == DigestBuffers(old(Contents()), input, len, rounds).buffers.work
    {
      Absorb(input);
      out := SqueezeInto(len);
      Reset();
    }
  }
}
