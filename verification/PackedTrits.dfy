/**
 Trit buffers that pack two to five balanced trits into a signed byte. The four encodings share one
 body; `tpb` is the number of trits per byte, and `MaxValue(tpb)` is the balance constant 4, 13, 40 or
 121 that makes a byte non-negative.
 */
module PackedTrits {

  import opened Common
  import opened Ternary

  predicate TritsPerByte(tpb: nat) {
    2 <= tpb <= 5
  }

  /** The byte is within the balance bound. */
  predicate IsValidByte(tpb: nat, b: int) {
    -(MaxValue(tpb) as int) <= b <= MaxValue(tpb)
  }

  // ----- Base-three digits of a non-negative number

  function Digit(u: nat, e: nat): (d: nat)
    ensures d <= 2
  {
    if e == 0 then u % 3 else Digit(u / 3, e - 1)
  }

  /** Replaces digit `e` by `d`. */
  function WithDigit(u: nat, e: nat, d: nat): nat
    requires d <= 2
  {
    if e == 0 then u / 3 * 3 + d else 3 * WithDigit(u / 3, e - 1, d) + u % 3
  }

  /** Replacing a digit stays within the digits available. */
  lemma {:induction false} WithDigitBound(u: nat, e: nat, d: nat, n: nat)
    requires e < n && u < Pow3(n) && d <= 2
    ensures WithDigit(u, e, d) < Pow3(n)
    decreases e
  {
    if e > 0 {
      WithDigitBound(u / 3, e - 1, d, n - 1);
    }
  }

  /** Replacing a digit changes that digit and no other. */
  lemma {:induction false} WithDigitDigits(u: nat, e: nat, d: nat, f: nat)
    requires d <= 2
    ensures Digit(WithDigit(u, e, d), f) == if f == e then d else Digit(u, f)
    decreases e
  {
    if e > 0 && f > 0 {
      WithDigitDigits(u / 3, e - 1, d, f - 1);
    }
  }

  /** The closed forms the code uses, with powers of three. */
  lemma {:induction false} DigitClosedForm(u: nat, e: nat)
    ensures Digit(u, e) == u / Pow3(e) % 3
    decreases e
  {
    if e > 0 {
      DigitClosedForm(u / 3, e - 1);
      DivideTwice(u, Pow3(e - 1));
    }
  }

  /** Dividing by three and then by `p` is dividing by `3 * p`. */
  lemma DivideTwice(u: nat, p: nat)
    requires p > 0
    ensures u / 3 / p == u / (3 * p)
  {
    var q, r := u / 3 / p, u / 3 % p;
    assert u / 3 == q * p + r;
    QuotientUnique(u, 3 * p, q, 3 * r + u % 3) by {
      Triple(q, p);
    }
  }

  lemma {:induction false} WithDigitClosedForm(u: nat, e: nat, d: nat)
    requires d <= 2
    ensures WithDigit(u, e, d) == u + (d - Digit(u, e)) * Pow3(e)
    decreases e
  {
    if e > 0 {
      WithDigitClosedForm(u / 3, e - 1, d);
      Triple(d - Digit(u, e), Pow3(e - 1));
    }
  }

  // ----- One byte

  /** The trit at element `e` of a byte. */
  function Extract(tpb: nat, b: int, e: nat): Trit
    requires IsValidByte(tpb, b)
  {
    Digit(b + MaxValue(tpb), e) - 1
  }

  /** The byte with element `e` replaced. */
  function Insert(tpb: nat, b: int, e: nat, t: Trit): int
    requires IsValidByte(tpb, b)
  {
    WithDigit(b + MaxValue(tpb), e, t + 1) - MaxValue(tpb)
  }

  /** Inserting into a byte keeps it within its bound and touches no neighbouring trit. */
  lemma InsertExact(tpb: nat, b: int, e: nat, t: Trit)
    requires IsValidByte(tpb, b) && e < tpb
    ensures IsValidByte(tpb, Insert(tpb, b, e, t))
    ensures forall f :: 0 <= f < tpb ==>
      Extract(tpb, Insert(tpb, b, e, t), f) == if f == e then t else Extract(tpb, b, f)
  {
    MaxValueIsHalfPow3(tpb);
    WithDigitBound(b + MaxValue(tpb), e, t + 1, tpb);
    forall f | 0 <= f < tpb
      ensures Extract(tpb, Insert(tpb, b, e, t), f) == if f == e then t else Extract(tpb, b, f)
    {
      WithDigitDigits(b + MaxValue(tpb), e, t + 1, f);
    }
  }

  /** The lowest `n` elements of a byte, as trits. */
  function Elements(tpb: nat, b: int, n: nat): (ts: seq<Trit>)
    requires IsValidByte(tpb, b)
    ensures |ts| == n && forall e :: 0 <= e < n ==> ts[e] == Extract(tpb, b, e)
  {
    seq(n, (e: nat) requires e < n => Extract(tpb, b, e))
  }

  /** A byte is the number that its trits stand for, least significant first. */
  lemma ByteIsValue(tpb: nat, b: int)
    requires IsValidByte(tpb, b)
    ensures Value(Elements(tpb, b, tpb)) == b
  {
    MaxValueIsHalfPow3(tpb);
    DigitsValue(b + MaxValue(tpb), tpb, Elements(tpb, b, tpb));
  }

  lemma {:induction false} DigitsValue(u: nat, n: nat, ts: seq<Trit>)
    requires u < Pow3(n) && |ts| == n && forall e :: 0 <= e < n ==> ts[e] == Digit(u, e) - 1
    ensures Value(ts) == u - MaxValue(n)
    decreases n
  {
    if n > 0 {
      DigitsValue(u / 3, n - 1, ts[1..]);
    }
  }

  /** The largest number of the type the arithmetic is done in: `i16` for five trits, `i8` below. */
  function TypeMax(tpb: nat): int {
    if tpb == 5 then 0x7FFF else 0x7F
  }

  /** Extraction and insertion as the code computes them, every intermediate within its type. */
  lemma CodeFormulas(tpb: nat, b: int, e: nat, t: Trit, ux: nat, p: nat, d: nat, change: int)
    requires TritsPerByte(tpb) && IsValidByte(tpb, b) && e < tpb
    requires ux == b + MaxValue(tpb) && p == Pow3(e) && d == ux / p % 3 && change == (t + 1 - d) * p
    ensures Extract(tpb, b, e) == d - 1 && Insert(tpb, b, e, t) == ux + change - MaxValue(tpb)
    ensures 0 <= ux <= TypeMax(tpb) && p <= TypeMax(tpb)
    ensures -TypeMax(tpb) <= change <= TypeMax(tpb) && 0 <= ux + change <= TypeMax(tpb)
  {
    DigitClosedForm(ux, e);
    WithDigitClosedForm(ux, e, t + 1);
    NoOverflow(tpb, b, e, t, change);
  }

  lemma NoOverflow(tpb: nat, b: int, e: nat, t: Trit, change: int)
    requires TritsPerByte(tpb) && IsValidByte(tpb, b) && e < tpb
    requires Insert(tpb, b, e, t) == b + change && change == (t + 1 - Digit(b + MaxValue(tpb), e)) * Pow3(e)
    ensures b + MaxValue(tpb) <= TypeMax(tpb) && Pow3(e) <= TypeMax(tpb)
    ensures -TypeMax(tpb) <= change <= TypeMax(tpb) && 0 <= b + MaxValue(tpb) + change <= TypeMax(tpb)
  {
    InsertExact(tpb, b, e, t);
    PowersOfThree(tpb, e);
    ChangeBound(t + 1 - Digit(b + MaxValue(tpb), e), Pow3(e));
  }

  lemma PowersOfThree(tpb: nat, e: nat)
    requires TritsPerByte(tpb) && e < tpb
    ensures 2 * MaxValue(tpb) <= TypeMax(tpb) && 2 * Pow3(e) <= TypeMax(tpb)
  {
    assert Pow3(1) == 3 && Pow3(2) == 9 && Pow3(3) == 27 && Pow3(4) == 81;
    assert MaxValue(2) == 4 && MaxValue(3) == 13 && MaxValue(4) == 40 && MaxValue(5) == 121;
  }

  lemma ChangeBound(c: int, p: nat)
    requires -2 <= c <= 2
    ensures -2 * p <= c * p <= 2 * p
  {
  }

  // ----- Positions: which byte, and which element of it

  /** The bytes needed for `len` trits. */
  function BytesFor(tpb: nat, len: nat): nat
    requires TritsPerByte(tpb)
    decreases len
  {
    if len == 0 then 0 else 1 + BytesFor(tpb, if len <= tpb then 0 else len - tpb)
  }

  lemma {:induction false} BytesForRoundsUp(tpb: nat, len: nat)
    requires TritsPerByte(tpb)
    ensures BytesFor(tpb, len) == (len + tpb - 1) / tpb
    decreases len
  {
    if len > tpb {
      BytesForRoundsUp(tpb, len - tpb);
      PositionShift(tpb, 1, len - 1);
      assert tpb * 1 + (len - 1) == len + tpb - 1 && len - tpb + tpb - 1 == len - 1;
    } else {
      if tpb == 2 { } else if tpb == 3 { } else if tpb == 4 { } else { }
    }
  }

  /** One more trit starts a new byte exactly when the bytes so far are full. */
  lemma NextPosition(tpb: nat, len: nat)
    requires TritsPerByte(tpb)
    ensures len % tpb == 0 ==> BytesFor(tpb, len + 1) == BytesFor(tpb, len) + 1 && len / tpb == BytesFor(tpb, len)
    ensures len % tpb != 0 ==> BytesFor(tpb, len + 1) == BytesFor(tpb, len) && len / tpb == BytesFor(tpb, len) - 1
    ensures len <= tpb * BytesFor(tpb, len)
  {
    BytesForRoundsUp(tpb, len);
    BytesForRoundsUp(tpb, len + 1);
    NextQuotient(tpb, len, len + tpb - 1);
  }

  lemma NextQuotient(tpb: nat, len: nat, up: nat)
    requires TritsPerByte(tpb) && up == len + tpb - 1
    ensures len % tpb == 0 ==> (up + 1) / tpb == up / tpb + 1 && len / tpb == up / tpb
    ensures len % tpb != 0 ==> (up + 1) / tpb == up / tpb && len / tpb == up / tpb - 1
    ensures len <= tpb * (up / tpb)
  {
    if tpb == 2 { } else if tpb == 3 { } else if tpb == 4 { } else { }
  }

  lemma PositionInRange(tpb: nat, n: nat, i: nat)
    requires TritsPerByte(tpb) && i < tpb * n
    ensures i / tpb < n
  {
    if tpb == 2 { } else if tpb == 3 { } else if tpb == 4 { } else { }
  }

  lemma PositionsDiffer(tpb: nat, i: nat, j: nat)
    requires TritsPerByte(tpb) && i / tpb == j / tpb && i % tpb == j % tpb
    ensures i == j
  {
    if tpb == 2 { } else if tpb == 3 { } else if tpb == 4 { } else { }
  }

  lemma PositionShift(tpb: nat, start: nat, i: nat)
    requires TritsPerByte(tpb)
    ensures (tpb * start + i) / tpb == start + i / tpb && (tpb * start + i) % tpb == i % tpb
  {
    if tpb == 2 { } else if tpb == 3 { } else if tpb == 4 { } else { }
  }

  // ----- What packed bytes denote

  /** `bytes` holds (at least) `len` trits, every byte within its bound. */
  ghost predicate ValidBytes(tpb: nat, bytes: seq<int>, len: nat) {
    TritsPerByte(tpb) && len <= tpb * |bytes| && forall k :: 0 <= k < |bytes| ==> IsValidByte(tpb, bytes[k])
  }

  /** The trit at position `i`. */
  function TritAt(tpb: nat, bytes: seq<int>, i: nat): Trit
    requires TritsPerByte(tpb) && i / tpb < |bytes| && IsValidByte(tpb, bytes[i / tpb])
  {
    Extract(tpb, bytes[i / tpb], i % tpb)
  }

  /** The plain trit sequence. */
  ghost function Unpack(tpb: nat, bytes: seq<int>, len: nat): (ts: seq<Trit>)
    requires ValidBytes(tpb, bytes, len)
    ensures |ts| == len
  {
    if len == 0 then []
    else
      PositionInRange(tpb, |bytes|, len - 1);
      Unpack(tpb, bytes, len - 1) + [TritAt(tpb, bytes, len - 1)]
  }

  lemma {:induction false} UnpackAt(tpb: nat, bytes: seq<int>, len: nat, i: nat)
    requires ValidBytes(tpb, bytes, len) && i < len
    ensures i / tpb < |bytes| && Unpack(tpb, bytes, len)[i] == TritAt(tpb, bytes, i) == Extract(tpb, bytes[i / tpb], i % tpb)
    decreases len
  {
    PositionInRange(tpb, |bytes|, len - 1);
    if i < len - 1 {
      UnpackAt(tpb, bytes, len - 1, i);
    }
  }

  /** The bytes after writing the trit at position `i`. */
  function PutTrit(tpb: nat, bytes: seq<int>, i: nat, t: Trit): seq<int>
    requires TritsPerByte(tpb) && i / tpb < |bytes| && IsValidByte(tpb, bytes[i / tpb])
  {
    bytes[i / tpb := Insert(tpb, bytes[i / tpb], i % tpb, t)]
  }

  /** Writing a trit keeps the bytes valid and changes that trit alone, whatever the length in view. */
  lemma PutTritExact(tpb: nat, bytes: seq<int>, len: nat, i: nat, t: Trit)
    requires ValidBytes(tpb, bytes, len) && i < tpb * |bytes|
    ensures i / tpb < |bytes| && ValidBytes(tpb, PutTrit(tpb, bytes, i, t), len)
    ensures i < len ==> Unpack(tpb, PutTrit(tpb, bytes, i, t), len) == Unpack(tpb, bytes, len)[i := t]
    ensures i >= len ==> Unpack(tpb, PutTrit(tpb, bytes, i, t), len) == Unpack(tpb, bytes, len)
    ensures TritAt(tpb, PutTrit(tpb, bytes, i, t), i) == t
  {
    PositionInRange(tpb, |bytes|, i);
    InsertExact(tpb, bytes[i / tpb], i % tpb, t);
    forall j | 0 <= j < len
      ensures Unpack(tpb, PutTrit(tpb, bytes, i, t), len)[j] == if j == i then t else Unpack(tpb, bytes, len)[j]
    {
      PutTritAt(tpb, bytes, len, i, t, j);
    }
  }

  lemma PutTritAt(tpb: nat, bytes: seq<int>, len: nat, i: nat, t: Trit, j: nat)
    requires ValidBytes(tpb, bytes, len) && i / tpb < |bytes| && ValidBytes(tpb, PutTrit(tpb, bytes, i, t), len) && j < len
    ensures Unpack(tpb, PutTrit(tpb, bytes, i, t), len)[j] == if j == i then t else Unpack(tpb, bytes, len)[j]
  {
    UnpackAt(tpb, PutTrit(tpb, bytes, i, t), len, j);
    UnpackAt(tpb, bytes, len, j);
    InsertExact(tpb, bytes[i / tpb], i % tpb, t);
    if j / tpb == i / tpb && j % tpb == i % tpb {
      PositionsDiffer(tpb, i, j);
    }
  }

  /** Bytes added at the end do not change the trits before. */
  lemma UnpackPrefix(tpb: nat, bytes: seq<int>, more: seq<int>, len: nat)
    requires ValidBytes(tpb, bytes, len) && ValidBytes(tpb, bytes + more, len)
    ensures Unpack(tpb, bytes + more, len) == Unpack(tpb, bytes, len)
  {
    forall j | 0 <= j < len ensures Unpack(tpb, bytes + more, len)[j] == Unpack(tpb, bytes, len)[j] {
      UnpackAt(tpb, bytes + more, len, j);
      UnpackAt(tpb, bytes, len, j);
    }
  }

  lemma UnpackShorter(tpb: nat, bytes: seq<int>, len: nat)
    requires ValidBytes(tpb, bytes, len) && len > 0
    ensures Unpack(tpb, bytes, len) == Unpack(tpb, bytes, len - 1) + [Unpack(tpb, bytes, len)[len - 1]]
  {
  }

  // ----- Slices

  /** A slice: where its first byte is, the element its first trit is at, and its length. */
  datatype View = View(byteStart: nat, offset: nat, len: nat)

  function Make(tpb: nat, ptr: nat, offset: nat, len: nat): View
    requires TritsPerByte(tpb)
  {
    View(ptr + offset / tpb, offset % tpb, len)
  }

  /** The position of the first trit of the slice in the buffer. */
  function Start(tpb: nat, v: View): nat {
    tpb * v.byteStart + v.offset
  }

  /** Taking `from..to` of a slice. */
  function Slice(tpb: nat, v: View, from: nat, to: nat): View
    requires TritsPerByte(tpb) && from <= to <= v.len
  {
    Make(tpb, v.byteStart + (v.offset + from) / tpb, (v.offset + from) % tpb, to - from)
  }

  /** A slice of a slice denotes the slice of the positions: the packed offset never matters. */
  lemma SliceStart(tpb: nat, v: View, from: nat, to: nat)
    requires TritsPerByte(tpb) && from <= to <= v.len
    ensures Start(tpb, Slice(tpb, v, from, to)) == Start(tpb, v) + from
    ensures Slice(tpb, v, from, to).offset < tpb
  {
    if tpb == 2 { } else if tpb == 3 { } else if tpb == 4 { } else { }
  }

  lemma ViewPosition(tpb: nat, v: View, index: nat)
    requires TritsPerByte(tpb)
    ensures v.byteStart + (v.offset + index) / tpb == (Start(tpb, v) + index) / tpb
    ensures (v.offset + index) % tpb == (Start(tpb, v) + index) % tpb
  {
    PositionShift(tpb, v.byteStart, v.offset + index);
  }

  // ----- The buffer object

  class PackedBuf {
    const tpb: nat
    var bytes: seq<int>
    var len: nat

    ghost predicate Valid()
      reads this
    {
      ValidBytes(tpb, bytes, len) && |bytes| == BytesFor(tpb, len)
    }

    /** The plain sequence the buffer stands for. */
    ghost function Contents(): seq<Trit>
      requires Valid()
      reads this
    {
      Unpack(tpb, bytes, len)
    }

    /** The slice lies within the buffer. */
    ghost predicate InBounds(v: View)
      reads this
    {
      TritsPerByte(tpb) && Start(tpb, v) + v.len <= len
    }

    constructor (tpb: nat)
      requires TritsPerByte(tpb)
      ensures Valid() && this.tpb == tpb && Contents() == []
    {
      this.tpb := tpb;
      bytes, len := [], 0;
    }

    method Push(t: Trit)
      requires Valid()
      modifies this
      ensures Valid() && Contents() == old(Contents()) + [t]
    {
      var e := len % tpb;
      if e == 0 {
        PushFirst(tpb, bytes, len, t);
        bytes := bytes + [Insert(tpb, 0, 0, t)];
      } else {
        PushMore(tpb, bytes, len, t, e);
        var last := |bytes| - 1;
        bytes := bytes[last := Insert(tpb, bytes[last], e, t)];
      }
      len := len + 1;
    }

    /** Popping leaves the popped trit in its byte; it is out of view and the next push overwrites it. */
    method Pop() returns (r: Option<Trit>)
      requires Valid()
      modifies this
      ensures Valid()
      ensures old(len) == 0 ==> r == None && Contents() == old(Contents())
      ensures old(len) > 0 ==> r == Some(old(Contents())[old(len) - 1]) && Contents() == old(Contents())[..old(len) - 1]
    {
      if len == 0 {
        return None;
      }
      PopExact(tpb, bytes, len);
      if len % tpb == 1 {
        r := Some(Extract(tpb, bytes[|bytes| - 1], 0));
        bytes := bytes[..|bytes| - 1];
      } else {
        var last := |bytes| - 1;
        r := Some(Extract(tpb, bytes[last], (len + tpb - 1) % tpb));
      }
      len := len - 1;
    }

    method Get(v: View, index: nat) returns (r: Option<Trit>)
      requires Valid() && InBounds(v)
      ensures r == if index < v.len then Some(Contents()[Start(tpb, v) + index]) else None
    {
      if index < v.len {
        var at, e := v.byteStart + (v.offset + index) / tpb, (v.offset + index) % tpb;
        GetExact(tpb, bytes, len, v, index, at, e);
        r := Some(Extract(tpb, bytes[at], e));
      } else {
        r := None;
      }
    }

    /** Setting a trit of a slice changes that one trit of the buffer. Panics out of range. */
    method Set(v: View, index: nat, t: Trit)
      requires Valid() && InBounds(v) && index < v.len
      modifies this`bytes
      ensures Valid() && Contents() == old(Contents())[Start(tpb, v) + index := t]
    {
      var at, e := v.byteStart + (v.offset + index) / tpb, (v.offset + index) % tpb;
      SetExact(tpb, bytes, len, v, index, t, at, e);
      bytes := bytes[at := Insert(tpb, bytes[at], e, t)];
    }

    /** Copying into a slice replaces exactly the trits of the slice. Panics when the lengths differ. */
    method CopyFrom(v: View, trits: seq<Trit>)
      requires Valid() && InBounds(v) && |trits| == v.len
      modifies this`bytes
      ensures Valid() && Contents() == WriteAt(old(Contents()), Start(tpb, v), trits)
    {
      ghost var before, start := Contents(), Start(tpb, v);
      ghost var now := before;
      for i := 0 to |trits|
        invariant Valid() && len == |before| && Contents() == now
        invariant now == before[..start] + trits[..i] + before[start + i..]
      {
        Set(v, i, trits[i]);
        WriteOneMore(before, start, trits, i);
        now := now[start + i := trits[i]];
      }
      assert trits[..|trits|] == trits;
    }

    /** Re-encoding into a buffer with another number of trits per byte keeps the trits. */
    method Encode(other: nat) returns (r: PackedBuf)
      requires Valid() && TritsPerByte(other)
      ensures fresh(r) && r.tpb == other && r.Valid() && r.Contents() == Contents()
    {
      r := new PackedBuf(other);
      for i := 0 to len
        invariant fresh(r) && r.tpb == other && r.Valid() && r.Contents() == Contents()[..i]
      {
        var t := Get(View(0, 0, len), i);
        r.Push(t.value);
      }
      assert Contents()[..len] == Contents();
    }
  }

  lemma GetExact(tpb: nat, bytes: seq<int>, len: nat, v: View, index: nat, at: nat, e: nat)
    requires ValidBytes(tpb, bytes, len) && index < v.len && Start(tpb, v) + v.len <= len
    requires at == v.byteStart + (v.offset + index) / tpb && e == (v.offset + index) % tpb
    ensures at < |bytes| && Extract(tpb, bytes[at], e) == Unpack(tpb, bytes, len)[Start(tpb, v) + index]
  {
    ViewPosition(tpb, v, index);
    UnpackAt(tpb, bytes, len, Start(tpb, v) + index);
  }

  lemma SetExact(tpb: nat, bytes: seq<int>, len: nat, v: View, index: nat, t: Trit, at: nat, e: nat)
    requires ValidBytes(tpb, bytes, len) && index < v.len && Start(tpb, v) + v.len <= len
    requires at == v.byteStart + (v.offset + index) / tpb && e == (v.offset + index) % tpb
    ensures at < |bytes|
    ensures var r := bytes[at := Insert(tpb, bytes[at], e, t)];
      ValidBytes(tpb, r, len) && Unpack(tpb, r, len) == Unpack(tpb, bytes, len)[Start(tpb, v) + index := t]
  {
    ViewPosition(tpb, v, index);
    PutTritExact(tpb, bytes, len, Start(tpb, v) + index, t);
  }

  /** The first trit of a new byte. */
  lemma PushFirst(tpb: nat, bytes: seq<int>, len: nat, t: Trit)
    requires ValidBytes(tpb, bytes, len) && |bytes| == BytesFor(tpb, len) && len % tpb == 0
    ensures var r := bytes + [Insert(tpb, 0, 0, t)];
      && ValidBytes(tpb, r, len + 1) && |r| == BytesFor(tpb, len + 1)
      && Unpack(tpb, r, len + 1) == Unpack(tpb, bytes, len) + [t]
  {
    var b := Insert(tpb, 0, 0, t);
    NextPosition(tpb, len);
    NextPosition(tpb, len + 1);
    InsertExact(tpb, 0, 0, t);
    assert forall k :: 0 <= k < |bytes + [b]| ==> IsValidByte(tpb, (bytes + [b])[k]);
    UnpackPrefix(tpb, bytes, [b], len);
    UnpackAt(tpb, bytes + [b], len + 1, len);
  }

  /** A further trit of the last byte. */
  lemma PushMore(tpb: nat, bytes: seq<int>, len: nat, t: Trit, e: nat)
    requires ValidBytes(tpb, bytes, len) && |bytes| == BytesFor(tpb, len) && e == len % tpb != 0
    ensures |bytes| > 0
    ensures var r := bytes[|bytes| - 1 := Insert(tpb, bytes[|bytes| - 1], e, t)];
      && ValidBytes(tpb, r, len + 1) && |r| == BytesFor(tpb, len + 1)
      && Unpack(tpb, r, len + 1) == Unpack(tpb, bytes, len) + [t]
  {
    NextPosition(tpb, len);
    NextPosition(tpb, len + 1);
    PutTritExact(tpb, bytes, len, len, t);
    UnpackAt(tpb, PutTrit(tpb, bytes, len, t), len + 1, len);
  }

  lemma ElementBefore(tpb: nat, len: nat)
    requires TritsPerByte(tpb) && len > 0
    ensures (len - 1) % tpb == if len % tpb == 1 then 0 else (len + tpb - 1) % tpb
    ensures len % tpb == 1 <==> (len - 1) % tpb == 0
  {
    PositionShift(tpb, 1, len - 1);
    assert tpb * 1 + (len - 1) == len + tpb - 1;
    FirstElement(tpb, len);
  }

  lemma FirstElement(tpb: nat, len: nat)
    requires TritsPerByte(tpb) && len > 0
    ensures len % tpb == 1 <==> (len - 1) % tpb == 0
  {
    if tpb == 2 { } else if tpb == 3 { } else if tpb == 4 { } else { }
  }

  /** Dropping the last trit: its element, and its byte when it was alone in it. */
  lemma PopExact(tpb: nat, bytes: seq<int>, len: nat)
    requires ValidBytes(tpb, bytes, len) && |bytes| == BytesFor(tpb, len) && len > 0
    ensures |bytes| > 0
    ensures var e := if len % tpb == 1 then 0 else (len + tpb - 1) % tpb;
      Extract(tpb, bytes[|bytes| - 1], e) == Unpack(tpb, bytes, len)[len - 1]
    ensures var kept := if len % tpb == 1 then bytes[..|bytes| - 1] else bytes;
      && ValidBytes(tpb, kept, len - 1) && |kept| == BytesFor(tpb, len - 1)
      && Unpack(tpb, kept, len - 1) == Unpack(tpb, bytes, len)[..len - 1]
  {
    ElementBefore(tpb, len);
    LastByte(tpb, bytes, len);
    UnpackAt(tpb, bytes, len, len - 1);
    PopKeeps(tpb, bytes, len, if len % tpb == 1 then |bytes| - 1 else |bytes|);
  }

  lemma PopKeeps(tpb: nat, bytes: seq<int>, len: nat, n: nat)
    requires ValidBytes(tpb, bytes, len) && len > 0 && n <= |bytes| && len - 1 <= tpb * n
    ensures ValidBytes(tpb, bytes[..n], len - 1) && Unpack(tpb, bytes[..n], len - 1) == Unpack(tpb, bytes, len)[..len - 1]
    ensures n == |bytes| ==> bytes[..n] == bytes
  {
    UnpackShorter(tpb, bytes, len);
    assert bytes == bytes[..n] + bytes[n..];
    UnpackPrefix(tpb, bytes[..n], bytes[n..], len - 1);
  }

  lemma LastByte(tpb: nat, bytes: seq<int>, len: nat)
    requires ValidBytes(tpb, bytes, len) && |bytes| == BytesFor(tpb, len) && len > 0
    ensures |bytes| > 0 && (len - 1) / tpb == |bytes| - 1
    ensures BytesFor(tpb, len - 1) == if len % tpb == 1 then |bytes| - 1 else |bytes|
    ensures len - 1 <= tpb * BytesFor(tpb, len - 1)
  {
    NextPosition(tpb, len - 1);
    FirstElement(tpb, len);
  }

  lemma WriteOneMore(b: seq<Trit>, at: nat, data: seq<Trit>, i: nat)
    requires at + |data| <= |b| && i < |data|
    ensures (b[..at] + data[..i] + b[at + i..])[at + i := data[i]] == b[..at] + data[..i + 1] + b[at + i + 1..]
  {
  }
}
