/**
 The 8019-trit layout of a transaction, and its way over the network: laid out in trits, packed five
 to a byte, compressed, and back.
 */
module TransactionCodec {

  import opened Common
  import opened Ternary
  import opened NumConversions
  import opened PackedTrits
  import opened Compression

  const TRANSACTION_TRIT_LEN := 8019

  datatype Transaction = Transaction(
    payload: seq<Trit>,
    address: seq<Trit>,
    value: i64,
    obsoleteTag: seq<Trit>,
    timestamp: u64,
    index: u64,
    lastIndex: u64,
    bundle: seq<Trit>,
    trunk: seq<Trit>,
    branch: seq<Trit>,
    tag: seq<Trit>,
    attachmentTs: u64,
    attachmentLbts: u64,
    attachmentUbts: u64,
    nonce: seq<Trit>)

  // ----- Layout

  datatype Field =
    | PAYLOAD | ADDRESS | VALUE | OBSOLETE_TAG | TIMESTAMP | INDEX | LAST_INDEX | BUNDLE | TRUNK | BRANCH | TAG
    | ATTACHMENT_TS | ATTACHMENT_LBTS | ATTACHMENT_UBTS | NONCE

  function Len(f: Field): nat {
    match f
    case PAYLOAD => 6561
    case ADDRESS | BUNDLE | TRUNK | BRANCH => 243
    case VALUE | OBSOLETE_TAG | TAG | NONCE => 81
    case TIMESTAMP | INDEX | LAST_INDEX | ATTACHMENT_TS | ATTACHMENT_LBTS | ATTACHMENT_UBTS => 27
  }

  /** Every field starts where the one before it ends. */
  function Start(f: Field): nat {
    match f
    case PAYLOAD => 0
    case ADDRESS => 6561
    case VALUE => 6804
    case OBSOLETE_TAG => 6885
    case TIMESTAMP => 6966
    case INDEX => 6993
    case LAST_INDEX => 7020
    case BUNDLE => 7047
    case TRUNK => 7290
    case BRANCH => 7533
    case TAG => 7776
    case ATTACHMENT_TS => 7857
    case ATTACHMENT_LBTS => 7884
    case ATTACHMENT_UBTS => 7911
    case NONCE => 7938
  }

  lemma FieldsDisjoint(f: Field, g: Field)
    requires f != g
    ensures Start(f) + Len(f) <= Start(g) || Start(g) + Len(g) <= Start(f)
    ensures Start(f) + Len(f) <= TRANSACTION_TRIT_LEN
  {
  }

  /** The fields in the order of the format. */
  const FIELD_ORDER: seq<Field> := [
    PAYLOAD, ADDRESS, VALUE, OBSOLETE_TAG, TIMESTAMP, INDEX, LAST_INDEX, BUNDLE, TRUNK, BRANCH, TAG,
    ATTACHMENT_TS, ATTACHMENT_LBTS, ATTACHMENT_UBTS, NONCE]

  /** The first field starts the transaction, each starts where the one before it ends, and the last ends it. */
  lemma FieldsInOrder(i: nat)
    requires i < |FIELD_ORDER|
    ensures i == 0 ==> FIELD_ORDER[i] == PAYLOAD && Start(FIELD_ORDER[i]) == 0
    ensures i > 0 ==> Start(FIELD_ORDER[i]) == Start(FIELD_ORDER[i - 1]) + Len(FIELD_ORDER[i - 1])
    ensures i == |FIELD_ORDER| - 1 ==> FIELD_ORDER[i] == NONCE && Start(FIELD_ORDER[i]) + Len(FIELD_ORDER[i]) == 8019
  {
  }

  function Slice(trits: seq<Trit>, f: Field): (s: seq<Trit>)
    requires |trits| >= TRANSACTION_TRIT_LEN
    ensures |s| == Len(f)
  {
    trits[Start(f)..Start(f) + Len(f)]
  }

  // ----- Writing

  predicate IsNumeric(f: Field) {
    f in {VALUE, TIMESTAMP, INDEX, LAST_INDEX, ATTACHMENT_TS, ATTACHMENT_LBTS, ATTACHMENT_UBTS}
  }

  /** The number of a numeric field, cast to the type that is encoded. */
  function NumberOf(tx: Transaction, f: Field): i64 {
    match f
    case VALUE => tx.value
    case TIMESTAMP => U64AsI64(tx.timestamp)
    case INDEX => U64AsI64(tx.index)
    case LAST_INDEX => U64AsI64(tx.lastIndex)
    case ATTACHMENT_TS => U64AsI64(tx.attachmentTs)
    case ATTACHMENT_LBTS => U64AsI64(tx.attachmentLbts)
    case ATTACHMENT_UBTS => U64AsI64(tx.attachmentUbts)
    case _ => 0
  }

  function TritsField(tx: Transaction, f: Field): seq<Trit> {
    match f
    case PAYLOAD => tx.payload
    case ADDRESS => tx.address
    case OBSOLETE_TAG => tx.obsoleteTag
    case BUNDLE => tx.bundle
    case TRUNK => tx.trunk
    case BRANCH => tx.branch
    case TAG => tx.tag
    case NONCE => tx.nonce
    case _ => []
  }

  /** The trits written for a field; numbers are written without padding. */
  function Data(tx: Transaction, f: Field): seq<Trit> {
    if IsNumeric(f) then TritsOf(NumberOf(tx, f) as int) else TritsField(tx, f)
  }

  /** The trit fields have their lengths, as their types promise; the code copies that many trits. */
  predicate Sized(tx: Transaction) {
    && |tx.payload| == Len(PAYLOAD) && |tx.address| == Len(ADDRESS) && |tx.obsoleteTag| == Len(OBSOLETE_TAG)
    && |tx.bundle| == Len(BUNDLE) && |tx.trunk| == Len(TRUNK) && |tx.branch| == Len(BRANCH)
    && |tx.tag| == Len(TAG) && |tx.nonce| == Len(NONCE)
  }

  /** Everything written stays within its field. A longer number runs into the field behind it. */
  ghost predicate Fits(tx: Transaction) {
    forall f :: |Data(tx, f)| <= Len(f)
  }

  /** The order in which the code copies the fields. */
  const WRITE_ORDER: seq<Field> := [
    PAYLOAD, ADDRESS, OBSOLETE_TAG, BUNDLE, BRANCH, TRUNK, TAG, NONCE,
    VALUE, INDEX, LAST_INDEX, TIMESTAMP, ATTACHMENT_TS, ATTACHMENT_LBTS, ATTACHMENT_UBTS]

  lemma WriteOrderComplete(f: Field)
    ensures f in WRITE_ORDER
  {
  }

  lemma WriteOrderDistinct()
    ensures Distinct(WRITE_ORDER)
  {
  }

  /** Field `f` of `buf` holds its data, followed by what `buf0` had there. */
  ghost predicate Holds(buf0: seq<Trit>, buf: seq<Trit>, f: Field, data: seq<Trit>)
    requires |buf0| >= TRANSACTION_TRIT_LEN && |buf| >= TRANSACTION_TRIT_LEN
  {
    |data| <= Len(f) && Slice(buf, f) == data + Slice(buf0, f)[|data|..]
  }

  /** The buffer after writing the data of some places one after the other. */
  function Written<F(!new)>(buf: seq<Trit>, order: seq<F>, at: F -> nat, data: F -> seq<Trit>): (r: seq<Trit>)
    requires forall f :: at(f) + |data(f)| <= |buf|
    ensures |r| == |buf|
    decreases |order|
  {
    if order == [] then buf
    else
      var n := |order| - 1;
      WriteAt(Written(buf, order[..n], at, data), at(order[n]), data(order[n]))
  }

  /** Places that do not overlap, each with room for its data. */
  ghost predicate Apart<F(!new)>(size: nat, at: F -> nat, len: F -> nat, data: F -> seq<Trit>) {
    && (forall f :: |data(f)| <= len(f) && at(f) + len(f) <= size)
    && (forall f, g :: f != g ==> at(f) + len(f) <= at(g) || at(g) + len(g) <= at(f))
  }

  lemma DistinctPrefix<F(!new)>(order: seq<F>, n: nat)
    requires Distinct(order) && |order| == n + 1
    ensures Distinct(order[..n]) && order[n] !in order[..n]
  {
  }

  /** The `n` trits from `at` on hold `data`, followed by what `buf` had there. */
  ghost predicate HoldsAt(buf: seq<Trit>, r: seq<Trit>, at: nat, n: nat, data: seq<Trit>) {
    |data| <= n && at + n <= |buf| == |r| && r[at..at + n] == data + buf[at..at + n][|data|..]
  }

  lemma HoldsOnceWritten(buf: seq<Trit>, before: seq<Trit>, at: nat, n: nat, data: seq<Trit>)
    requires |data| <= n && HoldsAt(buf, before, at, n, [])
    ensures HoldsAt(buf, WriteAt(before, at, data), at, n, data)
  {
    assert before[at..at + n] == buf[at..at + n];
    ReadWritten(before, at, data, n);
  }

  lemma HoldsAfterOther(buf: seq<Trit>, before: seq<Trit>, at: nat, n: nat, data: seq<Trit>, other: nat, written: seq<Trit>)
    requires HoldsAt(buf, before, at, n, data) && other + |written| <= |before|
    requires at + n <= other || other + |written| <= at
    ensures HoldsAt(buf, WriteAt(before, other, written), at, n, data)
  {
    ReadElsewhere(before, other, written, at, n);
  }

  lemma {:induction false} WrittenElsewhere<F(!new)>(buf: seq<Trit>, order: seq<F>, at: F -> nat, len: F -> nat, data: F -> seq<Trit>, f: F)
    requires Apart(|buf|, at, len, data) && f !in order
    ensures HoldsAt(buf, Written(buf, order, at, data), at(f), len(f), [])
    decreases |order|
  {
    if order != [] {
      var n := |order| - 1;
      WrittenElsewhere(buf, order[..n], at, len, data, f);
      HoldsAfterOther(buf, Written(buf, order[..n], at, data), at(f), len(f), [], at(order[n]), data(order[n]));
    }
  }

  /** Each place written ends up with its data, followed by what was there. */
  lemma {:induction false} WrittenHolds<F(!new)>(buf: seq<Trit>, order: seq<F>, at: F -> nat, len: F -> nat, data: F -> seq<Trit>, k: nat)
    requires Apart(|buf|, at, len, data) && Distinct(order) && k < |order|
    ensures HoldsAt(buf, Written(buf, order, at, data), at(order[k]), len(order[k]), data(order[k]))
    decreases |order|
  {
    var n, f := |order| - 1, order[k];
    var before := Written(buf, order[..n], at, data);
    DistinctPrefix(order, n);
    if k == n {
      WrittenElsewhere(buf, order[..n], at, len, data, f);
      HoldsOnceWritten(buf, before, at(f), len(f), data(f));
    } else {
      WrittenHolds(buf, order[..n], at, len, data, k);
      assert order[..n][k] == f && f != order[n];
      HoldsAfterOther(buf, before, at(f), len(f), data(f), at(order[n]), data(order[n]));
    }
  }

  /** Nothing written after the `k`-th data overlaps them. */
  ghost predicate NoneOverlaps<F(!new)>(order: seq<F>, at: F -> nat, data: F -> seq<Trit>, k: nat)
    requires k < |order|
  {
    forall j :: k < j < |order| ==>
      at(order[j]) + |data(order[j])| <= at(order[k]) || at(order[k]) + |data(order[k])| <= at(order[j])
  }

  lemma NoneOverlapsPrefix<F(!new)>(order: seq<F>, at: F -> nat, data: F -> seq<Trit>, k: nat, n: nat)
    requires k < n < |order| && NoneOverlaps(order, at, data, k)
    ensures order[..n][k] == order[k] && NoneOverlaps(order[..n], at, data, k)
    ensures at(order[n]) + |data(order[n])| <= at(order[k]) || at(order[k]) + |data(order[k])| <= at(order[n])
  {
  }

  /** What is written last stays, whatever its length. */
  lemma {:induction false} WrittenLast<F(!new)>(buf: seq<Trit>, order: seq<F>, at: F -> nat, data: F -> seq<Trit>, k: nat)
    requires (forall f :: at(f) + |data(f)| <= |buf|) && k < |order| && NoneOverlaps(order, at, data, k)
    ensures Written(buf, order, at, data)[at(order[k])..at(order[k]) + |data(order[k])|] == data(order[k])
    decreases |order|
  {
    var n, f := |order| - 1, order[k];
    var before, g := Written(buf, order[..n], at, data), order[n];
    if k < n {
      NoneOverlapsPrefix(order, at, data, k, n);
      WrittenLast(buf, order[..n], at, data, k);
      KeptThrough(before, at(g), data(g), at(f), data(f));
    }
  }

  lemma KeptThrough(b: seq<Trit>, at: nat, data: seq<Trit>, from: nat, kept: seq<Trit>)
    requires at + |data| <= |b| && from + |kept| <= |b| && b[from..from + |kept|] == kept
    requires at + |data| <= from || from + |kept| <= at
    ensures WriteAt(b, at, data)[from..from + |kept|] == kept
  {
    ReadElsewhere(b, at, data, from, |kept|);
  }

  function DataOf(tx: Transaction): Field -> seq<Trit> {
    f => Data(tx, f)
  }

  /** No write leaves the buffer, even where a number leaves its field. */
  lemma DataWithin(tx: Transaction, f: Field)
    requires Sized(tx)
    ensures Start(f) + |DataOf(tx)(f)| <= TRANSACTION_TRIT_LEN
    ensures !IsNumeric(f) || f == VALUE ==> |DataOf(tx)(f)| <= Len(f)
  {
    AtMost41Trits(NumberOf(tx, f));
  }

  /** The fifteen writes in the order of the code. */
  ghost function Layout(tx: Transaction, buf: seq<Trit>): (r: seq<Trit>)
    requires Sized(tx) && |buf| >= TRANSACTION_TRIT_LEN
    ensures |r| == |buf|
  {
    forall f ensures Start(f) + |DataOf(tx)(f)| <= |buf| { DataWithin(tx, f); }
    Written(buf, WRITE_ORDER, Start, DataOf(tx))
  }

  /** Where every number fits its field, each field holds its data, followed by what the buffer had. */
  lemma LayoutHolds(tx: Transaction, buf: seq<Trit>, f: Field)
    requires Sized(tx) && |buf| >= TRANSACTION_TRIT_LEN && Fits(tx)
    ensures Holds(buf, Layout(tx, buf), f, Data(tx, f))
  {
    WriteOrderDistinct();
    WriteOrderComplete(f);
    LayoutHoldsInOrder(tx, buf, WRITE_ORDER, f);
  }

  lemma LayoutHoldsInOrder(tx: Transaction, buf: seq<Trit>, order: seq<Field>, f: Field)
    requires Fits(tx) && |buf| >= TRANSACTION_TRIT_LEN && f in order && Distinct(order)
    ensures forall g :: Start(g) + |DataOf(tx)(g)| <= |buf|
    ensures Holds(buf, Written(buf, order, Start, DataOf(tx)), f, DataOf(tx)(f))
  {
    FieldsApart(tx, |buf|);
    var k :| 0 <= k < |order| && order[k] == f;
    WrittenHolds(buf, order, Start, Len, DataOf(tx), k);
    HoldsInField(buf, Written(buf, order, Start, DataOf(tx)), f, DataOf(tx)(f));
  }

  lemma HoldsInField(buf: seq<Trit>, r: seq<Trit>, f: Field, data: seq<Trit>)
    requires |buf| >= TRANSACTION_TRIT_LEN && HoldsAt(buf, r, Start(f), Len(f), data)
    ensures Holds(buf, r, f, data)
  {
  }

  /** A timestamp longer than its field is written all the same, over the front of the index. */
  lemma TimestampOverruns(tx: Transaction, buf: seq<Trit>)
    requires Sized(tx) && |buf| >= 8019
    ensures var t := TritsOf(U64AsI64(tx.timestamp) as int);
      6966 + |t| <= |buf| && Layout(tx, buf)[6966..6966 + |t|] == t
  {
    forall f ensures Start(f) + |DataOf(tx)(f)| <= |buf| { DataWithin(tx, f); }
    TimestampWrittenLate(11);
    TimestampOverrunsIn(tx, buf, WRITE_ORDER, 11);
  }

  lemma TimestampWrittenLate(k: nat)
    requires k == 11
    ensures k < |WRITE_ORDER| && WRITE_ORDER[k] == TIMESTAMP && forall j :: k < j < |WRITE_ORDER| ==> Start(WRITE_ORDER[j]) >= 7857
  {
    assert WRITE_ORDER[12] == ATTACHMENT_TS && WRITE_ORDER[13] == ATTACHMENT_LBTS && WRITE_ORDER[14] == ATTACHMENT_UBTS;
  }

  lemma TimestampOverrunsIn(tx: Transaction, buf: seq<Trit>, order: seq<Field>, k: nat)
    requires Sized(tx) && |buf| >= TRANSACTION_TRIT_LEN && (forall f :: Start(f) + |DataOf(tx)(f)| <= |buf|)
    requires k < |order| && order[k] == TIMESTAMP && forall j :: k < j < |order| ==> Start(order[j]) >= 7857
    ensures var t := TritsOf(U64AsI64(tx.timestamp) as int);
      6966 + |t| <= |buf| && Written(buf, order, Start, DataOf(tx))[6966..6966 + |t|] == t
  {
    AtMost41Trits(NumberOf(tx, TIMESTAMP));
    assert Start(TIMESTAMP) == 6966 && DataOf(tx)(TIMESTAMP) == TritsOf(U64AsI64(tx.timestamp) as int);
    WrittenLast(buf, order, Start, DataOf(tx), k);
  }

  lemma FieldsApart(tx: Transaction, size: nat)
    requires Fits(tx) && size >= TRANSACTION_TRIT_LEN
    ensures Apart(size, Start, Len, DataOf(tx))
  {
    forall f ensures |DataOf(tx)(f)| <= Len(f) && Start(f) + Len(f) <= size { }
    forall f, g | f != g
      ensures Start(f) + Len(f) <= Start(g) || Start(g) + Len(g) <= Start(f)
    {
      FieldsDisjoint(f, g);
    }
  }

  /** Lays a transaction out over a buffer. */
  method IntoTritsAllocated(tx: Transaction, buf: seq<Trit>) returns (r: seq<Trit>)
    requires Sized(tx) && |buf| >= TRANSACTION_TRIT_LEN
    ensures r == Layout(tx, buf)
    ensures Fits(tx) ==> forall f :: Holds(buf, r, f, Data(tx, f))
  {
    forall f ensures Start(f) + |DataOf(tx)(f)| <= |buf| { DataWithin(tx, f); }
    r := CopyFields(buf, WRITE_ORDER, Start, DataOf(tx));
    if Fits(tx) {
      forall f ensures Holds(buf, r, f, Data(tx, f)) { LayoutHolds(tx, buf, f); }
    }
  }

  /** Copies the data of each place, in order. */
  method CopyFields<F(!new)>(buf: seq<Trit>, order: seq<F>, at: F -> nat, data: F -> seq<Trit>) returns (r: seq<Trit>)
    requires forall f :: at(f) + |data(f)| <= |buf|
    ensures r == Written(buf, order, at, data)
  {
    r := buf;
    for i := 0 to |order|
      invariant r == Written(buf, order[..i], at, data)
    {
      r := WriteAt(r, at(order[i]), data(order[i]));
      assert order[..i + 1][..i] == order[..i];
    }
    assert order[..|order|] == order;
  }

  // ----- Reading

  datatype TransactionError =
    | InvalidNumericField(field: Field, error: ConversionError)
    | InvalidValue(value: i64)
    | InvalidAddress

  /** `Panics` is the overflow of taking the absolute value of the smallest `i64`. */
  datatype TransactionResult = Built(tx: Transaction) | Rejected(error: TransactionError) | Panics

  function Number(trits: seq<Trit>, f: Field): Result<i64>
    requires |trits| >= TRANSACTION_TRIT_LEN
  {
    Decoded(Slice(trits, f))
  }

  /** The fields in the order their numbers are decoded. */
  function FirstInvalid(trits: seq<Trit>, fields: seq<Field>): Option<TransactionError>
    requires |trits| >= TRANSACTION_TRIT_LEN
    decreases |fields|
  {
    if fields == [] then None
    else match Number(trits, fields[0])
         case Err(e) => Some(InvalidNumericField(fields[0], e))
         case Ok(_) => FirstInvalid(trits, fields[1..])
  }

  function NumberOrZero(trits: seq<Trit>, f: Field): i64
    requires |trits| >= TRANSACTION_TRIT_LEN
  {
    match Number(trits, f) case Ok(v) => v case Err(_) => 0
  }

  /** The validation of the builder. */
  function Build(tx: Transaction): TransactionResult
    requires |tx.address| == Len(ADDRESS)
  {
    if tx.value as int == I64_MIN then Panics
    else if tx.value as int > IOTA_SUPPLY || -(tx.value as int) > IOTA_SUPPLY then Rejected(InvalidValue(tx.value))
    else if tx.value != 0 && tx.address[Len(ADDRESS) - 1] != 0 then Rejected(InvalidAddress)
    else Built(tx)
  }

  /** Reads a transaction from its trits. */
  function FromTrits(trits: seq<Trit>): TransactionResult
    requires |trits| >= TRANSACTION_TRIT_LEN
  {
    match FirstInvalid(trits, NUMBER_FIELDS)
    case Some(e) => Rejected(e)
    case None => Build(Assembled(trits))
  }

  // ----- Round trip of the layout

  lemma MaxValue27(n: nat)
    requires n == 27
    ensures MaxValue(n) == 3812798742493
  {
    assert Pow3(9) == 19683;
    Pow3Adds(9, 9);
    Pow3Adds(9, 18);
    MaxValueIsHalfPow3(n);
  }

  /** A transaction fits exactly when each of its 27-trit numbers, cast to an `i64`, is in range. */
  lemma FitsIff(tx: Transaction)
    requires Sized(tx)
    ensures Fits(tx) <==> forall f :: InFieldRange(tx, f)
  {
    forall f ensures |Data(tx, f)| <= Len(f) <==> InFieldRange(tx, f) { FieldFitsIff(tx, f); }
  }

  predicate InFieldRange(tx: Transaction, f: Field) {
    IsNumeric(f) && f != VALUE ==> -3812798742493 <= NumberOf(tx, f) as int <= 3812798742493
  }

  lemma FieldFitsIff(tx: Transaction, f: Field)
    requires Sized(tx)
    ensures |Data(tx, f)| <= Len(f) <==> InFieldRange(tx, f)
  {
    DataWithin(tx, f);
    MaxValue27(27);
    TritsOfLength(NumberOf(tx, f) as int, 27);
  }

  /** The trits hold every field of the transaction over zeros. */
  ghost predicate IsLayout(tx: Transaction, trits: seq<Trit>) {
    |trits| == TRANSACTION_TRIT_LEN && forall f :: Holds(Zeros(TRANSACTION_TRIT_LEN), trits, f, Data(tx, f))
  }

  /** A number field written over zeros decodes to the number. */
  lemma NumberRoundTrip(trits: seq<Trit>, f: Field, v: i64)
    requires |trits| == TRANSACTION_TRIT_LEN && Holds(Zeros(TRANSACTION_TRIT_LEN), trits, f, TritsOf(v as int))
    ensures Number(trits, f) == Ok(v)
  {
    DecodePadded(v, Zeros(TRANSACTION_TRIT_LEN), Start(f), Len(f));
  }

  lemma TritsRoundTrip(trits: seq<Trit>, f: Field, data: seq<Trit>)
    requires |trits| == TRANSACTION_TRIT_LEN && Holds(Zeros(TRANSACTION_TRIT_LEN), trits, f, data) && |data| == Len(f)
    ensures Slice(trits, f) == data
  {
  }

  const NUMBER_FIELDS: seq<Field> := [VALUE, TIMESTAMP, INDEX, LAST_INDEX, ATTACHMENT_TS, ATTACHMENT_LBTS, ATTACHMENT_UBTS]

  lemma NumbersRoundTrip(tx: Transaction, trits: seq<Trit>)
    requires IsLayout(tx, trits)
    ensures FirstInvalid(trits, NUMBER_FIELDS) == None
    ensures forall f :: IsNumeric(f) ==> NumberOrZero(trits, f) == NumberOf(tx, f)
  {
    forall f | IsNumeric(f)
      ensures Number(trits, f) == Ok(NumberOf(tx, f))
    {
      assert Holds(Zeros(TRANSACTION_TRIT_LEN), trits, f, Data(tx, f));
      NumberRoundTrip(trits, f, NumberOf(tx, f));
    }
    forall i | 0 <= i < |NUMBER_FIELDS|
      ensures Number(trits, NUMBER_FIELDS[i]).Ok?
    {
      assert IsNumeric(NUMBER_FIELDS[i]);
    }
    NoneInvalid(trits, NUMBER_FIELDS);
  }

  lemma {:induction false} NoneInvalid(trits: seq<Trit>, fields: seq<Field>)
    requires |trits| >= TRANSACTION_TRIT_LEN && forall i :: 0 <= i < |fields| ==> Number(trits, fields[i]).Ok?
    ensures FirstInvalid(trits, fields) == None
    decreases |fields|
  {
    if fields != [] { NoneInvalid(trits, fields[1..]); }
  }

  lemma TritFieldsRoundTrip(tx: Transaction, trits: seq<Trit>)
    requires Sized(tx) && IsLayout(tx, trits)
    ensures forall f :: !IsNumeric(f) ==> Slice(trits, f) == TritsField(tx, f)
  {
    forall f | !IsNumeric(f)
      ensures Slice(trits, f) == TritsField(tx, f)
    {
      assert Holds(Zeros(TRANSACTION_TRIT_LEN), trits, f, Data(tx, f));
      TritsRoundTrip(trits, f, TritsField(tx, f));
    }
  }

  /** The transaction that the fields of some trits make, before validation. */
  function Assembled(trits: seq<Trit>): Transaction
    requires |trits| >= TRANSACTION_TRIT_LEN
  {
    Transaction(
      Slice(trits, PAYLOAD),
      Slice(trits, ADDRESS),
      NumberOrZero(trits, VALUE),
      Slice(trits, OBSOLETE_TAG),
      I64AsU64(NumberOrZero(trits, TIMESTAMP)),
      I64AsU64(NumberOrZero(trits, INDEX)),
      I64AsU64(NumberOrZero(trits, LAST_INDEX)),
      Slice(trits, BUNDLE),
      Slice(trits, TRUNK),
      Slice(trits, BRANCH),
      Slice(trits, TAG),
      I64AsU64(NumberOrZero(trits, ATTACHMENT_TS)),
      I64AsU64(NumberOrZero(trits, ATTACHMENT_LBTS)),
      I64AsU64(NumberOrZero(trits, ATTACHMENT_UBTS)),
      Slice(trits, NONCE))
  }

  lemma AssembledRoundTrip(tx: Transaction, trits: seq<Trit>)
    requires |trits| == TRANSACTION_TRIT_LEN
    requires forall f :: !IsNumeric(f) ==> Slice(trits, f) == TritsField(tx, f)
    requires forall f :: IsNumeric(f) ==> NumberOrZero(trits, f) == NumberOf(tx, f)
    ensures Assembled(trits) == tx
  {
    CastRoundTrip(tx.timestamp);
    CastRoundTrip(tx.index);
    CastRoundTrip(tx.lastIndex);
    CastRoundTrip(tx.attachmentTs);
    CastRoundTrip(tx.attachmentLbts);
    CastRoundTrip(tx.attachmentUbts);
  }

  /** Where every number fits, reading back the layout over zeros is validating the transaction. */
  lemma LayoutReadsBack(tx: Transaction, trits: seq<Trit>)
    requires Sized(tx) && Fits(tx) && trits == Layout(tx, Zeros(TRANSACTION_TRIT_LEN))
    ensures FromTrits(trits) == Build(tx)
  {
    forall f ensures Holds(Zeros(TRANSACTION_TRIT_LEN), trits, f, Data(tx, f)) {
      LayoutHolds(tx, Zeros(TRANSACTION_TRIT_LEN), f);
    }
    NumbersRoundTrip(tx, trits);
    TritFieldsRoundTrip(tx, trits);
    AssembledRoundTrip(tx, trits);
  }

  /** A number read from a field is one that fits it. */
  lemma ReadNumberFits(tx: Transaction, trits: seq<Trit>, f: Field)
    requires |trits| >= TRANSACTION_TRIT_LEN && IsNumeric(f) && f != VALUE
    requires Number(trits, f) == Ok(NumberOf(tx, f))
    ensures |Data(tx, f)| <= Len(f)
  {
    ShortNumber(trits, f);
    TritsOfLength(NumberOf(tx, f) as int, 27);
  }

  /** A field of 27 trits always decodes, to its own number. */
  lemma ShortNumber(trits: seq<Trit>, f: Field)
    requires |trits| >= TRANSACTION_TRIT_LEN && IsNumeric(f) && f != VALUE
    ensures Number(trits, f).Ok? && Number(trits, f).value as int == Value(Slice(trits, f))
    ensures 0 - MaxValue(27) <= Value(Slice(trits, f)) <= MaxValue(27)
  {
    MaxValue27(27);
    ValueBound(Slice(trits, f));
  }

  /** The layout of a transaction that the builder accepts reads back as that transaction if and only if
      every number, cast to an `i64`, fits its field. */
  lemma LayoutRoundTripIff(tx: Transaction, trits: seq<Trit>)
    requires Sized(tx) && Build(tx) == Built(tx) && trits == Layout(tx, Zeros(TRANSACTION_TRIT_LEN))
    ensures FromTrits(trits) == Built(tx) <==> Fits(tx)
  {
    if Fits(tx) {
      LayoutReadsBack(tx, trits);
    }
    if FromTrits(trits) == Built(tx) {
      forall f ensures |Data(tx, f)| <= Len(f) {
        DataWithin(tx, f);
        if IsNumeric(f) && f != VALUE {
          AssembledNumber(tx, trits, f);
          ReadNumberFits(tx, trits, f);
        }
      }
    }
  }

  lemma AssembledNumber(tx: Transaction, trits: seq<Trit>, f: Field)
    requires |trits| >= TRANSACTION_TRIT_LEN && Assembled(trits) == tx && IsNumeric(f) && f != VALUE
    ensures Number(trits, f) == Ok(NumberOf(tx, f))
  {
    ShortNumber(trits, f);
    NumberOfAssembled(trits, f);
    CastBackRoundTrip(NumberOrZero(trits, f));
  }

  lemma NumberOfAssembled(trits: seq<Trit>, f: Field)
    requires |trits| >= TRANSACTION_TRIT_LEN && IsNumeric(f) && f != VALUE
    ensures NumberOf(Assembled(trits), f) == U64AsI64(I64AsU64(NumberOrZero(trits, f)))
  {
  }

  /** The field of the transaction is what its place holds. */
  ghost predicate FieldRead(trits: seq<Trit>, tx: Transaction, f: Field)
    requires |trits| >= TRANSACTION_TRIT_LEN
  {
    if IsNumeric(f) then Decoded(Slice(trits, f)) == Ok(NumberOf(tx, f)) else TritsField(tx, f) == Slice(trits, f)
  }

  lemma EveryFieldRead(trits: seq<Trit>, tx: Transaction, f: Field)
    requires |trits| >= TRANSACTION_TRIT_LEN && FromTrits(trits) == Built(tx)
    ensures FieldRead(trits, tx, f)
  {
    FirstInvalidIff(trits);
    assert tx == Assembled(trits) && Number(trits, VALUE) == Ok(tx.value);
    if IsNumeric(f) && f != VALUE {
      AssembledNumber(tx, trits, f);
    }
  }

  /** The places of the trit fields. */
  lemma TritPlaces(trits: seq<Trit>, tx: Transaction)
    requires |trits| >= 8019 && forall f :: FieldRead(trits, tx, f)
    ensures tx.payload == trits[0..6561] && tx.address == trits[6561..6804] && tx.obsoleteTag == trits[6885..6966]
    ensures tx.bundle == trits[7047..7290] && tx.trunk == trits[7290..7533] && tx.branch == trits[7533..7776]
    ensures tx.tag == trits[7776..7857] && tx.nonce == trits[7938..8019]
  {
    assert FieldRead(trits, tx, PAYLOAD) && FieldRead(trits, tx, ADDRESS) && FieldRead(trits, tx, OBSOLETE_TAG);
    assert FieldRead(trits, tx, BUNDLE) && FieldRead(trits, tx, TRUNK) && FieldRead(trits, tx, BRANCH);
    assert FieldRead(trits, tx, TAG) && FieldRead(trits, tx, NONCE);
  }

  /** The places of the numbers, which decode to the number cast to an `i64`. */
  lemma NumberPlaces(trits: seq<Trit>, tx: Transaction)
    requires |trits| >= 8019 && forall f :: FieldRead(trits, tx, f)
    ensures Decoded(trits[6804..6885]) == Ok(tx.value)
    ensures Decoded(trits[6966..6993]) == Ok(U64AsI64(tx.timestamp))
    ensures Decoded(trits[6993..7020]) == Ok(U64AsI64(tx.index))
    ensures Decoded(trits[7020..7047]) == Ok(U64AsI64(tx.lastIndex))
    ensures Decoded(trits[7857..7884]) == Ok(U64AsI64(tx.attachmentTs))
    ensures Decoded(trits[7884..7911]) == Ok(U64AsI64(tx.attachmentLbts))
    ensures Decoded(trits[7911..7938]) == Ok(U64AsI64(tx.attachmentUbts))
  {
    assert FieldRead(trits, tx, VALUE) && FieldRead(trits, tx, TIMESTAMP) && FieldRead(trits, tx, INDEX);
    assert FieldRead(trits, tx, LAST_INDEX) && FieldRead(trits, tx, ATTACHMENT_TS);
    assert FieldRead(trits, tx, ATTACHMENT_LBTS) && FieldRead(trits, tx, ATTACHMENT_UBTS);
  }

  /** Reading takes every trit field from its place. */
  lemma ReadsAtPlaces(trits: seq<Trit>, tx: Transaction)
    requires |trits| >= 8019 && FromTrits(trits) == Built(tx)
    ensures tx.payload == trits[0..6561] && tx.address == trits[6561..6804] && tx.obsoleteTag == trits[6885..6966]
    ensures tx.bundle == trits[7047..7290] && tx.trunk == trits[7290..7533] && tx.branch == trits[7533..7776]
    ensures tx.tag == trits[7776..7857] && tx.nonce == trits[7938..8019]
  {
    forall f ensures FieldRead(trits, tx, f) { EveryFieldRead(trits, tx, f); }
    TritPlaces(trits, tx);
  }

  /** Reading decodes every number from its place. */
  lemma ReadsNumbersAtPlaces(trits: seq<Trit>, tx: Transaction)
    requires |trits| >= 8019 && FromTrits(trits) == Built(tx)
    ensures Decoded(trits[6804..6885]) == Ok(tx.value)
    ensures Decoded(trits[6966..6993]) == Ok(U64AsI64(tx.timestamp))
    ensures Decoded(trits[6993..7020]) == Ok(U64AsI64(tx.index))
    ensures Decoded(trits[7020..7047]) == Ok(U64AsI64(tx.lastIndex))
    ensures Decoded(trits[7857..7884]) == Ok(U64AsI64(tx.attachmentTs))
    ensures Decoded(trits[7884..7911]) == Ok(U64AsI64(tx.attachmentLbts))
    ensures Decoded(trits[7911..7938]) == Ok(U64AsI64(tx.attachmentUbts))
  {
    forall f ensures FieldRead(trits, tx, f) { EveryFieldRead(trits, tx, f); }
    NumberPlaces(trits, tx);
  }

  /** Writing puts every trit field to its place. */
  lemma WritesAtPlaces(tx: Transaction, buf: seq<Trit>, r: seq<Trit>)
    requires Sized(tx) && |r| == |buf| >= 8019 && forall f :: Holds(buf, r, f, Data(tx, f))
    ensures r[0..6561] == tx.payload && r[6561..6804] == tx.address && r[6885..6966] == tx.obsoleteTag
    ensures r[7047..7290] == tx.bundle && r[7290..7533] == tx.trunk && r[7533..7776] == tx.branch
    ensures r[7776..7857] == tx.tag && r[7938..8019] == tx.nonce
  {
    TritFieldAt(tx, buf, r, PAYLOAD);
    TritFieldAt(tx, buf, r, ADDRESS);
    TritFieldAt(tx, buf, r, OBSOLETE_TAG);
    TritFieldAt(tx, buf, r, BUNDLE);
    TritFieldAt(tx, buf, r, TRUNK);
    TritFieldAt(tx, buf, r, BRANCH);
    TritFieldAt(tx, buf, r, TAG);
    TritFieldAt(tx, buf, r, NONCE);
  }

  lemma TritFieldAt(tx: Transaction, buf: seq<Trit>, r: seq<Trit>, f: Field)
    requires Sized(tx) && |r| == |buf| >= TRANSACTION_TRIT_LEN && !IsNumeric(f) && Holds(buf, r, f, Data(tx, f))
    ensures Slice(r, f) == TritsField(tx, f)
  {
  }

  /** Writing puts every number to its place: its trits, followed by what the buffer had there. */
  lemma WritesNumbersAtPlaces(tx: Transaction, buf: seq<Trit>, r: seq<Trit>)
    requires |r| == |buf| >= 8019 && forall f :: Holds(buf, r, f, Data(tx, f))
    ensures StartsWith(r[6804..6885], TritsOf(tx.value as int), buf[6804..6885])
    ensures StartsWith(r[6966..6993], TritsOf(U64AsI64(tx.timestamp) as int), buf[6966..6993])
    ensures StartsWith(r[6993..7020], TritsOf(U64AsI64(tx.index) as int), buf[6993..7020])
    ensures StartsWith(r[7020..7047], TritsOf(U64AsI64(tx.lastIndex) as int), buf[7020..7047])
    ensures StartsWith(r[7857..7884], TritsOf(U64AsI64(tx.attachmentTs) as int), buf[7857..7884])
    ensures StartsWith(r[7884..7911], TritsOf(U64AsI64(tx.attachmentLbts) as int), buf[7884..7911])
    ensures StartsWith(r[7911..7938], TritsOf(U64AsI64(tx.attachmentUbts) as int), buf[7911..7938])
  {
    NumberFieldAt(tx, buf, r, VALUE);
    NumberFieldAt(tx, buf, r, TIMESTAMP);
    NumberFieldAt(tx, buf, r, INDEX);
    NumberFieldAt(tx, buf, r, LAST_INDEX);
    NumberFieldAt(tx, buf, r, ATTACHMENT_TS);
    NumberFieldAt(tx, buf, r, ATTACHMENT_LBTS);
    NumberFieldAt(tx, buf, r, ATTACHMENT_UBTS);
  }

  lemma NumberFieldAt(tx: Transaction, buf: seq<Trit>, r: seq<Trit>, f: Field)
    requires |r| == |buf| >= TRANSACTION_TRIT_LEN && IsNumeric(f) && Holds(buf, r, f, Data(tx, f))
    ensures StartsWith(Slice(r, f), TritsOf(NumberOf(tx, f) as int), Slice(buf, f))
  {
  }

  /** `r` is `data` followed by what `buf` has behind it. */
  ghost predicate StartsWith(r: seq<Trit>, data: seq<Trit>, buf: seq<Trit>) {
    |data| <= |r| == |buf| && r[..|data|] == data && r[|data|..] == buf[|data|..]
  }

  // ----- When reading panics

  /** Only the value field, of 81 trits, can fail to decode. */
  lemma FirstInvalidIff(trits: seq<Trit>)
    requires |trits| >= TRANSACTION_TRIT_LEN
    ensures FirstInvalid(trits, NUMBER_FIELDS) == None <==> I64_MIN - 1 <= Value(Slice(trits, VALUE)) <= I64_MAX
  {
    if Number(trits, VALUE).Ok? {
      forall i | 0 <= i < |NUMBER_FIELDS|
        ensures Number(trits, NUMBER_FIELDS[i]).Ok?
      {
        if i > 0 { ShortNumber(trits, NUMBER_FIELDS[i]); }
      }
      NoneInvalid(trits, NUMBER_FIELDS);
    } else {
      assert NUMBER_FIELDS[0] == VALUE;
    }
  }

  /** What reading answers, by the number `v` in the value field and the last trit of the address. */
  lemma ReadingDecided(trits: seq<Trit>, v: int)
    requires |trits| >= 8019 && v == Value(trits[6804..6885])
    ensures v > I64_MAX || v < I64_MIN - 1 ==> FromTrits(trits) == Rejected(InvalidNumericField(VALUE, AbsValueTooBig))
    ensures v == I64_MIN - 1 ==> FromTrits(trits) == Rejected(InvalidValue(I64_MAX as i64))
    ensures IOTA_SUPPLY < v <= I64_MAX || I64_MIN < v < -IOTA_SUPPLY ==> FromTrits(trits) == Rejected(InvalidValue(v as i64))
    ensures -IOTA_SUPPLY <= v <= IOTA_SUPPLY && v != 0 && trits[6803] != 0 ==> FromTrits(trits) == Rejected(InvalidAddress)
    ensures -IOTA_SUPPLY <= v <= IOTA_SUPPLY && (v == 0 || trits[6803] == 0) ==> FromTrits(trits).Built?
  {
    FirstInvalidIff(trits);
    assert Slice(trits, VALUE) == trits[6804..6885];
    if v > I64_MAX || v < I64_MIN - 1 {
      assert NUMBER_FIELDS[0] == VALUE;
    } else {
      BuildDecided(Assembled(trits));
      assert Assembled(trits).address[242] == trits[6803];
    }
  }

  /** What the builder answers. */
  lemma BuildDecided(tx: Transaction)
    requires |tx.address| == 243
    ensures tx.value as int == I64_MIN <==> Build(tx) == Panics
    ensures tx.value as int > IOTA_SUPPLY || I64_MIN < tx.value as int < -IOTA_SUPPLY <==> Build(tx) == Rejected(InvalidValue(tx.value))
    ensures -IOTA_SUPPLY <= tx.value as int <= IOTA_SUPPLY && tx.value != 0 && tx.address[242] != 0 <==>
      Build(tx) == Rejected(InvalidAddress)
    ensures -IOTA_SUPPLY <= tx.value as int <= IOTA_SUPPLY && (tx.value == 0 || tx.address[242] == 0) <==> Build(tx) == Built(tx)
  {
  }

  /** Reading panics on exactly those trits whose value field holds the smallest `i64`. */
  lemma PanicsIff(trits: seq<Trit>)
    requires |trits| >= TRANSACTION_TRIT_LEN
    ensures FromTrits(trits) == Panics <==> Value(Slice(trits, VALUE)) == I64_MIN
  {
    FirstInvalidIff(trits);
  }

  // ----- Over the network

  function ToByte(b: int): byte
    requires -128 <= b < 128
  {
    if b < 0 then b + 256 else b
  }

  function FromByte(b: byte): int {
    if b >= 128 then b - 256 else b
  }

  /** The bytes are the two's complement of the packed trits. */
  lemma SignedByte(b: byte, x: int)
    requires -128 <= x < 128
    ensures -128 <= FromByte(b) < 128 && (FromByte(b) - b) % 256 == 0
    ensures 0 <= ToByte(x) < 256 && (ToByte(x) - x) % 256 == 0 && FromByte(ToByte(x)) == x
  {
  }

  /** The bytes of the payload field that hold nothing else, and of the whole transaction. */
  lemma PayloadBytes()
    ensures MAX_PAYLOAD_SIZE == 6561 / 5 == Len(PAYLOAD) / 5 && TRANSACTION_BYTE_LEN == (8019 + 4) / 5
    ensures MAX_PAYLOAD_SIZE + NON_PAYLOAD_SIZE == TRANSACTION_BYTE_LEN
  {
  }

  /** The received bytes, read as signed. */
  function Signed(bytes: seq<byte>): (r: seq<int>)
    ensures |r| == |bytes| && forall i :: 0 <= i < |bytes| ==> r[i] == FromByte(bytes[i])
  {
    seq(|bytes|, (i: nat) requires i < |bytes| => FromByte(bytes[i]))
  }

  /** What the transaction worker makes of a received broadcast: nothing when some byte is no packed
      trits, otherwise the transaction read from the unpacked trits. */
  ghost function Received(compressed: seq<byte>): Option<TransactionResult>
    requires NON_PAYLOAD_SIZE <= |compressed| <= TRANSACTION_BYTE_LEN
  {
    var raw := Signed(Uncompressed(compressed));
    if forall i :: 0 <= i < |raw| ==> IsValidByte(5, raw[i])
    then Some(FromTrits(Unpack(5, raw, 5 * |raw| - 1)))
    else None
  }

  /** Packs a transaction's trits and compresses the bytes. A transaction whose numbers fit is received as
      the builder validates it; one that the builder accepts is received as itself if and only if its numbers
      fit their fields. */
  method EncodeForBroadcast(tx: Transaction) returns (compressed: seq<byte>)
    requires Sized(tx)
    ensures NON_PAYLOAD_SIZE <= |compressed| <= TRANSACTION_BYTE_LEN
    ensures Fits(tx) ==> Received(compressed) == Some(Build(tx))
    ensures Build(tx) == Built(tx) ==> (Received(compressed) == Some(Built(tx)) <==> Fits(tx))
  {
    var trits := IntoTritsAllocated(tx, Zeros(TRANSACTION_TRIT_LEN));
    var packed := Pack(trits);
    var bytes := AsBytes(packed);
    assert Signed(bytes) == packed;
    compressed := CompressTransactionBytes(bytes);
    WireReads(trits, bytes);
    if Fits(tx) {
      LayoutReadsBack(tx, trits);
    }
    if Build(tx) == Built(tx) {
      LayoutRoundTripIff(tx, trits);
    }
  }

  /** Whatever bytes pack some trits: compressing, sending, uncompressing and unpacking reads those trits. */
  lemma WireReads(trits: seq<Trit>, bytes: seq<byte>)
    requires |trits| == TRANSACTION_TRIT_LEN && Packs(bytes, trits)
    ensures NON_PAYLOAD_SIZE <= |Compressed(bytes)| <= TRANSACTION_BYTE_LEN
    ensures Received(Compressed(bytes)) == Some(FromTrits(trits))
  {
    CompressionRoundTrip(bytes);
  }

  /** The bytes hold the trits, five to a byte. */
  ghost predicate Packs(bytes: seq<byte>, trits: seq<Trit>) {
    && |bytes| == TRANSACTION_BYTE_LEN && ValidBytes(5, Signed(bytes), |trits|)
    && Unpack(5, Signed(bytes), |trits|) == trits
  }

  /** The whole way: a transaction that the builder accepts arrives as itself if and only if every number,
      cast to an `i64`, fits its field. */
  lemma WireRoundTripIff(tx: Transaction, bytes: seq<byte>)
    requires Sized(tx) && Build(tx) == Built(tx) && Packs(bytes, Layout(tx, Zeros(TRANSACTION_TRIT_LEN)))
    ensures NON_PAYLOAD_SIZE <= |Compressed(bytes)| <= TRANSACTION_BYTE_LEN
    ensures Received(Compressed(bytes)) == Some(Built(tx)) <==> Fits(tx)
  {
    WireReads(Layout(tx, Zeros(TRANSACTION_TRIT_LEN)), bytes);
    LayoutRoundTripIff(tx, Layout(tx, Zeros(TRANSACTION_TRIT_LEN)));
  }

  /** A received broadcast makes the reader panic exactly when its bytes are packed trits whose value field
      holds the smallest `i64`. */
  lemma ReceivedPanicsIff(compressed: seq<byte>)
    requires NON_PAYLOAD_SIZE <= |compressed| <= TRANSACTION_BYTE_LEN
    ensures var raw := Signed(Uncompressed(compressed));
      Received(compressed) == Some(Panics) <==>
        && (forall i :: 0 <= i < |raw| ==> IsValidByte(5, raw[i]))
        && Value(Slice(Unpack(5, raw, 5 * |raw| - 1), VALUE)) == I64_MIN
  {
    var raw := Signed(Uncompressed(compressed));
    if forall i :: 0 <= i < |raw| ==> IsValidByte(5, raw[i]) {
      PanicsIff(Unpack(5, raw, 5 * |raw| - 1));
    }
  }

  /** An all-zero transaction with the given value. */
  function ZeroTransaction(value: i64): Transaction {
    Transaction(Zeros(Len(PAYLOAD)), Zeros(Len(ADDRESS)), value, Zeros(Len(OBSOLETE_TAG)), 0, 0, 0, Zeros(Len(BUNDLE)),
                Zeros(Len(TRUNK)), Zeros(Len(BRANCH)), Zeros(Len(TAG)), 0, 0, 0, Zeros(Len(NONCE)))
  }

  lemma ZeroTransactionFits(value: i64)
    ensures Sized(ZeroTransaction(value)) && Fits(ZeroTransaction(value))
  {
    var tx := ZeroTransaction(value);
    forall f ensures InFieldRange(tx, f) { }
    FitsIff(tx);
  }

  /** An accepted transaction that does not read back: its timestamp is one too large for 27 trits. */
  lemma LargeTimestampLost()
    ensures var tx := ZeroTransaction(0).(timestamp := 3812798742494);
      && Sized(tx) && Build(tx) == Built(tx) && !Fits(tx)
      && FromTrits(Layout(tx, Zeros(TRANSACTION_TRIT_LEN))) != Built(tx)
  {
    var tx := ZeroTransaction(0).(timestamp := 3812798742494);
    FitsIff(tx);
    assert !InFieldRange(tx, TIMESTAMP);
    LayoutRoundTripIff(tx, Layout(tx, Zeros(TRANSACTION_TRIT_LEN)));
  }

  /** A broadcast of allowed size that makes the reader panic: an all-zero transaction but for its value. */
  method PanicWitness() returns (compressed: seq<byte>)
    ensures NON_PAYLOAD_SIZE <= |compressed| <= TRANSACTION_BYTE_LEN && Received(compressed) == Some(Panics)
  {
    var value: i64 := -0x8000_0000_0000_0000;
    ZeroTransactionFits(value);
    compressed := EncodeForBroadcast(ZeroTransaction(value));
  }

  /** Re-encodes plain trits with five trits per byte. */
  method Pack(trits: seq<Trit>) returns (packed: seq<int>)
    ensures |packed| == (|trits| + 4) / 5 && ValidBytes(5, packed, |trits|) && Unpack(5, packed, |trits|) == trits
  {
    var buf := new PackedBuf(5);
    for i := 0 to |trits|
      invariant fresh(buf) && buf.Valid() && buf.tpb == 5 && buf.Contents() == trits[..i]
    {
      buf.Push(trits[i]);
    }
    assert trits[..|trits|] == trits;
    assert |buf.Contents()| == buf.len;
    BytesForRoundsUp(5, |trits|);
    packed := buf.bytes;
  }

  method AsBytes(packed: seq<int>) returns (bytes: seq<byte>)
    requires forall i :: 0 <= i < |packed| ==> IsValidByte(5, packed[i])
    ensures |bytes| == |packed| && forall i :: 0 <= i < |packed| ==> FromByte(bytes[i]) == packed[i]
  {
    bytes := [];
    for i := 0 to |packed|
      invariant |bytes| == i && forall k :: 0 <= k < i ==> FromByte(bytes[k]) == packed[k]
    {
      assert MaxValue(5) == 121;
      bytes := bytes + [ToByte(packed[i])];
    }
  }

  /** Uncompresses, checks every byte, unpacks and reads the transaction. */
  method DecodeBroadcast(compressed: seq<byte>) returns (r: Option<TransactionResult>)
    requires NON_PAYLOAD_SIZE <= |compressed| <= TRANSACTION_BYTE_LEN
    ensures r == Received(compressed)
  {
    var bytes := UncompressTransactionBytes(compressed);
    var raw := Signed(bytes);
    var i := 0;
    while i < |raw|
      invariant 0 <= i <= |raw| && forall k :: 0 <= k < i ==> IsValidByte(5, raw[k])
    {
      if !IsValidByte(5, raw[i]) {
        return None;
      }
      i := i + 1;
    }
    var trits := UnpackAll(raw, 5 * |raw| - 1);
    r := Some(FromTrits(trits));
  }

  method UnpackAll(raw: seq<int>, n: nat) returns (trits: seq<Trit>)
    requires ValidBytes(5, raw, n)
    ensures trits == Unpack(5, raw, n)
  {
    trits := [];
    for i := 0 to n
      invariant |trits| == i && forall k :: 0 <= k < i ==> trits[k] == Unpack(5, raw, n)[k]
    {
      UnpackAt(5, raw, n, i);
      trits := trits + [Extract(5, raw[i / 5], i % 5)];
    }
  }
}
