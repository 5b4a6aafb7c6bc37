/**
 From an incoming bundle to the ledger: validation, the balance changes of a bundle, and their
 application to the balances.
 */
module Ledger {

  import opened Common

  const U64 := U64_MAX + 1

  /** With at most this many transactions no sum of the code leaves the range of an `i64`. */
  const MAX_BUNDLE_LEN := 3317

  /** Addresses and hashes are only compared, so they are modelled by integers. */
  type Address = int
  type Hash = int

  datatype Transaction = Transaction(address: Address, value: int, index: nat, lastIndex: nat, bundle: Hash, branch: Hash)

  /** Every built transaction has a value within the supply. */
  predicate Built(txs: seq<Transaction>) {
    forall i :: 0 <= i < |txs| ==> -IOTA_SUPPLY <= txs[i].value <= IOTA_SUPPLY
  }

  // ----- Validation

  datatype ValidationError =
    | Empty
    | InvalidIndex(index: nat)
    | InvalidLastIndex(lastIndex: nat)
    | InvalidValue(value: int)
    | InvalidSignature
    | InvalidBundleHash
    | InvalidBranchInconsistency

  datatype ValidationResult = Validated | Invalid(error: ValidationError)

  function ValueSum(txs: seq<Transaction>, n: nat): int
    requires n <= |txs|
  {
    if n == 0 then 0 else ValueSum(txs, n - 1) + txs[n - 1].value
  }

  /** What the checks amount to, given the outcome of hashing and of the signature check. */
  ghost predicate Consistent(txs: seq<Transaction>, hash: Hash, signaturesValid: bool) {
    && txs != []
    && (forall i :: 0 <= i < |txs| ==>
          txs[i].index == i && txs[i].lastIndex == |txs| - 1 && txs[i].branch == txs[0].branch)
    && (forall n :: 0 <= n <= |txs| ==> -IOTA_SUPPLY <= ValueSum(txs, n) <= IOTA_SUPPLY)
    && txs[0].bundle == hash
    && ValueSum(txs, |txs|) == 0
    && signaturesValid
  }

  /** The sum of the first `n` values is beyond the supply, or not zero at the end. */
  predicate CountsAgainst(txs: seq<Transaction>, n: nat)
    requires n <= |txs|
  {
    var v := ValueSum(txs, n);
    v < -IOTA_SUPPLY || v > IOTA_SUPPLY || (n == |txs| && v != 0)
  }

  /** The running sum stays far within an `i64`. */
  method Validate(txs: seq<Transaction>, hash: Hash, signaturesValid: bool) returns (r: ValidationResult)
    requires Built(txs)
    ensures r == Validated <==> Consistent(txs, hash, signaturesValid)
    ensures r == Invalid(Empty) <==> txs == []
    ensures r.Invalid? && r.error.InvalidIndex? ==> exists i :: 0 <= i < |txs| && txs[i].index == r.error.index != i
    ensures r.Invalid? && r.error.InvalidLastIndex? ==>
      exists i :: 0 <= i < |txs| && txs[i].lastIndex == r.error.lastIndex != |txs| - 1
    ensures r.Invalid? && r.error.InvalidValue? ==>
      exists n :: 0 <= n <= |txs| && r.error.value == ValueSum(txs, n) && CountsAgainst(txs, n)
    ensures r == Invalid(InvalidSignature) ==> !signaturesValid
    ensures r == Invalid(InvalidBundleHash) ==> txs != [] && txs[0].bundle != hash
    ensures r == Invalid(InvalidBranchInconsistency) ==> exists i :: 0 <= i < |txs| && txs[i].branch != txs[0].branch
  {
    var sum := 0;
    if |txs| == 0 {
      return Invalid(Empty);
    }
    var lastIndex := |txs| - 1;
    var firstBranch := txs[0].branch;
    for i := 0 to |txs|
      invariant sum == ValueSum(txs, i)
      invariant forall n :: 0 <= n <= i ==> -IOTA_SUPPLY <= ValueSum(txs, n) <= IOTA_SUPPLY
      invariant forall k :: 0 <= k < i ==> txs[k].index == k && txs[k].lastIndex == lastIndex && txs[k].branch == firstBranch
      invariant i > 0 ==> txs[0].bundle == hash
    {
      var tx := txs[i];
      if i != tx.index {
        return Invalid(InvalidIndex(tx.index));
      }
      if lastIndex != tx.lastIndex {
        return Invalid(InvalidLastIndex(tx.lastIndex));
      }
      sum := sum + tx.value;
      assert -I64_MAX <= sum <= I64_MAX && sum == ValueSum(txs, i + 1);
      if sum > IOTA_SUPPLY || -sum > IOTA_SUPPLY {
        return Invalid(InvalidValue(sum));
      }
      if i == 0 && hash != tx.bundle {
        return Invalid(InvalidBundleHash);
      }
      if i > 0 && tx.branch != firstBranch {
        return Invalid(InvalidBranchInconsistency);
      }
    }
    if sum != 0 {
      return Invalid(InvalidValue(sum));
    }
    if !signaturesValid {
      return Invalid(InvalidSignature);
    }
    r := Validated;
  }

  // ----- Sums over maps

  lemma SomeElement(s: set<Address>)
    requires s != {}
    ensures exists k :: k in s
  {
    assert (forall k :: k !in s) ==> s == {};
  }

  ghost function Total(m: map<Address, int>): int
    decreases |m|
  {
    if m.Keys == {} then 0
    else
      SomeElement(m.Keys);
      var k :| k in m.Keys;
      m[k] + Total(m - {k})
  }

  /** The order in which a map is summed does not matter. */
  lemma {:induction false} TotalRemove(m: map<Address, int>, k: Address)
    requires k in m
    ensures Total(m) == m[k] + Total(m - {k})
    decreases |m|
  {
    var c :| c in m.Keys && Total(m) == m[c] + Total(m - {c});
    if c != k {
      TotalRemove(m - {c}, k);
      TotalRemove(m - {k}, c);
      assert m - {c} - {k} == m - {k} - {c};
    }
  }

  function At(m: map<Address, int>, k: Address): int {
    if k in m then m[k] else 0
  }

  lemma TotalUpdate(m: map<Address, int>, k: Address, v: int)
    ensures Total(m[k := v]) == Total(m) - At(m, k) + v
  {
    TotalRemove(m[k := v], k);
    assert m[k := v] - {k} == m - {k};
    if k in m {
      TotalRemove(m, k);
    } else {
      assert m - {k} == m;
    }
  }

  predicate NonNegative(m: map<Address, int>) {
    forall a :: a in m ==> m[a] >= 0
  }

  lemma {:induction false} TotalNonNegative(m: map<Address, int>)
    requires NonNegative(m)
    ensures Total(m) >= 0
    decreases |m|
  {
    if m.Keys != {} {
      SomeElement(m.Keys);
      var k :| k in m.Keys;
      TotalRemove(m, k);
      TotalNonNegative(m - {k});
    }
  }

  lemma PartAtMostTotal(m: map<Address, int>, a: Address)
    requires NonNegative(m) && a in m
    ensures m[a] <= Total(m)
  {
    TotalRemove(m, a);
    TotalNonNegative(m - {a});
  }

  /** Raising entries raises the total, unless nothing was raised. */
  lemma {:induction false} TotalMonotone(m: map<Address, int>, n: map<Address, int>)
    requires m.Keys == n.Keys && forall a :: a in m ==> m[a] <= n[a]
    ensures Total(m) <= Total(n) && (Total(m) == Total(n) <==> m == n)
    decreases |m|
  {
    if m.Keys == {} {
      assert m == n;
    } else {
      SomeElement(m.Keys);
      var k :| k in m.Keys;
      TotalRemove(m, k);
      TotalRemove(n, k);
      TotalMonotone(m - {k}, n - {k});
      if m - {k} == n - {k} && m[k] == n[k] {
        assert m == (m - {k})[k := m[k]] && n == (n - {k})[k := n[k]];
      }
    }
  }

  // ----- The balance changes of a bundle

  /** The changes after the first `n` transactions. */
  function Diff(txs: seq<Transaction>, n: nat): map<Address, int>
    requires n <= |txs|
  {
    if n == 0 then map[]
    else
      var d, t := Diff(txs, n - 1), txs[n - 1];
      if t.value == 0 then d else d[t.address := At(d, t.address) + t.value]
  }

  /** The sum of the values of one address. */
  function AddressSum(txs: seq<Transaction>, n: nat, a: Address): int
    requires n <= |txs|
  {
    if n == 0 then 0
    else AddressSum(txs, n - 1, a) + (if txs[n - 1].address == a then txs[n - 1].value else 0)
  }

  /** The change of an address is the sum of its values; an address has an entry exactly when some
      transaction moves its balance. The changes together sum to the values of the bundle. */
  lemma {:induction false} DiffMeaning(txs: seq<Transaction>, n: nat)
    requires n <= |txs|
    ensures Total(Diff(txs, n)) == ValueSum(txs, n)
    ensures forall a :: At(Diff(txs, n), a) == AddressSum(txs, n, a)
    ensures forall a :: a in Diff(txs, n) <==> exists i :: 0 <= i < n && txs[i].address == a && txs[i].value != 0
  {
    if n > 0 {
      DiffMeaning(txs, n - 1);
      var d, t := Diff(txs, n - 1), txs[n - 1];
      if t.value != 0 {
        TotalUpdate(d, t.address, At(d, t.address) + t.value);
      }
    }
  }

  lemma {:induction false} DiffBound(txs: seq<Transaction>, n: nat, a: Address)
    requires n <= |txs| && Built(txs)
    ensures -(n * IOTA_SUPPLY) <= At(Diff(txs, n), a) <= n * IOTA_SUPPLY
  {
    if n > 0 { DiffBound(txs, n - 1, a); }
  }

  /** No partial sum of the values of an address leaves the range of an `i64`. */
  ghost predicate SumsFit(txs: seq<Transaction>) {
    forall n, a :: 0 <= n <= |txs| ==> I64_MIN <= AddressSum(txs, n, a) <= I64_MAX
  }

  /** Accumulates the changes, for bundles of any length; none is returned exactly when an entry would leave
      the range of an `i64`, where the code panics. */
  method LedgerDiff(txs: seq<Transaction>) returns (diff: Option<map<Address, int>>)
    ensures diff.Some? <==> SumsFit(txs)
    ensures diff.Some? ==> diff.value == Diff(txs, |txs|)
  {
    var d: map<Address, int> := map[];
    for i := 0 to |txs|
      invariant d == Diff(txs, i)
      invariant forall n, a :: 0 <= n <= i ==> I64_MIN <= AddressSum(txs, n, a) <= I64_MAX
    {
      DiffMeaning(txs, i);
      var a := txs[i].address;
      if txs[i].value != 0 {
        var sum := At(d, a) + txs[i].value;
        assert sum == AddressSum(txs, i + 1, a);
        if sum < I64_MIN || sum > I64_MAX {
          return None;
        }
        d := d[a := sum];
      }
      assert forall b :: b != a || txs[i].value == 0 ==> AddressSum(txs, i + 1, b) == AddressSum(txs, i, b);
    }
    diff := Some(d);
  }

  /** Bundles of up to 3317 transactions never do. */
  lemma ShortSumsFit(txs: seq<Transaction>)
    requires Built(txs) && |txs| <= MAX_BUNDLE_LEN
    ensures SumsFit(txs)
  {
    forall n, a | 0 <= n <= |txs|
      ensures I64_MIN <= AddressSum(txs, n, a) <= I64_MAX
    {
      DiffBound(txs, n, a);
      DiffMeaning(txs, n);
    }
  }

  // ----- Applying changes

  type Balances = map<Address, int>
  type Changes = map<Address, int>

  /** Balances are `u64` in the code, changes `i64`. */
  predicate AreBalances(state: Balances) {
    forall a :: a in state ==> 0 <= state[a] <= U64_MAX
  }

  predicate AreChanges(diff: Changes) {
    forall a :: a in diff ==> I64_MIN <= diff[a] <= I64_MAX
  }

  function Known(state: Balances, a: Address): Option<int> {
    if a in state then Some(state[a]) else None
  }

  function OrZero(b: Option<int>): int {
    if b.Some? then b.value else 0
  }

  /** The balance of an address after a change, with the casts of the code: a known balance is cast to an
      `i64`, and a sum below zero is ignored; a new address gets the change cast to a `u64`. There is none
      where the sum leaves the range of an `i64`, on which the code panics. */
  function Changed(known: Option<int>, v: int): Option<int> {
    match known
    case None => Some(ToU64(v))
    case Some(b) =>
      var sum := ToI64(b) + v;
      if sum < I64_MIN || sum > I64_MAX then None else if sum >= 0 then Some(ToU64(sum)) else Some(b)
  }

  /** The change takes effect as it should. */
  predicate Exact(known: Option<int>, v: int) {
    match known
    case None => v >= 0
    case Some(b) => v == 0 || (b <= I64_MAX && 0 <= b + v <= I64_MAX)
  }

  /** For every balance and every change: a balance moves by its change if and only if the address is new
      and the change not negative, or the change is zero, or both the balance and the result are numbers of
      an `i64` that are not negative. */
  lemma ChangedIff(known: Option<int>, v: int)
    requires (known.Some? ==> 0 <= known.value <= U64_MAX) && I64_MIN <= v <= I64_MAX
    ensures Changed(known, v) == Some(OrZero(known) + v) <==> Exact(known, v)
  {
  }

  /** And where it does not: a new address gets the change modulo `2^64`; a change that would make a balance
      negative is ignored and the balance stays; a balance above the range of an `i64` counts as negative; and
      a sum out of the range of an `i64` is no balance. */
  lemma ChangedCases(known: Option<int>, v: int)
    requires (known.Some? ==> 0 <= known.value <= U64_MAX) && I64_MIN <= v <= I64_MAX
    ensures known.None? && v < 0 ==> Changed(known, v) == Some(v + 0x1_0000_0000_0000_0000)
    ensures known.Some? && known.value <= I64_MAX && known.value + v < 0 ==> Changed(known, v) == known
    ensures known.Some? && known.value <= I64_MAX && known.value + v > I64_MAX ==> Changed(known, v) == None
    ensures known.Some? && known.value > I64_MAX ==>
      var sum := known.value - 0x1_0000_0000_0000_0000 + v;
      Changed(known, v) == if sum < I64_MIN then None else if sum >= 0 then Some(sum) else known
  {
  }

  function NewBalance(state: Balances, a: Address, v: int): int {
    match Changed(Known(state, a), v)
    case Some(b) => b
    case None => OrZero(Known(state, a))
  }

  /** The balances after applying all changes. */
  function Applied(state: Balances, diff: Changes): (r: map<Address, int>)
    ensures r.Keys == state.Keys + diff.Keys
    ensures forall a :: a in r ==> r[a] == if a in diff then NewBalance(state, a, diff[a]) else state[a]
  {
    map a | a in state.Keys + diff.Keys :: if a in diff then NewBalance(state, a, diff[a]) else state[a]
  }

  lemma AppliedAreBalances(state: Balances, diff: Changes)
    requires AreBalances(state) && AreChanges(diff)
    ensures AreBalances(Applied(state, diff))
  {
  }

  /** The code does not panic. */
  predicate NoOverflow(state: Balances, diff: Changes) {
    forall a :: a in diff ==> Changed(Known(state, a), diff[a]).Some?
  }

  predicate AllExact(state: Balances, diff: Changes) {
    forall a :: a in diff ==> Exact(Known(state, a), diff[a])
  }

  /** What applying changes should do: every address moves by its change. */
  function Moved(state: Balances, diff: Changes): (r: map<Address, int>)
    ensures r.Keys == state.Keys + diff.Keys
    ensures forall a :: a in r ==> r[a] == At(state, a) + At(diff, a)
  {
    map a | a in state.Keys + diff.Keys :: At(state, a) + At(diff, a)
  }

  /** Applying changes does what it should if and only if every one of them takes effect as it should. */
  lemma AppliedExactIff(state: Balances, diff: Changes)
    requires AreBalances(state) && AreChanges(diff)
    ensures NoOverflow(state, diff) && Applied(state, diff) == Moved(state, diff) <==> AllExact(state, diff)
  {
    forall a | a in diff
      ensures Changed(Known(state, a), diff[a]) == Some(At(state, a) + diff[a]) <==> Exact(Known(state, a), diff[a])
    {
      ChangedIff(Known(state, a), diff[a]);
    }
    if NoOverflow(state, diff) && Applied(state, diff) == Moved(state, diff) {
      forall a | a in diff ensures Exact(Known(state, a), diff[a]) {
        assert Applied(state, diff)[a] == Moved(state, diff)[a];
      }
    }
  }

  lemma {:induction false} MovedTotal(state: Balances, diff: Changes)
    ensures Total(Moved(state, diff)) == Total(state) + Total(diff)
    decreases |diff|
  {
    if diff.Keys == {} {
      assert Moved(state, diff) == state;
    } else {
      SomeElement(diff.Keys);
      var k :| k in diff.Keys;
      MovedTotal(state, diff - {k});
      MovedLastTotal(state, diff, k);
    }
  }

  lemma {:induction false} MovedLastTotal(state: Balances, diff: Changes, k: Address)
    requires k in diff
    ensures Total(Moved(state, diff)) - Total(diff) == Total(Moved(state, diff - {k})) - Total(diff - {k})
  {
    var before, v := Moved(state, diff - {k}), At(state, k) + diff[k];
    MovedLast(state, diff, k);
    assert Total(before[k := v]) == Total(before) - At(before, k) + v by { TotalUpdate(before, k, v); }
    assert Total(diff) == diff[k] + Total(diff - {k}) by { TotalRemove(diff, k); }
  }

  lemma MovedLast(state: Balances, diff: Changes, k: Address)
    requires k in diff
    ensures Moved(state, diff) == Moved(state, diff - {k})[k := At(state, k) + diff[k]]
    ensures At(Moved(state, diff - {k}), k) == At(state, k)
  {
  }

  /** No balance would go below zero, and no new address starts below zero. */
  predicate NoConflict(state: Balances, diff: Changes) {
    forall a :: a in diff ==> At(state, a) + diff[a] >= 0
  }

  /** Every balance, before and after, is a number of an `i64`. */
  predicate FitsI64(state: Balances, diff: Changes) {
    && AreChanges(diff) && (forall a :: a in state ==> 0 <= state[a] <= I64_MAX)
    && (forall a :: a in diff ==> At(state, a) + diff[a] <= I64_MAX)
  }

  /** On such balances nothing panics, applying changes never loses tokens, and creates some exactly when
      there is a conflict: the total changes by the total of the changes if and only if nothing conflicts. */
  lemma AppliedTotal(state: Balances, diff: Changes)
    requires FitsI64(state, diff)
    ensures NoOverflow(state, diff)
    ensures Total(Applied(state, diff)) >= Total(state) + Total(diff)
    ensures Total(Applied(state, diff)) == Total(state) + Total(diff) <==> NoConflict(state, diff)
  {
    MovedTotal(state, diff);
    MovedBelowApplied(state, diff);
    TotalMonotone(Moved(state, diff), Applied(state, diff));
  }

  lemma MovedBelowApplied(state: Balances, diff: Changes)
    requires FitsI64(state, diff)
    ensures NoOverflow(state, diff)
    ensures forall a :: a in Moved(state, diff) ==> Moved(state, diff)[a] <= Applied(state, diff)[a]
    ensures Moved(state, diff) == Applied(state, diff) <==> NoConflict(state, diff)
  {
    forall a | a in diff
      ensures Changed(Known(state, a), diff[a]).Some? && Moved(state, diff)[a] <= Applied(state, diff)[a]
      ensures Moved(state, diff)[a] == Applied(state, diff)[a] <==> At(state, a) + diff[a] >= 0
    {
      AppliedAbove(Known(state, a), diff[a]);
    }
  }

  lemma AppliedAbove(known: Option<int>, v: int)
    requires known.Some? ==> 0 <= known.value <= I64_MAX
    requires I64_MIN <= v <= I64_MAX && OrZero(known) + v <= I64_MAX
    ensures var r, ideal := Changed(known, v), OrZero(known) + v;
      r.Some? && r.value >= ideal && (r.value == ideal <==> ideal >= 0)
  {
  }

  // ----- Where it goes wrong

  lemma TotalOfTwo(x: int, y: int)
    ensures Total(map[1 := x, 2 := y]) == x + y
  {
    var empty: map<Address, int> := map[];
    assert map[1 := x, 2 := y] == empty[1 := x][2 := y];
    TotalUpdate(empty, 1, x);
    TotalUpdate(empty[1 := x], 2, y);
  }

  /** A negative change of an unknown address, which the cast turns into a huge balance, creates tokens
      although the changes cancel out. */
  lemma TokensCreated(amount: int)
    requires 0 < amount <= IOTA_SUPPLY
    ensures var state, diff, after := map[1 := 0], map[1 := amount, 2 := -amount], map[1 := amount, 2 := U64 - amount];
      && Total(diff) == 0 && Total(state) == 0
      && Applied(state, diff) == after && Total(after) == U64
  {
    TotalOfTwo(amount, -amount);
    TotalOfTwo(amount, U64 - amount);
    TotalRemove(map[1 := 0], 1);
    assert map[1 := 0] - {1} == map[];
    var state, diff := map[1 := 0], map[1 := amount, 2 := -amount];
    assert NewBalance(state, 1, amount) == amount && NewBalance(state, 2, -amount) == U64 - amount;
  }

  /** On the balances that this leaves behind, the opposite changes make all tokens vanish, although they
      cancel out and nothing would go below zero: the huge balance is cast to a negative number. */
  lemma TokensLost(amount: int)
    requires 0 < amount <= IOTA_SUPPLY
    ensures var state, diff, after := map[1 := amount, 2 := U64 - amount], map[1 := -amount, 2 := amount], map[1 := 0, 2 := 0];
      && Total(diff) == 0 && Total(state) == U64 && NoConflict(state, diff) && NoOverflow(state, diff)
      && Applied(state, diff) == after && Total(after) == 0 && !AllExact(state, diff)
  {
    TotalOfTwo(-amount, amount);
    TotalOfTwo(amount, U64 - amount);
    TotalOfTwo(0, 0);
    var state, diff := map[1 := amount, 2 := U64 - amount], map[1 := -amount, 2 := amount];
    assert NewBalance(state, 1, -amount) == 0 && NewBalance(state, 2, amount) == 0;
    assert !Exact(Known(state, 2), diff[2]);
  }

  // ----- Whole runs

  /** The balances after applying the changes one map after the other. */
  function AppliedAll(state: Balances, diffs: seq<Changes>): Balances
    decreases |diffs|
  {
    if diffs == [] then state else AppliedAll(Applied(state, diffs[0]), diffs[1..])
  }

  /** Every map of changes is free of conflicts when its turn comes. */
  ghost predicate ConflictFree(state: Balances, diffs: seq<Changes>)
    decreases |diffs|
  {
    diffs == [] || (NoConflict(state, diffs[0]) && ConflictFree(Applied(state, diffs[0]), diffs[1..]))
  }

  lemma ConflictFreeUnfolds(state: Balances, diff: Changes, diffs: seq<Changes>)
    ensures ConflictFree(state, [])
    ensures ConflictFree(state, [diff] + diffs) <==>
      (forall a :: a in diff ==> At(state, a) + diff[a] >= 0) && ConflictFree(Applied(state, diff), diffs)
  {
    assert ([diff] + diffs)[1..] == diffs;
  }

  /** The changes cancel out. */
  ghost predicate Balanced(diff: Changes) {
    AreChanges(diff) && Total(diff) == 0
  }

  /** Within the supply, changes that cancel out and do not conflict leave no balance above the supply, so
      that every change takes effect as it should and the total stays. */
  lemma BalancedStep(state: Balances, diff: Changes)
    requires AreBalances(state) && Total(state) <= IOTA_SUPPLY
    requires Balanced(diff) && NoConflict(state, diff)
    ensures AreBalances(Applied(state, diff))
    ensures AllExact(state, diff) && NoOverflow(state, diff) && Applied(state, diff) == Moved(state, diff)
    ensures Total(Applied(state, diff)) == Total(state)
  {
    var moved := Moved(state, diff);
    MovedTotal(state, diff);
    assert NonNegative(moved);
    forall a | a in diff ensures Exact(Known(state, a), diff[a]) {
      PartAtMostTotal(moved, a);
      if a in state { PartAtMostTotal(state, a); }
    }
    AppliedExactIff(state, diff);
  }

  /** Any number of balanced changes without conflict keep the total, so that no balance ever exceeds it. */
  lemma {:induction false} BalancedDiffsConserve(state: Balances, diffs: seq<Changes>)
    requires AreBalances(state) && Total(state) <= IOTA_SUPPLY && ConflictFree(state, diffs)
    requires forall i :: 0 <= i < |diffs| ==> Balanced(diffs[i])
    ensures Total(AppliedAll(state, diffs)) == Total(state)
    ensures forall a :: a in AppliedAll(state, diffs) ==> 0 <= AppliedAll(state, diffs)[a] <= Total(state)
    decreases |diffs|
  {
    if diffs == [] {
      forall a | a in state ensures state[a] <= Total(state) { PartAtMostTotal(state, a); }
    } else {
      BalancedStep(state, diffs[0]);
      BalancedDiffsConserve(Applied(state, diffs[0]), diffs[1..]);
    }
  }

  /** A bundle of any length that passed validation and whose changes could be accumulated. */
  ghost predicate ValidBundle(txs: seq<Transaction>) {
    SumsFit(txs) && exists hash :: Consistent(txs, hash, true)
  }

  /** What validation accepts is such a bundle, if its changes can be accumulated. */
  lemma ValidatedIsValid(txs: seq<Transaction>, hash: Hash)
    requires Consistent(txs, hash, true)
    ensures ValidBundle(txs) <==> SumsFit(txs)
  {
  }

  lemma ValidBundleIsBalanced(txs: seq<Transaction>)
    requires ValidBundle(txs)
    ensures Balanced(Diff(txs, |txs|))
  {
    DiffMeaning(txs, |txs|);
    forall a | a in Diff(txs, |txs|) ensures I64_MIN <= Diff(txs, |txs|)[a] <= I64_MAX {
      assert At(Diff(txs, |txs|), a) == AddressSum(txs, |txs|, a);
    }
  }

  function BundleDiffs(bundles: seq<seq<Transaction>>): (diffs: seq<Changes>)
    ensures |diffs| == |bundles| && forall i :: 0 <= i < |bundles| ==> diffs[i] == Diff(bundles[i], |bundles[i]|)
  {
    seq(|bundles|, i requires 0 <= i < |bundles| => Diff(bundles[i], |bundles[i]|))
  }

  /** Supply conservation: on a ledger within the supply, applying the changes of any number of validated
      bundles, without conflict, keeps the total, and no balance ever exceeds it. */
  lemma SupplyConserved(state: Balances, bundles: seq<seq<Transaction>>)
    requires AreBalances(state) && Total(state) <= IOTA_SUPPLY && ConflictFree(state, BundleDiffs(bundles))
    requires forall i :: 0 <= i < |bundles| ==> ValidBundle(bundles[i])
    ensures var after := AppliedAll(state, BundleDiffs(bundles));
      Total(after) == Total(state) && forall a :: a in after ==> 0 <= after[a] <= Total(state)
  {
    forall i | 0 <= i < |bundles| ensures Balanced(BundleDiffs(bundles)[i]) {
      ValidBundleIsBalanced(bundles[i]);
    }
    BalancedDiffsConserve(state, BundleDiffs(bundles));
  }

  // ----- The worker

  datatype LedgerEvent = ApplyDiff(diff: Changes) | GetBalance(address: Address)

  function Diffs(events: seq<LedgerEvent>): seq<Changes> {
    if events == [] then []
    else (if events[0].ApplyDiff? then [events[0].diff] else []) + Diffs(events[1..])
  }

  function NextBalances(state: Balances, event: LedgerEvent): Balances {
    if event.ApplyDiff? then Applied(state, event.diff) else state
  }

  /** A question is answered, a change is not. */
  function Reply(state: Balances, event: LedgerEvent): seq<Option<int>> {
    match event
    case ApplyDiff(_) => []
    case GetBalance(a) => [Known(state, a)]
  }

  /** Each question is answered with the balance after all changes sent before it. */
  function Replies(state: Balances, events: seq<LedgerEvent>): seq<Option<int>>
    decreases |events|
  {
    if events == [] then [] else Reply(state, events[0]) + Replies(NextBalances(state, events[0]), events[1..])
  }

  /** The ledger is within the supply, and all changes to come cancel out and are free of conflicts. */
  ghost predicate Ready(state: Balances, events: seq<LedgerEvent>) {
    && AreBalances(state) && Total(state) <= IOTA_SUPPLY && ConflictFree(state, Diffs(events))
    && forall i :: 0 <= i < |events| && events[i].ApplyDiff? ==> Balanced(events[i].diff)
  }

  /** The first event can be served, and the others after it. */
  lemma ServeOne(state: Balances, events: seq<LedgerEvent>)
    requires events != [] && Ready(state, events)
    ensures Servable(state, events[0])
    ensures var next := NextBalances(state, events[0]);
      && Ready(next, events[1..]) && Total(next) == Total(state)
      && AppliedAll(state, Diffs(events)) == AppliedAll(next, Diffs(events[1..]))
  {
    if events[0].ApplyDiff? {
      assert Diffs(events)[0] == events[0].diff && Diffs(events)[1..] == Diffs(events[1..]);
      BalancedStep(state, events[0].diff);
    } else {
      assert Diffs(events) == Diffs(events[1..]);
    }
  }

  predicate Servable(state: Balances, event: LedgerEvent) {
    event.ApplyDiff? ==> NoOverflow(state, event.diff)
  }

  /** The balances after serving the events in order. */
  function Served(state: Balances, events: seq<LedgerEvent>): Balances
    decreases |events|
  {
    if events == [] then state else Served(NextBalances(state, events[0]), events[1..])
  }

  lemma AppendReply(state: Balances, events: seq<LedgerEvent>, replies: seq<Option<int>>)
    requires events != []
    ensures replies + Replies(state, events)
         == replies + Reply(state, events[0]) + Replies(NextBalances(state, events[0]), events[1..])
  {
  }

  /** No change to come makes the worker panic. */
  ghost predicate AllServable(state: Balances, events: seq<LedgerEvent>)
    decreases |events|
  {
    events == [] || (Servable(state, events[0]) && AllServable(NextBalances(state, events[0]), events[1..]))
  }

  lemma {:induction false} ReadyIsServed(state: Balances, events: seq<LedgerEvent>)
    requires Ready(state, events)
    ensures AllServable(state, events) && Served(state, events) == AppliedAll(state, Diffs(events))
    ensures Total(Served(state, events)) == Total(state)
    decreases |events|
  {
    if events != [] {
      ServeOne(state, events);
      ReadyIsServed(NextBalances(state, events[0]), events[1..]);
    }
  }

  class LedgerWorker {
    var state: Balances

    /** Applies the changes one by one, in whatever order the map hands them out: neither the result nor
        whether it panics depends on the order. A panic leaves a part of the changes applied. */
    method ApplyDiff(diff: Changes) returns (ok: bool)
      modifies this
      ensures ok <==> NoOverflow(old(state), diff)
      ensures ok ==> state == Applied(old(state), diff)
      ensures !ok ==> exists left: set<Address> :: state == Applied(old(state), diff - left)
      ensures AreBalances(old(state)) && AreChanges(diff) ==> AreBalances(state)
    {
      ghost var before := state;
      var left := diff.Keys;
      while left != {}
        invariant left <= diff.Keys && state == Applied(before, diff - left)
        invariant forall a :: a in diff && a !in left ==> Changed(Known(before, a), diff[a]).Some?
        decreases left
      {
        SomeElement(left);
        var key :| key in left;
        UntouchedYet(before, diff, left, key);
        var changed := ChangeBalance(key, diff[key]);
        if !changed {
          if AreBalances(before) && AreChanges(diff) { AppliedAreBalances(before, diff - left); }
          return false;
        }
        ApplyOneMore(before, diff, left, key);
        left := left - {key};
      }
      assert diff - {} == diff;
      if AreBalances(before) && AreChanges(diff) { AppliedAreBalances(before, diff); }
      ok := true;
    }

    /** The entry of one address. */
    method ChangeBalance(key: Address, value: int) returns (ok: bool)
      modifies this
      ensures ok <==> Changed(Known(old(state), key), value).Some?
      ensures state == if ok then old(state)[key := NewBalance(old(state), key, value)] else old(state)
    {
      if key in state {
        var sum := ToI64(state[key]) + value;
        if sum < I64_MIN || sum > I64_MAX {
          return false;
        }
        if sum >= 0 {
          state := state[key := ToU64(sum)];
        } else {
          assert state == state[key := state[key]];
        }
      } else {
        state := state[key := ToU64(value)];
      }
      ok := true;
    }

    method Serve(event: LedgerEvent) returns (reply: seq<Option<int>>)
      requires Servable(state, event)
      modifies this
      ensures state == NextBalances(old(state), event) && reply == Reply(old(state), event)
    {
      match event
      case ApplyDiff(diff) =>
        var ok := ApplyDiff(diff);
        reply := [];
      case GetBalance(address) =>
        reply := [if address in state then Some(state[address]) else None];
    }

    /** Serves the messages in order. As long as the balances make up at most the supply and the changes
        cancel out and are free of conflicts, no call panics, and the total stays. */
    method Run(events: seq<LedgerEvent>) returns (replies: seq<Option<int>>)
      requires AreBalances(state) && Total(state) <= IOTA_SUPPLY && ConflictFree(state, Diffs(events))
      requires forall i :: 0 <= i < |events| && events[i].ApplyDiff? ==> AreChanges(events[i].diff) && Total(events[i].diff) == 0
      modifies this
      ensures state == AppliedAll(old(state), Diffs(events)) && Total(state) == Total(old(state))
      ensures replies == Replies(old(state), events)
    {
      ReadyIsServed(state, events);
      replies := ServeAll(events);
    }

    /** The loop over the messages. */
    method ServeAll(events: seq<LedgerEvent>) returns (replies: seq<Option<int>>)
      requires AllServable(state, events)
      modifies this
      ensures state == Served(old(state), events) && replies == Replies(old(state), events)
    {
      replies := [];
      var left := events;
      while left != []
        invariant AllServable(state, left)
        invariant Served(state, left) == Served(old(state), events)
        invariant replies + Replies(state, left) == Replies(old(state), events)
        decreases |left|
      {
        AppendReply(state, left, replies);
        var reply := Serve(left[0]);
        replies := replies + reply;
        left := left[1..];
      }
    }
  }

  lemma UntouchedYet(state: Balances, diff: Changes, left: set<Address>, k: Address)
    requires k in left
    ensures Known(Applied(state, diff - left), k) == Known(state, k)
  {
  }

  lemma ApplyOneMore(state: Balances, diff: Changes, left: set<Address>, k: Address)
    requires k in left && k in diff
    ensures Applied(state, diff - (left - {k})) == Applied(state, diff - left)[k := NewBalance(state, k, diff[k])]
  {
  }
}
