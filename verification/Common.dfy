/** What several parts of the node share. */
module Common {

  datatype Option<T> = None | Some(value: T)

  /** An unsigned byte, as it travels over the network. */
  type byte = b: int | 0 <= b < 256

  const I64_MAX := 0x7FFF_FFFF_FFFF_FFFF
  const I64_MIN := -0x8000_0000_0000_0000
  const U32_MAX := 0xFFFF_FFFF
  const U64_MAX := 0xFFFF_FFFF_FFFF_FFFF

  newtype i64 = x: int | I64_MIN <= x <= I64_MAX
  newtype u32 = x: int | 0 <= x <= U32_MAX
  newtype u64 = x: int | 0 <= x <= U64_MAX

  /** The casts between the 64-bit types keep the bits. */
  function ToI64(x: int): int {
    if x <= I64_MAX then x else x - U64_MAX - 1
  }

  function ToU64(x: int): int {
    if x >= 0 then x else x + U64_MAX + 1
  }

  function U64AsI64(x: u64): i64 {
    ToI64(x as int) as i64
  }

  function I64AsU64(x: i64): u64 {
    ToU64(x as int) as u64
  }

  lemma CastRoundTrip(x: u64)
    ensures I64AsU64(U64AsI64(x)) == x
  {
  }

  lemma CastBackRoundTrip(v: i64)
    ensures U64AsI64(I64AsU64(v)) == v
  {
  }

  /** The number of tokens there are. */
  const IOTA_SUPPLY := 2_779_530_283_277_761

  /** No element occurs twice. */
  ghost predicate Distinct<T(!new)>(s: seq<T>) {
    forall i, j :: 0 <= i < j < |s| ==> s[i] != s[j]
  }
}
