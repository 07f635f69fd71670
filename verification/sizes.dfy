/** Byte sizes and the inclusive byte ranges that key a retention policy. */
module Sizes {

  /** One more than the largest `u64`. */
  const U64_LIMIT: nat := 0x1_0000_0000_0000_0000

  /** A `u64`, the representation behind `ByteSize`. */
  type U64 = n: nat | n < U64_LIMIT

  /** `u64::MAX`, the largest byte size the policy can name. */
  const U64_MAX: U64 := 0xFFFF_FFFF_FFFF_FFFF

  /** A key of the limits map: the pair `(lower, upper)` of inclusive byte bounds. */
  datatype SizeRange = SizeRange(lower: U64, upper: U64)

  /** A range that names at least one size: its bounds are not inverted. */
  predicate WellFormed(r: SizeRange) {
    r.lower <= r.upper
  }

  /** `size` lies in the closed interval `[r.lower, r.upper]`. */
  predicate Contains(r: SizeRange, size: U64) {
    r.lower <= size <= r.upper
  }

  /** The ranges among `ranges` that a file of `size` bytes falls into. */
  function Matching(ranges: set<SizeRange>, size: U64): set<SizeRange> {
    set r | r in ranges && Contains(r, size)
  }

  /** The derived ordering of the Rust tuple `(lower, upper)`: by lower bound, then by upper bound. */
  predicate Less(a: SizeRange, b: SizeRange) {
    a.lower < b.lower || (a.lower == b.lower && a.upper < b.upper)
  }

  /** `Less` is a strict total order on ranges, so a map keyed by ranges has one iteration order. */
  lemma LessIsStrictTotalOrder(a: SizeRange, b: SizeRange, c: SizeRange)
    ensures !Less(a, a)
    ensures Less(a, b) ==> !Less(b, a)
    ensures Less(a, b) && Less(b, c) ==> Less(a, c)
    ensures a != b ==> Less(a, b) || Less(b, a)
  {
  }
}
