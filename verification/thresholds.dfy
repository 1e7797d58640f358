/** The content-size threshold every handler applies before wrapping a body:
    0 compresses everything, a positive threshold compresses a body whose
    Content-Length is known and at least the threshold, and a negative one
    compresses nothing. */
module Thresholds {
  import opened Wrappers

  /** The C# `int` the threshold is stored in. */
  type Int32 = x: int | -0x8000_0000 <= x < 0x8000_0000

  /** The threshold the constructors use when none is given. */
  const DefaultThreshold: Int32 := 860

  /** The threshold of the legacy client handler's constructors without one
      (an unset `int` field). */
  const UnsetThreshold: Int32 := 0

  /** `threshold == 0 || (threshold > 0 && length >= threshold)`, where a
      null length compares false. */
  predicate Meets(threshold: Int32, length: Option<nat>) {
    threshold == 0 || (threshold > 0 && length.Some? && length.value >= threshold)
  }

  /** A longer body meets any threshold a shorter one meets. */
  lemma MeetsLonger(threshold: Int32, a: nat, b: nat)
    requires a <= b && Meets(threshold, Some(a))
    ensures Meets(threshold, Some(b))
  {
  }

  /** A body meeting a positive threshold meets every smaller positive one. */
  lemma MeetsLower(threshold: Int32, lower: Int32, length: Option<nat>)
    requires 0 < lower <= threshold && Meets(threshold, length)
    ensures Meets(lower, length)
  {
  }
}
