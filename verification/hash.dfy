/** The bucketing hash (crates/feta/src/hash.rs). The 32-bit Murmur3 function
    (seed 0) lives in an external crate; it is a parameter here, so every result
    below holds for whatever hash function the host supplies. */
module Hash {

  /** Rust `u32`. */
  type U32 = x: int | 0 <= x < 0x1_0000_0000

  /** Murmur3 over the bytes of a string. */
  type Murmur3 = string -> U32

  /** `hash::calculate`: the hash of the feature name immediately followed by the
      user key, with no separator. */
  function Calculate(murmur: Murmur3, feature: string, userKey: string): (h: U32)
  {
    murmur(feature + userKey)
  }

  /** The hash depends only on the concatenated bytes: ("ab", "c") and ("a", "bc")
      collide, which only affects bucket fairness, never correctness. */
  lemma CalculateSeesOnlyConcatenation(murmur: Murmur3, f1: string, u1: string, f2: string, u2: string)
    requires f1 + u1 == f2 + u2
    ensures Calculate(murmur, f1, u1) == Calculate(murmur, f2, u2)
  {
  }

  lemma ConcatenationCollisionExample(murmur: Murmur3)
    ensures Calculate(murmur, "ab", "c") == Calculate(murmur, "a", "bc")
  {
    assert "ab" + "c" == "a" + "bc";
  }
}
