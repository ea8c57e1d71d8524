/** Features are folded into a fixed number of slots. */
module FeatureSlots {
  const FEATURE_SET_SIZE: nat := 0x20_0000

  function Slot(f: nat): (s: nat)
    ensures s < FEATURE_SET_SIZE
    ensures f < FEATURE_SET_SIZE ==> s == f
  {
    f % FEATURE_SET_SIZE
  }

  /** Two features share a slot iff they are a multiple of 2^21 apart. */
  lemma SameSlotIff(f: nat, g: nat)
    ensures Slot(f) == Slot(g) <==> exists k: int :: f - g == k * 0x20_0000
  {
    if Slot(f) == Slot(g) {
      var k := f / FEATURE_SET_SIZE - g / FEATURE_SET_SIZE;
      assert f - g == k * FEATURE_SET_SIZE;
    }
    if k: int :| f - g == k * 0x20_0000 {
      assert f == g + k * FEATURE_SET_SIZE;
      assert f / FEATURE_SET_SIZE == g / FEATURE_SET_SIZE + k;
    }
  }
}
