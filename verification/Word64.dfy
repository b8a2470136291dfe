/** Unsigned 64-bit words: arithmetic on int, reduced modulo 2^64 exactly where the C code wraps. */
module Word64 {
  type u64 = x: int | 0 <= x < 0x1_0000_0000_0000_0000

  function Wrap(x: int): (w: u64) {
    x % 0x1_0000_0000_0000_0000
  }

  function Incremented(c: u64): (w: u64) {
    Wrap((c as int) + 1)
  }

  lemma IncrementedWrap(n: nat)
    ensures Incremented(Wrap(n)) == Wrap(n + 1)
  {
  }

  lemma WrapOfWraps(x: nat, y: nat, z: nat)
    ensures Wrap((Wrap(x) as int) + (Wrap(y) as int) + z) == Wrap(x + y + z)
  {
  }

  // Adding whole turns of the word does not change the wrapped value.
  lemma WrapShift(x: int, k: int)
    ensures Wrap(x + k * 0x1_0000_0000_0000_0000) == Wrap(x)
  {
  }

  // A wrapped sum never exceeds the sum with only the first term wrapped.
  lemma WrapSumAtMost(x: nat, y: nat)
    ensures Wrap(x + y) <= Wrap(x) + y
  {
  }
}
