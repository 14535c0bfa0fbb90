/** `loword` and `hiword` of util.rs: the two 16-bit halves of a 32-bit word,
    computed with the same masks and shifts on bit-vectors. The source's `&`
    and `>>` are bit operations, which Dafny has on `bv32` and not on `int`;
    a `u32` of the other modules enters as `l as bv32`. */
module Words {

  /** `(l & 0xffff) as u16`: the word modulo 2^16. */
  function Loword(l: bv32): (r: bv16)
    ensures r as bv32 == l % 0x1_0000
  {
    (l & 0xffff) as bv16
  }

  /** `((l >> 16) & 0xffff) as u16`: the word divided by 2^16. */
  function Hiword(l: bv32): (r: bv16)
    ensures r as bv32 == l / 0x1_0000
  {
    ((l >> 16) & 0xffff) as bv16
  }

  /** The halves give the word back. */
  lemma WordsRecombine(l: bv32)
    ensures (Hiword(l) as bv32) * 0x1_0000 + Loword(l) as bv32 == l
  {
  }
}
