/**
 * Facts about 64-bit words the hash proofs use: `h -> (h << 5) + h`, the
 * djb2 multiply-by-33, is injective. Each lemma extends the range of low
 * bits on which two colliding words must agree.
 */
module Word64 {

  lemma Low5(h1: bv64, h2: bv64)
    requires (h1 << 5) + h1 == (h2 << 5) + h2
    ensures h1 & 0x1F == h2 & 0x1F
  {
  }

  lemma Low10(h1: bv64, h2: bv64)
    requires (h1 << 5) + h1 == (h2 << 5) + h2 && h1 & 0x1F == h2 & 0x1F
    ensures h1 & 0x3FF == h2 & 0x3FF
  {
  }

  lemma Low20(h1: bv64, h2: bv64)
    requires (h1 << 5) + h1 == (h2 << 5) + h2 && h1 & 0x3FF == h2 & 0x3FF
    ensures h1 & 0xFFFFF == h2 & 0xFFFFF
  {
  }

  lemma Low40(h1: bv64, h2: bv64)
    requires (h1 << 5) + h1 == (h2 << 5) + h2 && h1 & 0xFFFFF == h2 & 0xFFFFF
    ensures h1 & 0xFF_FFFF_FFFF == h2 & 0xFF_FFFF_FFFF
  {
  }

  lemma All64(h1: bv64, h2: bv64)
    requires (h1 << 5) + h1 == (h2 << 5) + h2 && h1 & 0xFF_FFFF_FFFF == h2 & 0xFF_FFFF_FFFF
    ensures h1 == h2
  {
  }

  /** Multiplying by 33 modulo 2^64 loses nothing. */
  lemma ShiftAddInjective(h1: bv64, h2: bv64)
    requires (h1 << 5) + h1 == (h2 << 5) + h2
    ensures h1 == h2
  {
    Low5(h1, h2);
    Low10(h1, h2);
    Low20(h1, h2);
    Low40(h1, h2);
    All64(h1, h2);
  }
}
