/**
 * SimpleCrypto's static std::mt19937_64 generator, reduced to what the
 * programs rely on: a seed, how many bytes have been drawn since it was set, and
 * a fixed but arbitrary `stream` that decides which byte comes out at each
 * (seed, index). `random_device` entropy enters as a parameter.
 */
module Entropy {
  import opened Bytes

  /** The seed a default-constructed std::mt19937_64 starts from. */
  const DEFAULT_SEED: bv64 := 5489

  class Rng {
    const stream: (bv64, nat) -> byte
    var seed: bv64
    var drawn: nat
    /** The `initialized` flag of include/crypto.h; end-to-encryption.cpp has no flag. */
    var initialized: bool

    /** The static generator before any init() call. */
    constructor (stream: (bv64, nat) -> byte)
      ensures this.stream == stream
      ensures seed == DEFAULT_SEED && drawn == 0 && !initialized
    {
      this.stream := stream;
      seed := DEFAULT_SEED;
      drawn := 0;
      initialized := false;
    }

    /** The next `len` bytes the generator yields, from draw number `from` on. */
    ghost function Draws(from: nat, len: nat): (r: seq<byte>)
      reads this
      ensures |r| == len
      ensures forall i | 0 <= i < len :: r[i] == stream(seed, from + i)
    {
      var s := seed;
      seq(len, i requires 0 <= i < len => stream(s, from + i))
    }

    /** init() of end-to-encryption.cpp: reseed from `random_device` on every call. */
    method Reseed(entropy: bv32)
      modifies this
      ensures seed == entropy as bv64 && drawn == 0 && initialized == old(initialized)
    {
      seed := entropy as bv64;
      drawn := 0;
    }

    /** init() of include/crypto.h: reseed and set the flag, only on the first call. */
    method InitOnce(entropy: bv32)
      modifies this
      ensures initialized
      ensures old(initialized) ==> seed == old(seed) && drawn == old(drawn)
      ensures !old(initialized) ==> seed == entropy as bv64 && drawn == 0
    {
      if !initialized {
        seed := entropy as bv64;
        drawn := 0;
        initialized := true;
      }
    }

    /**
     * random_bytes(buffer + off, len): each byte is one draw of
     * uniform_int_distribution(0, 255); nothing outside the range changes.
     */
    method RandomBytes(buf: array<byte>, off: nat, len: nat)
      requires off + len <= buf.Length
      modifies this, buf
      ensures seed == old(seed) && initialized == old(initialized)
      ensures drawn == old(drawn) + len
      ensures buf[off..off + len] == Draws(old(drawn), len)
      ensures forall i | 0 <= i < buf.Length && !(off <= i < off + len) :: buf[i] == old(buf[i])
    {
      var k := 0;
      while k < len
        invariant 0 <= k <= len && drawn == old(drawn) + k
        invariant seed == old(seed) && initialized == old(initialized)
        invariant forall i | off <= i < off + k :: buf[i] == stream(seed, old(drawn) + (i - off))
        invariant forall i | 0 <= i < buf.Length && !(off <= i < off + k) :: buf[i] == old(buf[i])
      {
        buf[off + k] := stream(seed, drawn);
        drawn := drawn + 1;
        k := k + 1;
      }
    }
  }
}
