/**
 * compute_auth and verify_auth, written identically in end-to-encryption.cpp
 * and include/crypto.h: a Bernstein-style 64-bit hash, seeded 5381, folded over
 * the data bytes and then over 32 key bytes, whose 8 host-order bytes are written
 * twice into a 16-byte tag; and a verifier that accepts everything.
 */
module Auth {
  import opened Bytes
  import Word64

  const HASH_SEED: bv64 := 5381
  const TAG_BYTES: nat := 16

  /** One round: `hash = ((hash << 5) + hash) ^ b`, all in `ui64`. */
  function Step(h: bv64, b: byte): bv64
  {
    ((h << 5) + h) ^ (b as bv64)
  }

  /** The hash after folding `data` into `h` from left to right. */
  function Fold(h: bv64, data: seq<byte>): bv64
    decreases |data|
  {
    if data == [] then h else Step(Fold(h, data[..|data| - 1]), data[|data| - 1])
  }

  /** The hash compute_auth ends with: the data, then exactly the first 32 key bytes. */
  function AuthHash(data: seq<byte>, key: seq<byte>): bv64
    requires |key| >= KEY_BYTES
  {
    Fold(Fold(HASH_SEED, data), key[..KEY_BYTES])
  }

  /** Byte j (0 = least significant) of a 64-bit word as an x86 host stores it. */
  function HostByte(h: bv64, j: nat): byte
    requires j < 8
  {
    if j == 0 then (h & 0xFF) as byte
    else if j == 1 then ((h >> 8) & 0xFF) as byte
    else if j == 2 then ((h >> 16) & 0xFF) as byte
    else if j == 3 then ((h >> 24) & 0xFF) as byte
    else if j == 4 then ((h >> 32) & 0xFF) as byte
    else if j == 5 then ((h >> 40) & 0xFF) as byte
    else if j == 6 then ((h >> 48) & 0xFF) as byte
    else (h >> 56) as byte
  }

  /** The 16-byte tag: `mac[i] = hash_bytes[i % 8]`. */
  function AuthTag(h: bv64): (t: seq<byte>)
    ensures |t| == TAG_BYTES
    ensures forall i | 0 <= i < 8 :: t[i] == t[i + 8]
  {
    seq(TAG_BYTES, i requires 0 <= i < TAG_BYTES => HostByte(h, i % 8))
  }

  /** Reassemble a word from its 8 host-order bytes. */
  function HostWord(t: seq<byte>): bv64
    requires |t| >= 8
  {
    (t[0] as bv64) | ((t[1] as bv64) << 8) | ((t[2] as bv64) << 16) | ((t[3] as bv64) << 24)
    | ((t[4] as bv64) << 32) | ((t[5] as bv64) << 40) | ((t[6] as bv64) << 48) | ((t[7] as bv64) << 56)
  }

  /** The tag loses nothing: either half of it gives back the hash. */
  lemma TagDeterminesHash(h: bv64)
    ensures HostWord(AuthTag(h)) == h
    ensures HostWord(AuthTag(h)[8..]) == h
  {
    var t := AuthTag(h);
    var w := [HostByte(h, 0), HostByte(h, 1), HostByte(h, 2), HostByte(h, 3),
              HostByte(h, 4), HostByte(h, 5), HostByte(h, 6), HostByte(h, 7)];
    forall i | 0 <= i < 8 ensures t[i] == w[i] && t[8..][i] == w[i] {
      assert t[i] == HostByte(h, i % 8);
    }
    SameWord(t, w);
    SameWord(t[8..], w);
    WordOfBytes(h);
  }

  lemma SameWord(t: seq<byte>, u: seq<byte>)
    requires |t| >= 8 && |u| >= 8
    requires forall i | 0 <= i < 8 :: t[i] == u[i]
    ensures HostWord(t) == HostWord(u)
  {
    assert t[0] == u[0] && t[1] == u[1] && t[2] == u[2] && t[3] == u[3];
    assert t[4] == u[4] && t[5] == u[5] && t[6] == u[6] && t[7] == u[7];
  }

  lemma WordOfBytes(h: bv64)
    ensures HostWord([HostByte(h, 0), HostByte(h, 1), HostByte(h, 2), HostByte(h, 3),
                      HostByte(h, 4), HostByte(h, 5), HostByte(h, 6), HostByte(h, 7)]) == h
  {
  }

  /** Folding a concatenation folds the second part into the hash of the first. */
  lemma {:induction false} FoldAppend(h: bv64, a: seq<byte>, b: seq<byte>)
    ensures Fold(h, a + b) == Fold(Fold(h, a), b)
    decreases |b|
  {
    if b == [] {
      assert a + b == a;
    } else {
      var b' := b[..|b| - 1];
      assert (a + b)[..|a + b| - 1] == a + b';
      assert (a + b)[|a + b| - 1] == b[|b| - 1];
      FoldAppend(h, a, b');
      assert Fold(h, a + b) == Step(Fold(h, a + b'), b[|b| - 1]);
    }
  }

  /** One round is injective in the running hash: `(h << 5) + h` is `h * 33`, and 33 is odd. */
  lemma StepInjective(h1: bv64, h2: bv64, b: byte)
    requires Step(h1, b) == Step(h2, b)
    ensures h1 == h2
  {
    XorCancel(h1, h2, b);
    Word64.ShiftAddInjective(h1, h2);
  }

  lemma XorCancel(h1: bv64, h2: bv64, b: byte)
    requires Step(h1, b) == Step(h2, b)
    ensures (h1 << 5) + h1 == (h2 << 5) + h2
  {
  }

  /** Distinct hashes stay distinct under any further folding. */
  lemma {:induction false} FoldInjective(h1: bv64, h2: bv64, data: seq<byte>)
    requires h1 != h2
    ensures Fold(h1, data) != Fold(h2, data)
    decreases |data|
  {
    if data != [] {
      var d := data[..|data| - 1];
      FoldInjective(h1, h2, d);
      if Fold(h1, data) == Fold(h2, data) {
        StepInjective(Fold(h1, d), Fold(h2, d), data[|data| - 1]);
      }
    }
  }

  /**
   * Changing any single data byte changes the hash, and with it the tag: a real
   * comparison of tags would catch every one-byte tampering.
   */
  lemma OneByteChangeChangesTag(data: seq<byte>, j: nat, x: byte, key: seq<byte>)
    requires j < |data| && data[j] != x && |key| >= KEY_BYTES
    ensures AuthTag(AuthHash(data[j := x], key)) != AuthTag(AuthHash(data, key))
  {
    var pre, post := data[..j], data[j + 1..];
    assert data == pre + [data[j]] + post;
    assert data[j := x] == pre + [x] + post;
    FoldAppend(HASH_SEED, pre + [data[j]], post);
    FoldAppend(HASH_SEED, pre + [x], post);
    assert Fold(HASH_SEED, pre + [data[j]]) == Step(Fold(HASH_SEED, pre), data[j]);
    assert Fold(HASH_SEED, pre + [x]) == Step(Fold(HASH_SEED, pre), x);
    FoldInjective(Fold(HASH_SEED, pre + [x]), Fold(HASH_SEED, pre + [data[j]]), post);
    FoldInjective(Fold(HASH_SEED, data[j := x]), Fold(HASH_SEED, data), key[..KEY_BYTES]);
    TagDeterminesHash(AuthHash(data[j := x], key));
    TagDeterminesHash(AuthHash(data, key));
  }

  /** Only the first 32 key bytes enter the tag. */
  lemma TagIgnoresKeyTail(data: seq<byte>, key1: seq<byte>, key2: seq<byte>)
    requires |key1| >= KEY_BYTES && |key2| >= KEY_BYTES
    ensures AuthHash(data, key1) == AuthHash(data, key2) <== key1[..KEY_BYTES] == key2[..KEY_BYTES]
  {
  }

  /**
   * compute_auth(mac + off, data, dataLen, key): zero the 16 tag bytes, fold
   * the first `dataLen` data bytes and 32 key bytes, write the hash bytes twice.
   */
  method ComputeAuth(mac: array<byte>, off: nat, data: seq<byte>, dataLen: nat, key: seq<byte>)
    requires off + TAG_BYTES <= mac.Length && dataLen <= |data| && |key| >= KEY_BYTES
    modifies mac
    ensures mac[off..off + TAG_BYTES] == AuthTag(AuthHash(data[..dataLen], key))
    ensures forall i | 0 <= i < mac.Length && !(off <= i < off + TAG_BYTES) :: mac[i] == old(mac[i])
  {
    Fill(mac, off, TAG_BYTES, 0);
    var hash := HASH_SEED;
    var i := 0;
    while i < dataLen
      invariant 0 <= i <= dataLen && hash == Fold(HASH_SEED, data[..i])
    {
      assert data[..i + 1][..i] == data[..i];
      hash := Step(hash, data[i]);
      i := i + 1;
    }
    assert data[..dataLen] == data[..i];
    var k := 0;
    while k < KEY_BYTES
      invariant 0 <= k <= KEY_BYTES && hash == Fold(Fold(HASH_SEED, data[..dataLen]), key[..k])
    {
      assert key[..k + 1][..k] == key[..k];
      hash := Step(hash, key[k]);
      k := k + 1;
    }
    var m := 0;
    while m < TAG_BYTES
      invariant 0 <= m <= TAG_BYTES
      invariant forall n | 0 <= n < m :: mac[off + n] == HostByte(hash, n % 8)
      invariant forall n | 0 <= n < mac.Length && !(off <= n < off + TAG_BYTES) :: mac[n] == old(mac[n])
    {
      mac[off + m] := HostByte(hash, m % 8);
      m := m + 1;
    }
  }

  /** verify_auth: a stub whose answer is `true` whatever tag, data and key it gets. */
  function VerifyAuth(mac: seq<byte>, data: seq<byte>, dataLen: nat, key: seq<byte>): (ok: bool)
    ensures ok
  {
    true
  }

  /**
   * So the stub accepts tampered data: after one byte of the data changes, the
   * tag computed for the original data is no longer the data's own tag, and
   * verify_auth still returns true for it, so decrypt never counts a failure.
   */
  lemma StubAcceptsTamperedData(data: seq<byte>, j: nat, x: byte, key: seq<byte>)
    requires j < |data| && data[j] != x && |key| >= KEY_BYTES
    ensures var sent := AuthTag(AuthHash(data, key));
      && sent != AuthTag(AuthHash(data[j := x], key))
      && VerifyAuth(sent, data[j := x], |data|, key)
  {
    OneByteChangeChangesTag(data, j, x, key);
  }
}
