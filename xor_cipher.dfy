/**
 * SimpleCrypto's cipher in end-to-encryption.cpp: repeating-key XOR,
 * `c[i] = p[i] ^ key[i % key_len]`, with decryption the same loop.
 */
module XorCipher {
  import opened Bytes

  /** The bytes simple_encrypt writes for `p` under `key`. */
  function XorStream(p: seq<byte>, key: seq<byte>): (c: seq<byte>)
    requires |key| > 0
    ensures |c| == |p|
  {
    seq(|p|, i requires 0 <= i < |p| => p[i] ^ KeyAt(key, i))
  }

  lemma XorTwice(a: byte, x: byte, y: byte)
    ensures (a ^ x) ^ y == a <==> x == y
  {
  }

  /** Decrypting with `k2` what `k1` encrypted leaves `p[i] ^ k1[i] ^ k2[i]`. */
  lemma DecryptWithOtherKey(p: seq<byte>, k1: seq<byte>, k2: seq<byte>)
    requires |k1| > 0 && |k2| > 0
    ensures forall i | 0 <= i < |p| ::
      XorStream(XorStream(p, k1), k2)[i] == (p[i] ^ KeyAt(k1, i)) ^ KeyAt(k2, i)
  {
  }

  /** The round trip gives back the plaintext exactly when the keys agree where they are used. */
  lemma RoundTripIff(p: seq<byte>, k1: seq<byte>, k2: seq<byte>)
    requires |k1| > 0 && |k2| > 0
    ensures XorStream(XorStream(p, k1), k2) == p <==> KeysAgreeOn(k1, k2, |p|)
  {
    var r := XorStream(XorStream(p, k1), k2);
    if r == p {
      forall i | 0 <= i < |p| ensures KeyAt(k1, i) == KeyAt(k2, i) {
        assert r[i] == p[i];
        XorTwice(p[i], KeyAt(k1, i), KeyAt(k2, i));
      }
    }
    if KeysAgreeOn(k1, k2, |p|) {
      forall i | 0 <= i < |p| ensures r[i] == p[i] {
        XorTwice(p[i], KeyAt(k1, i), KeyAt(k2, i));
      }
    }
  }

  /** With one key for both directions, decryption undoes encryption. */
  lemma RoundTrip(p: seq<byte>, key: seq<byte>)
    requires |key| > 0
    ensures XorStream(XorStream(p, key), key) == p
  {
    RoundTripIff(p, key, key);
  }

  /**
   * simple_encrypt(out + off, input, len, key, key_len): byte i of the output
   * becomes `input[i] ^ key[i % key_len]`; nothing else is written.
   */
  method SimpleEncrypt(out: array<byte>, off: nat, input: seq<byte>, len: nat,
                       key: seq<byte>, keyLen: nat)
    requires off + len <= out.Length && len <= |input| && 0 < keyLen <= |key|
    modifies out
    ensures out[off..off + len] == XorStream(input[..len], key[..keyLen])
    ensures forall i | 0 <= i < out.Length && !(off <= i < off + len) :: out[i] == old(out[i])
  {
    var i := 0;
    while i < len
      invariant 0 <= i <= len
      invariant forall j | off <= j < off + i :: out[j] == input[j - off] ^ KeyAt(key[..keyLen], j - off)
      invariant forall j | 0 <= j < out.Length && !(off <= j < off + i) :: out[j] == old(out[j])
    {
      out[off + i] := input[i] ^ key[i % keyLen];
      i := i + 1;
    }
  }

  /** simple_decrypt is simple_encrypt: XOR with the same key stream. */
  method SimpleDecrypt(out: array<byte>, off: nat, input: seq<byte>, len: nat,
                       key: seq<byte>, keyLen: nat)
    requires off + len <= out.Length && len <= |input| && 0 < keyLen <= |key|
    modifies out
    ensures out[off..off + len] == XorStream(input[..len], key[..keyLen])
    ensures forall i | 0 <= i < out.Length && !(off <= i < off + len) :: out[i] == old(out[i])
  {
    SimpleEncrypt(out, off, input, len, key, keyLen);
  }
}
