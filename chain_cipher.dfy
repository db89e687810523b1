/**
 * SimpleCrypto's cipher in include/crypto.h: XOR with state chaining. A
 * running byte `state` starts at 0; byte i is encrypted as
 * `(state + key[i % key_len]) ^ p[i]` (a `ui8` sum, so modulo 256) and the
 * result becomes the next state. Decryption uses the previous ciphertext byte
 * as the state.
 */
module ChainCipher {
  import opened Bytes

  /** The state after `c` has been produced: its last byte, or 0 before any. */
  function Last(c: seq<byte>): byte
  {
    if c == [] then 0 else c[|c| - 1]
  }

  /** The state in force when byte i is processed: the ciphertext byte before it. */
  function StateAt(c: seq<byte>, i: nat): byte
    requires i <= |c|
  {
    if i == 0 then 0 else c[i - 1]
  }

  /** One step of either direction: `(state + k) ^ x` in `ui8`. */
  function Mix(state: byte, k: byte, x: byte): byte
  {
    (state + k) ^ x
  }

  /** The bytes simple_encrypt writes for `p` under `key`, built byte by byte. */
  function ChainEncrypt(p: seq<byte>, key: seq<byte>): (c: seq<byte>)
    requires |key| > 0
    ensures |c| == |p|
    decreases |p|
  {
    if p == [] then []
    else
      var prev := ChainEncrypt(p[..|p| - 1], key);
      prev + [Mix(Last(prev), KeyAt(key, |p| - 1), p[|p| - 1])]
  }

  /** The bytes simple_decrypt writes for `c`: each depends on `c[i - 1]` and `c[i]` only. */
  function ChainDecrypt(c: seq<byte>, key: seq<byte>): (p: seq<byte>)
    requires |key| > 0
    ensures |p| == |c|
  {
    seq(|c|, i requires 0 <= i < |c| => Mix(StateAt(c, i), KeyAt(key, i), c[i]))
  }

  /** Encryption of a prefix is the prefix of the encryption. */
  lemma {:induction false} EncryptPrefix(p: seq<byte>, key: seq<byte>, n: nat)
    requires |key| > 0 && n <= |p|
    ensures ChainEncrypt(p[..n], key) == ChainEncrypt(p, key)[..n]
    decreases |p|
  {
    if n < |p| {
      var q := p[..|p| - 1];
      assert q[..n] == p[..n];
      EncryptPrefix(q, key, n);
      assert ChainEncrypt(p, key)[..|p| - 1] == ChainEncrypt(q, key);
    } else {
      assert p[..n] == p;
    }
  }

  /** Byte i of the ciphertext is the previous one plus the key byte, XOR the plaintext byte. */
  lemma EncryptAt(p: seq<byte>, key: seq<byte>, i: nat)
    requires |key| > 0 && i < |p|
    ensures ChainEncrypt(p, key)[i] == Mix(StateAt(ChainEncrypt(p, key), i), KeyAt(key, i), p[i])
  {
    var c := ChainEncrypt(p, key);
    var pre := p[..i + 1];
    EncryptPrefix(p, key, i + 1);
    EncryptPrefix(p, key, i);
    assert pre[..i] == p[..i] && pre[i] == p[i];
    var head := ChainEncrypt(p[..i], key);
    assert head == c[..i];
    assert Last(head) == StateAt(c, i);
    SnocStep(pre, key);
    assert ChainEncrypt(pre, key)[i] == c[i];
  }

  /** The definition of ChainEncrypt, one step at the end. */
  lemma SnocStep(p: seq<byte>, key: seq<byte>)
    requires |key| > 0 && p != []
    ensures ChainEncrypt(p, key)[|p| - 1]
         == Mix(Last(ChainEncrypt(p[..|p| - 1], key)), KeyAt(key, |p| - 1), p[|p| - 1])
  {
  }

  /** The first ciphertext byte is `key[0] ^ p[0]`. */
  lemma FirstByte(p: seq<byte>, key: seq<byte>)
    requires |key| > 0 && |p| > 0
    ensures ChainEncrypt(p, key)[0] == key[0] ^ p[0]
  {
    EncryptAt(p, key, 0);
  }

  /** The first n ciphertext bytes depend only on the first n plaintext bytes. */
  lemma PrefixDetermines(p1: seq<byte>, p2: seq<byte>, key: seq<byte>, n: nat)
    requires |key| > 0 && n <= |p1| && n <= |p2| && p1[..n] == p2[..n]
    ensures ChainEncrypt(p1, key)[..n] == ChainEncrypt(p2, key)[..n]
  {
    EncryptPrefix(p1, key, n);
    EncryptPrefix(p2, key, n);
  }

  /** Encryption reads the key only at the positions `i % key_len`, i < len. */
  lemma {:induction false} KeyLocality(p: seq<byte>, k1: seq<byte>, k2: seq<byte>)
    requires |k1| > 0 && |k2| > 0 && KeysAgreeOn(k1, k2, |p|)
    ensures ChainEncrypt(p, k1) == ChainEncrypt(p, k2)
    decreases |p|
  {
    if p != [] {
      var q := p[..|p| - 1];
      assert KeysAgreeOn(k1, k2, |q|);
      KeyLocality(q, k1, k2);
      assert KeyAt(k1, |p| - 1) == KeyAt(k2, |p| - 1);
    }
  }

  lemma XorResult(y: byte, z: byte, x: byte)
    requires y ^ (z ^ x) == x
    ensures y == z
  {
  }

  lemma XorRight(y: byte, z: byte, x: byte)
    requires y ^ x == z ^ x
    ensures y == z
  {
  }

  lemma AddLeft(s: byte, a: byte, b: byte)
    requires s + a == s + b
    ensures a == b
  {
  }

  lemma AddRight(s1: byte, s2: byte, k: byte)
    requires s1 + k == s2 + k
    ensures s1 == s2
  {
  }

  lemma MixTwice(s: byte, a: byte, x: byte)
    ensures Mix(s, a, Mix(s, a, x)) == x
  {
  }

  /** Undoing a step with key byte `b` what key byte `a` did leaves `x` exactly when a == b. */
  lemma AddCancel(s: byte, a: byte, b: byte, x: byte)
    ensures Mix(s, b, Mix(s, a, x)) == x <==> a == b
  {
    if Mix(s, b, Mix(s, a, x)) == x {
      MixUndone(s, a, b, x);
    }
    if a == b {
      MixTwice(s, a, x);
    }
  }

  lemma MixUndone(s: byte, a: byte, b: byte, x: byte)
    requires Mix(s, b, Mix(s, a, x)) == x
    ensures a == b
  {
    XorResult(s + b, s + a, x);
    AddLeft(s, b, a);
  }

  lemma MixSame(s1: byte, s2: byte, k: byte, x: byte)
    requires Mix(s1, k, x) == Mix(s2, k, x)
    ensures s1 == s2
  {
    XorRight(s1 + k, s2 + k, x);
    AddRight(s1, s2, k);
  }

  /** A step is injective in the state. */
  lemma AddInjective(s1: byte, s2: byte, k: byte, x: byte)
    ensures Mix(s1, k, x) == Mix(s2, k, x) <==> s1 == s2
  {
    if Mix(s1, k, x) == Mix(s2, k, x) {
      MixSame(s1, s2, k, x);
    }
  }

  /**
   * Decrypting with `k2` what `k1` encrypted gives back the plaintext exactly
   * when the keys agree on every position used.
   */
  lemma RoundTripIff(p: seq<byte>, k1: seq<byte>, k2: seq<byte>)
    requires |k1| > 0 && |k2| > 0
    ensures ChainDecrypt(ChainEncrypt(p, k1), k2) == p <==> KeysAgreeOn(k1, k2, |p|)
  {
    var c := ChainEncrypt(p, k1);
    var r := ChainDecrypt(c, k2);
    forall i | 0 <= i < |p| ensures r[i] == p[i] <==> KeyAt(k1, i) == KeyAt(k2, i) {
      EncryptAt(p, k1, i);
      AddCancel(StateAt(c, i), KeyAt(k1, i), KeyAt(k2, i), p[i]);
    }
    if r == p {
      forall i | 0 <= i < |p| ensures KeyAt(k1, i) == KeyAt(k2, i) {
        assert r[i] == p[i];
      }
    }
    if KeysAgreeOn(k1, k2, |p|) {
      assert forall i | 0 <= i < |p| :: r[i] == p[i];
    }
  }

  /** simple_decrypt undoes simple_encrypt under the same key, for every length and key length. */
  lemma DecryptEncrypt(p: seq<byte>, key: seq<byte>)
    requires |key| > 0
    ensures ChainDecrypt(ChainEncrypt(p, key), key) == p
  {
    RoundTripIff(p, key, key);
  }

  /** And simple_encrypt undoes simple_decrypt: every ciphertext is reached. */
  lemma {:induction false} EncryptDecrypt(c: seq<byte>, key: seq<byte>)
    requires |key| > 0
    ensures ChainEncrypt(ChainDecrypt(c, key), key) == c
    decreases |c|
  {
    if c != [] {
      var n := |c| - 1;
      var c' := c[..n];
      var p := ChainDecrypt(c, key);
      DecryptPrefix(c, key, n);
      EncryptDecrypt(c', key);
      LastStep(c, key);
      assert c == c' + [c[n]];
    }
  }

  lemma DecryptPrefix(c: seq<byte>, key: seq<byte>, n: nat)
    requires |key| > 0 && n <= |c|
    ensures ChainDecrypt(c, key)[..n] == ChainDecrypt(c[..n], key)
  {
  }

  /** The last byte re-encrypts to itself once the bytes before it do. */
  lemma LastStep(c: seq<byte>, key: seq<byte>)
    requires |key| > 0 && c != []
    requires ChainEncrypt(ChainDecrypt(c[..|c| - 1], key), key) == c[..|c| - 1]
    ensures ChainEncrypt(ChainDecrypt(c, key), key) == c[..|c| - 1] + [c[|c| - 1]]
  {
    var n := |c| - 1;
    var p := ChainDecrypt(c, key);
    var st, k := StateAt(c, n), KeyAt(key, n);
    DecryptPrefix(c, key, n);
    var prev := ChainEncrypt(p[..n], key);
    assert prev == c[..n] && Last(prev) == st;
    assert p[n] == Mix(st, k, c[n]);
    MixTwice(st, k, c[n]);
    assert ChainEncrypt(p, key) == prev + [Mix(Last(prev), k, p[n])];
  }

  /**
   * Changing ciphertext byte j changes exactly plaintext bytes j and j + 1:
   * byte j through its own value, byte j + 1 through the state.
   */
  lemma DecryptLocality(c: seq<byte>, j: nat, x: byte, key: seq<byte>)
    requires |key| > 0 && j < |c| && x != c[j]
    ensures forall i | 0 <= i < |c| ::
      ChainDecrypt(c[j := x], key)[i] != ChainDecrypt(c, key)[i] <==> i == j || i == j + 1
  {
    var d := c[j := x];
    forall i | 0 <= i < |c|
      ensures ChainDecrypt(d, key)[i] != ChainDecrypt(c, key)[i] <==> i == j || i == j + 1
    {
      if i == j + 1 {
        AddInjective(StateAt(d, i), StateAt(c, i), KeyAt(key, i), c[i]);
      } else if i == j {
        assert StateAt(d, i) == StateAt(c, i);
      } else {
        assert StateAt(d, i) == StateAt(c, i) && d[i] == c[i];
      }
    }
  }

  /**
   * simple_encrypt(out + off, input, len, key, key_len) of include/crypto.h:
   * the loop carries `state` and writes each new state to the output.
   */
  method ChainedEncrypt(out: array<byte>, off: nat, input: seq<byte>, len: nat,
                        key: seq<byte>, keyLen: nat)
    requires off + len <= out.Length && len <= |input| && 0 < keyLen <= |key|
    modifies out
    ensures out[off..off + len] == ChainEncrypt(input[..len], key[..keyLen])
    ensures forall i | 0 <= i < out.Length && !(off <= i < off + len) :: out[i] == old(out[i])
  {
    var k := key[..keyLen];
    var state: byte := 0;
    var i := 0;
    while i < len
      invariant 0 <= i <= len
      invariant state == Last(ChainEncrypt(input[..i], k))
      invariant out[off..off + i] == ChainEncrypt(input[..i], k)
      invariant forall j | 0 <= j < out.Length && !(off <= j < off + i) :: out[j] == old(out[j])
    {
      assert input[..i + 1][..i] == input[..i];
      state := Mix(state, KeyAt(k, i), input[i]);
      out[off + i] := state;
      i := i + 1;
    }
    assert input[..len] == input[..i];
  }

  /**
   * simple_decrypt(out + off, input, len, key, key_len) of include/crypto.h:
   * keep the ciphertext byte in `temp`, write the plaintext byte, move the state on.
   */
  method ChainedDecrypt(out: array<byte>, off: nat, input: seq<byte>, len: nat,
                        key: seq<byte>, keyLen: nat)
    requires off + len <= out.Length && len <= |input| && 0 < keyLen <= |key|
    modifies out
    ensures out[off..off + len] == ChainDecrypt(input[..len], key[..keyLen])
    ensures forall i | 0 <= i < out.Length && !(off <= i < off + len) :: out[i] == old(out[i])
  {
    ghost var c := input[..len];
    var k := key[..keyLen];
    ghost var p := ChainDecrypt(c, k);
    var state: byte := 0;
    var i := 0;
    while i < len
      invariant 0 <= i <= len
      invariant state == StateAt(c, i)
      invariant out[off..off + i] == p[..i]
      invariant forall j | 0 <= j < out.Length && !(off <= j < off + i) :: out[j] == old(out[j])
    {
      var temp := input[i];
      DecryptStep(c, k, i);
      out[off + i] := Mix(state, KeyAt(k, i), temp);
      assert out[off..off + i + 1] == out[off..off + i] + [out[off + i]];
      state := temp;
      i := i + 1;
    }
  }

  lemma DecryptStep(c: seq<byte>, key: seq<byte>, i: nat)
    requires |key| > 0 && i < |c|
    ensures ChainDecrypt(c, key)[..i + 1] == ChainDecrypt(c, key)[..i] + [Mix(StateAt(c, i), KeyAt(key, i), c[i])]
  {
  }
}
