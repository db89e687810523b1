/**
 * Byte-level vocabulary shared by every layer: bytes as 8-bit vectors, the
 * 32- and 64-bit limits of the C integer types, the little-endian layout of a
 * 32-bit length, the XOR key derivation and C-string truncation.
 */
module Bytes {

  type byte = bv8

  const U32_LIMIT: int := 0x1_0000_0000
  const U64_LIMIT: int := 0x1_0000_0000_0000_0000

  /** Length of every public key, secret key and derived shared key. */
  const KEY_BYTES: nat := 32

  /** The sizes both CryptoEngine classes report. */
  const PUBLIC_KEY_BYTES: nat := 32
  const SECRET_KEY_BYTES: nat := 32
  const NONCE_BYTES: nat := 16
  const MAC_BYTES: nat := 16
  const BOX_MAC_BYTES: nat := 16

  /** The byte of a repeating key used at stream position i: `key[i % key_len]`. */
  function KeyAt(key: seq<byte>, i: nat): byte
    requires |key| > 0
  {
    key[i % |key|]
  }

  /** Two repeating keys agree on every position the first `n` bytes of a stream use. */
  predicate KeysAgreeOn(k1: seq<byte>, k2: seq<byte>, n: nat)
    requires |k1| > 0 && |k2| > 0
  {
    forall i | 0 <= i < n :: KeyAt(k1, i) == KeyAt(k2, i)
  }

  function Min(a: int, b: int): int { if a < b then a else b }

  function Max(a: int, b: int): int { if a > b then a else b }

  function Zeros(n: nat): (z: seq<byte>)
    ensures |z| == n && forall i | 0 <= i < n :: z[i] == 0
  {
    seq(n, _ => 0)
  }

  /** The byte whose unsigned value is `d`, built bit by bit. */
  function ToByte(d: nat): byte
    requires d < 0x100
  {
    if d == 0 then 0 else (ToByte(d / 2) << 1) | (if d % 2 == 1 then 1 else 0)
  }

  /** The four bytes of a `ui32` as an x86 host stores it (least significant first). */
  function LeBytes32(n: nat): (r: seq<byte>)
    requires n < U32_LIMIT
    ensures |r| == 4
  {
    assert BytePower(4) == U32_LIMIT;
    LeBytes(n, 4)
  }

  /** The `k` bytes of `n`, least significant first. */
  function LeBytes(n: nat, k: nat): (r: seq<byte>)
    requires n < BytePower(k)
    ensures |r| == k
  {
    if k == 0 then []
    else
      assert n / 0x100 < BytePower(k - 1);
      [ToByte(n % 0x100)] + LeBytes(n / 0x100, k - 1)
  }

  /** The four bytes of LeBytes32 written out. */
  lemma LeBytesDigits(n: nat)
    requires n < U32_LIMIT
    ensures LeBytes32(n) == [ToByte(n % 0x100), ToByte(n / 0x100 % 0x100),
                             ToByte(n / 0x100 / 0x100 % 0x100), ToByte(n / 0x100 / 0x100 / 0x100 % 0x100)]
  {
    var q1 := n / 0x100;
    var q2 := q1 / 0x100;
    var q3 := q2 / 0x100;
    assert BytePower(4) == U32_LIMIT;
    assert LeBytes(q3 / 0x100, 0) == [];
    assert LeBytes(q3, 1) == [ToByte(q3 % 0x100)];
    assert LeBytes(q2, 2) == [ToByte(q2 % 0x100)] + LeBytes(q3, 1);
    assert LeBytes(q1, 3) == [ToByte(q1 % 0x100)] + LeBytes(q2, 2);
    assert LeBytes(n, 4) == [ToByte(n % 0x100)] + LeBytes(q1, 3);
  }

  /** The `ui32` that four host-order bytes encode (`*(ui32*)len_buffer`). */
  function LeValue32(b: seq<byte>): (n: nat)
    requires |b| == 4
    ensures n < U32_LIMIT
  {
    LeValueBound(b);
    assert BytePower(4) == U32_LIMIT;
    LeValue(b)
  }

  /** 256 to the power `k`: how many values `k` bytes hold. */
  function BytePower(k: nat): nat
  {
    if k == 0 then 1 else 0x100 * BytePower(k - 1)
  }

  /** The unsigned value of a byte string, least significant byte first. */
  function LeValue(b: seq<byte>): nat
  {
    if b == [] then 0 else b[0] as nat + 0x100 * LeValue(b[1..])
  }

  lemma {:induction false} LeValueBound(b: seq<byte>)
    ensures LeValue(b) < BytePower(|b|)
  {
    if b != [] {
      LeValueBound(b[1..]);
      assert b[0] as nat < 0x100;
    }
  }

  lemma LeValueDigits(b: seq<byte>)
    requires |b| == 4
    ensures LeValue32(b) == b[0] as nat + 0x100 * (b[1] as nat + 0x100 * (b[2] as nat + 0x100 * b[3] as nat))
  {
    assert b[4..] == [] && b[3..][1..] == b[4..] && b[2..][1..] == b[3..] && b[1..][1..] == b[2..];
    assert LeValue(b[3..]) == b[3] as nat;
    assert LeValue(b[2..]) == b[2] as nat + 0x100 * LeValue(b[3..]);
    assert LeValue(b[1..]) == b[1] as nat + 0x100 * LeValue(b[2..]);
  }

  lemma {:induction false} ByteOfNat(d: nat)
    requires d < 0x100
    ensures ToByte(d) as nat == d
  {
    if d != 0 {
      ByteOfNat(d / 2);
      var x := ToByte(d / 2);
      var r: byte := if d % 2 == 1 then 1 else 0;
      assert x as nat < 0x80;
      HalfBelow(x);
      Doubled(x, r);
    }
  }

  lemma HalfBelow(x: byte)
    requires x as nat < 0x80
    ensures x < 0x80
  {
  }

  lemma Doubled(x: byte, r: byte)
    requires x < 0x80 && r < 2
    ensures ((x << 1) | r) as nat == 2 * (x as nat) + r as nat
  {
  }

  lemma NatInjective(x: byte, y: byte)
    requires x as nat == y as nat
    ensures x == y
  {
  }

  lemma NatOfByte(b: byte)
    ensures b as nat < 0x100 && ToByte(b as nat) == b
  {
    ByteOfNat(b as nat);
    NatInjective(ToByte(b as nat), b);
  }

  lemma LeValueOfLeBytes32(n: nat)
    requires n < U32_LIMIT
    ensures LeValue32(LeBytes32(n)) == n
  {
    var q1 := n / 0x100;
    var q2 := q1 / 0x100;
    var q3 := q2 / 0x100;
    assert q3 < 0x100 && q3 % 0x100 == q3;
    LeBytesDigits(n);
    ByteOfNat(n % 0x100);
    ByteOfNat(q1 % 0x100);
    ByteOfNat(q2 % 0x100);
    ByteOfNat(q3);
    var b := LeBytes32(n);
    LeValueDigits(b);
    assert b[0] as nat == n % 0x100 && b[1] as nat == q1 % 0x100;
    assert b[2] as nat == q2 % 0x100 && b[3] as nat == q3;
    assert q2 == q2 % 0x100 + 0x100 * q3;
    assert q1 == q1 % 0x100 + 0x100 * q2;
    assert n == n % 0x100 + 0x100 * q1;
  }

  lemma LeBytesOfLeValue32(b: seq<byte>)
    requires |b| == 4
    ensures LeBytes32(LeValue32(b)) == b
  {
    var n := LeValue32(b);
    var d0, d1, d2, d3 := b[0] as nat, b[1] as nat, b[2] as nat, b[3] as nat;
    assert n == d0 + 0x100 * (d1 + 0x100 * (d2 + 0x100 * d3)) by {
      LeValueDigits(b);
    }
    assert n % 0x100 == d0 && n / 0x100 % 0x100 == d1 &&
           n / 0x100 / 0x100 % 0x100 == d2 && n / 0x100 / 0x100 / 0x100 % 0x100 == d3 by {
      Digits(d0, d1, d2, d3, n);
    }
    LeBytesDigits(n);
    ByteDigit(b[0]);
    ByteDigit(b[1]);
    ByteDigit(b[2]);
    ByteDigit(b[3]);
    assert LeBytes32(n) == [b[0], b[1], b[2], b[3]];
  }

  /** Converting a byte to a number and back gives the byte. */
  lemma ByteDigit(b: byte)
    ensures ToByte(b as nat) == b
  {
    NatOfByte(b);
  }

  lemma Digits(d0: nat, d1: nat, d2: nat, d3: nat, n: nat)
    requires d0 < 0x100 && d1 < 0x100 && d2 < 0x100 && d3 < 0x100
    requires n == d0 + 0x100 * (d1 + 0x100 * (d2 + 0x100 * d3))
    ensures n % 0x100 == d0 && n / 0x100 % 0x100 == d1
    ensures n / 0x100 / 0x100 % 0x100 == d2 && n / 0x100 / 0x100 / 0x100 == d3
  {
    var q2 := d2 + 0x100 * d3;
    var q1 := d1 + 0x100 * q2;
    assert n / 0x100 == q1;
    assert q1 / 0x100 == q2;
    assert q2 / 0x100 == d3;
  }

  /**
   * The 32-byte "shared key" both programs derive: byte i is `pk[i] ^ sk[i]`
   * of a public key and a secret key. Only the first 32 bytes are read.
   */
  function SharedKey(pk: seq<byte>, sk: seq<byte>): (k: seq<byte>)
    requires |pk| >= KEY_BYTES && |sk| >= KEY_BYTES
    ensures |k| == KEY_BYTES
    ensures forall i | 0 <= i < KEY_BYTES :: k[i] == pk[i] ^ sk[i]
  {
    seq(KEY_BYTES, i requires 0 <= i < KEY_BYTES => pk[i] ^ sk[i])
  }

  /** The `shared_key[32]` loop: byte i of a fresh stack buffer becomes `pk[i] ^ sk[i]`. */
  method DeriveSharedKey(pk: seq<byte>, sk: seq<byte>) returns (k: seq<byte>)
    requires |pk| >= KEY_BYTES && |sk| >= KEY_BYTES
    ensures k == SharedKey(pk, sk)
  {
    var buf := new byte[KEY_BYTES];
    var i := 0;
    while i < KEY_BYTES
      invariant 0 <= i <= KEY_BYTES
      invariant forall j | 0 <= j < i :: buf[j] == pk[j] ^ sk[j]
    {
      buf[i] := pk[i] ^ sk[i];
      i := i + 1;
    }
    k := buf[..];
  }

  /**
   * The sender keys with (recipient public ^ sender secret), the receiver with
   * (sender public ^ recipient secret). The two agree exactly when both parties'
   * own public ^ secret values agree.
   */
  lemma SharedKeysAgree(senderPk: seq<byte>, senderSk: seq<byte>,
                        recipientPk: seq<byte>, recipientSk: seq<byte>)
    requires |senderPk| >= KEY_BYTES && |senderSk| >= KEY_BYTES
    requires |recipientPk| >= KEY_BYTES && |recipientSk| >= KEY_BYTES
    ensures SharedKey(recipientPk, senderSk) == SharedKey(senderPk, recipientSk)
        <==> SharedKey(senderPk, senderSk) == SharedKey(recipientPk, recipientSk)
  {
    var enc, dec := SharedKey(recipientPk, senderSk), SharedKey(senderPk, recipientSk);
    var own, peer := SharedKey(senderPk, senderSk), SharedKey(recipientPk, recipientSk);
    if enc == dec {
      forall i | 0 <= i < KEY_BYTES ensures own[i] == peer[i] {
        assert enc[i] == dec[i];
        XorSwap(recipientPk[i], senderSk[i], senderPk[i], recipientSk[i]);
      }
    }
    if own == peer {
      forall i | 0 <= i < KEY_BYTES ensures enc[i] == dec[i] {
        assert own[i] == peer[i];
        XorSwap(recipientPk[i], senderSk[i], senderPk[i], recipientSk[i]);
      }
    }
  }

  lemma XorSwap(a: byte, b: byte, c: byte, d: byte)
    ensures a ^ b == c ^ d <==> c ^ b == a ^ d
  {
  }

  /**
   * What a C string built from a byte buffer keeps: the bytes before the first
   * NUL, or all of them when there is none.
   */
  function UntilNul(s: seq<byte>): (r: seq<byte>)
    ensures |r| <= |s| && r == s[..|r|]
    ensures forall i | 0 <= i < |r| :: r[i] != 0
    ensures |r| < |s| ==> s[|r|] == 0
  {
    if s == [] || s[0] == 0 then [] else [s[0]] + UntilNul(s[1..])
  }

  predicate NulFree(s: seq<byte>) { forall i | 0 <= i < |s| :: s[i] != 0 }

  lemma UntilNulOfNulFree(s: seq<byte>)
    requires NulFree(s)
    ensures UntilNul(s) == s
  {
  }

  /** Truncation drops everything from the first NUL on, so text after it is lost. */
  lemma UntilNulLosesTail(s: seq<byte>, j: nat)
    requires j < |s| && s[j] == 0
    ensures |UntilNul(s)| <= j
  {
  }

  /** std::string(const char*): the bytes before the first NUL, which the buffer is known to hold. */
  method CString(buf: array<byte>) returns (s: seq<byte>)
    requires exists i | 0 <= i < buf.Length :: buf[i] == 0
    ensures s == UntilNul(buf[..])
  {
    var n := 0;
    while buf[n] != 0
      invariant 0 <= n < buf.Length
      invariant forall j | 0 <= j < n :: buf[j] != 0
      invariant exists i | n <= i < buf.Length :: buf[i] == 0
      decreases buf.Length - n
    {
      n := n + 1;
    }
    s := buf[..n];
    UntilNulAt(buf[..], n);
  }

  /** A NUL at index `n` with none before it ends the C string there. */
  lemma UntilNulAt(s: seq<byte>, n: nat)
    requires n < |s| && s[n] == 0 && forall j | 0 <= j < n :: s[j] != 0
    ensures UntilNul(s) == s[..n]
  {
  }

  /** Terminating a buffer after `n` bytes leaves C-string reading unchanged on those bytes. */
  lemma UntilNulOfTerminated(s: seq<byte>, n: nat)
    requires n < |s| && s[n] == 0
    ensures UntilNul(s) == UntilNul(s[..n])
    decreases n
  {
    if n > 0 && s[0] != 0 {
      assert s[1..][..n - 1] == s[..n][1..];
      UntilNulOfTerminated(s[1..], n - 1);
    }
  }

  /** memset(a + off, v, len): bytes off .. off+len-1 become v, the others keep their value. */
  method Fill(a: array<byte>, off: nat, len: nat, v: byte)
    requires off + len <= a.Length
    modifies a
    ensures forall i | 0 <= i < a.Length :: a[i] == if off <= i < off + len then v else old(a[i])
  {
    var k := 0;
    while k < len
      invariant 0 <= k <= len
      invariant forall i | 0 <= i < a.Length :: a[i] == if off <= i < off + k then v else old(a[i])
    {
      a[off + k] := v;
      k := k + 1;
    }
  }

  /** memcpy(a + off, data, |data|): the bytes of `data` into `a` from `off` on. */
  method Copy(a: array<byte>, off: nat, data: seq<byte>)
    requires off + |data| <= a.Length
    modifies a
    ensures a[off..off + |data|] == data
    ensures forall i | 0 <= i < a.Length && !(off <= i < off + |data|) :: a[i] == old(a[i])
  {
    var k := 0;
    while k < |data|
      invariant 0 <= k <= |data|
      invariant forall i | 0 <= i < a.Length :: a[i] == if off <= i < off + k then data[i - off] else old(a[i])
    {
      a[off + k] := data[k];
      k := k + 1;
    }
  }
}
