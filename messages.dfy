/**
 * The header-only message layer of include/message.h, on the MemArena of
 * include/arena.h and the chained cipher and tag of include/crypto.h:
 * KeyPair::generate / is_valid, Message::create_encrypted, decrypt_message
 * and the two hex helpers.
 *
 * As elsewhere, a pointer is an Option (None is nullptr) whose bytes are those
 * it points at when it is produced, and an overflowing push, which throws
 * std::overflow_error, makes the method report `overflow` or return None.
 */
module Messages {
  import opened Bytes
  import opened Wrappers
  import ArenaCore
  import HeaderArena
  import Entropy
  import ChainCipher
  import Auth

  /** The KeyPair struct: two pointers, both null when it is built. */
  class KeyPair {
    var publicKey: Option<seq<byte>>
    var secretKey: Option<seq<byte>>

    constructor ()
      ensures publicKey == None && secretKey == None
    {
      publicKey := None;
      secretKey := None;
    }

    /** is_valid(): both pointers set; how many bytes they reach is not looked at. */
    predicate IsValid()
      reads this
    {
      publicKey.Some? && secretKey.Some?
    }

    /**
     * generate(arena): two zeroed 32-byte pushes, then random_bytes into each.
     * When the second push throws, `public_key` already points at its zeroed
     * block and `secret_key` is untouched.
     */
    method Generate(arena: HeaderArena.MemArena, rng: Entropy.Rng) returns (overflow: bool)
      requires arena.Valid()
      modifies this, arena, arena.buffer, rng
      ensures arena.Valid()
      ensures rng.seed == old(rng.seed) && rng.initialized == old(rng.initialized)
      ensures arena.KeepsBelow(old(arena.buffer[..]), old(arena.pos))
      ensures
        var first := ArenaCore.Push(old(arena.State()), PUBLIC_KEY_BYTES);
        var second := ArenaCore.Push(first.next, SECRET_KEY_BYTES);
        && (overflow <==> first.block.None? || second.block.None?)
        && arena.State() == (if first.block.None? then old(arena.State()) else second.next)
        && (first.block.None? ==> publicKey == old(publicKey) && secretKey == old(secretKey))
        && (first.block.Some? && second.block.None? ==>
              publicKey == Some(Zeros(PUBLIC_KEY_BYTES)) && secretKey == old(secretKey))
      ensures overflow ==> rng.drawn == old(rng.drawn)
      ensures !overflow ==>
        && rng.drawn == old(rng.drawn) + PUBLIC_KEY_BYTES + SECRET_KEY_BYTES
        && publicKey == Some(rng.Draws(old(rng.drawn), PUBLIC_KEY_BYTES))
        && secretKey == Some(rng.Draws(old(rng.drawn) + PUBLIC_KEY_BYTES, SECRET_KEY_BYTES))
        && IsValid()
    {
      var pk := arena.Push(PUBLIC_KEY_BYTES, false);
      if pk.None? {
        return true;
      }
      publicKey := Some(arena.buffer[pk.value..pk.value + PUBLIC_KEY_BYTES]);
      var sk := arena.Push(SECRET_KEY_BYTES, false);
      if sk.None? {
        assert publicKey.value == Zeros(PUBLIC_KEY_BYTES);
        return true;
      }
      rng.RandomBytes(arena.buffer, pk.value, PUBLIC_KEY_BYTES);
      publicKey := Some(arena.buffer[pk.value..pk.value + PUBLIC_KEY_BYTES]);
      rng.RandomBytes(arena.buffer, sk.value, SECRET_KEY_BYTES);
      secretKey := Some(arena.buffer[sk.value..sk.value + SECRET_KEY_BYTES]);
      overflow := false;
    }
  }

  /** The Message struct: sender and text, and three pointers with their lengths. */
  datatype Message = Message(sender: seq<char>, content: seq<byte>,
                             encryptedData: Option<seq<byte>>, encryptedLen: nat,
                             nonce: Option<seq<byte>>, nonceLen: nat,
                             mac: Option<seq<byte>>, macLen: nat)

  /** Message(): empty strings, null pointers, zero lengths. */
  const EMPTY: Message := Message([], [], None, 0, None, 0, None, 0)

  /**
   * The message create_encrypted builds from a nonce: the content under the
   * chained cipher keyed with `recipient_pk ^ sender_sk`, followed by the 16
   * bytes the zeroing push left, and a tag over the enciphered content keyed
   * with `sender_sk`.
   */
  function Sealed(sender: seq<char>, content: seq<byte>, nonce: seq<byte>,
                  recipientPk: seq<byte>, senderSk: seq<byte>): (m: Message)
    requires |recipientPk| >= KEY_BYTES && |senderSk| >= KEY_BYTES
  {
    var body := ChainCipher.ChainEncrypt(content, SharedKey(recipientPk, senderSk));
    Message(sender, content, Some(body + Zeros(BOX_MAC_BYTES)), |content| + BOX_MAC_BYTES,
            Some(nonce), NONCE_BYTES, Some(Auth.AuthTag(Auth.AuthHash(body, senderSk))), MAC_BYTES)
  }

  /**
   * What a sealed message holds: 16-byte nonce and tag fields, a ciphertext
   * 16 bytes longer than the content whose last 16 bytes are zero, whose first
   * byte is the content's first byte XOR the first key byte, and a tag over
   * exactly the `encrypted_len - 16` leading bytes, its two halves equal.
   */
  lemma SealedLayout(sender: seq<char>, content: seq<byte>, nonce: seq<byte>,
                     recipientPk: seq<byte>, senderSk: seq<byte>)
    requires |recipientPk| >= KEY_BYTES && |senderSk| >= KEY_BYTES
    ensures var m := Sealed(sender, content, nonce, recipientPk, senderSk);
      && m.nonce == Some(nonce) && m.nonceLen == NONCE_BYTES && m.macLen == MAC_BYTES
      && m.encryptedData.Some? && m.mac.Some?
      && m.encryptedLen == |content| + BOX_MAC_BYTES == |m.encryptedData.value|
      && m.encryptedData.value[|content|..] == Zeros(BOX_MAC_BYTES)
      && (|content| > 0 ==> m.encryptedData.value[0] == (recipientPk[0] ^ senderSk[0]) ^ content[0])
      && m.mac.value == Auth.AuthTag(Auth.AuthHash(m.encryptedData.value[..m.encryptedLen - BOX_MAC_BYTES], senderSk))
      && |m.mac.value| == MAC_BYTES
      && forall i | 0 <= i < 8 :: m.mac.value[i] == m.mac.value[i + 8]
  {
    var key := SharedKey(recipientPk, senderSk);
    var body := ChainCipher.ChainEncrypt(content, key);
    assert (body + Zeros(BOX_MAC_BYTES))[..|content|] == body;
    assert (body + Zeros(BOX_MAC_BYTES))[|content|..] == Zeros(BOX_MAC_BYTES);
    if |content| > 0 {
      ChainCipher.FirstByte(content, key);
    }
  }

  /**
   * create_encrypted(arena, sender, content, recipient_pk, sender_sk): push and
   * fill a random nonce, push `content.length() + 16` zeroed bytes and encipher
   * the content into them, push a tag and compute it over the enciphered
   * bytes. An overflowing push throws, keeping the pushes before it.
   */
  method CreateEncrypted(arena: HeaderArena.MemArena, rng: Entropy.Rng, sender: seq<char>,
                         content: seq<byte>, recipientPk: seq<byte>, senderSk: seq<byte>)
    returns (r: Option<Message>)
    requires arena.Valid() && |content| + BOX_MAC_BYTES < U64_LIMIT
    requires |recipientPk| >= KEY_BYTES && |senderSk| >= KEY_BYTES
    modifies arena, arena.buffer, rng
    ensures arena.Valid()
    ensures rng.seed == old(rng.seed) && rng.initialized == old(rng.initialized)
    ensures arena.KeepsBelow(old(arena.buffer[..]), old(arena.pos))
    ensures
      var nonceStep := ArenaCore.Push(old(arena.State()), NONCE_BYTES);
      var bodyStep := ArenaCore.Push(nonceStep.next, |content| + BOX_MAC_BYTES);
      var macStep := ArenaCore.Push(bodyStep.next, MAC_BYTES);
      && (r.Some? <==> nonceStep.block.Some? && bodyStep.block.Some? && macStep.block.Some?)
      && arena.State() == (if nonceStep.block.None? then old(arena.State())
                           else if bodyStep.block.None? then nonceStep.next
                           else macStep.next)
      && rng.drawn == old(rng.drawn) + (if nonceStep.block.Some? then NONCE_BYTES else 0)
    ensures r.Some? ==> r.value == Sealed(sender, content, rng.Draws(old(rng.drawn), NONCE_BYTES),
                                          recipientPk, senderSk)
  {
    var nonce := PushRandom(arena, rng, NONCE_BYTES);
    if nonce.None? {
      return None;
    }
    var encryptedLen := |content| + BOX_MAC_BYTES;
    var data := PushChained(arena, content, recipientPk, senderSk);
    if data.None? {
      return None;
    }
    var mac := PushTag(arena, data.value, encryptedLen - BOX_MAC_BYTES, senderSk);
    if mac.None? {
      return None;
    }
    r := Some(Message(sender, content, data, encryptedLen, nonce, NONCE_BYTES, mac, MAC_BYTES));
  }

  /** A zeroing push of `len` bytes filled by random_bytes; the block's bytes, or None on overflow. */
  method PushRandom(arena: HeaderArena.MemArena, rng: Entropy.Rng, len: nat) returns (block: Option<seq<byte>>)
    requires arena.Valid()
    modifies arena, arena.buffer, rng
    ensures arena.Valid()
    ensures rng.seed == old(rng.seed) && rng.initialized == old(rng.initialized)
    ensures arena.KeepsBelow(old(arena.buffer[..]), old(arena.pos))
    ensures arena.State() == ArenaCore.Push(old(arena.State()), len).next
    ensures block.Some? <==> ArenaCore.Push(old(arena.State()), len).block.Some?
    ensures rng.drawn == old(rng.drawn) + (if block.Some? then len else 0)
    ensures block.Some? ==> block.value == rng.Draws(old(rng.drawn), len)
  {
    var at := arena.Push(len, false);
    if at.None? {
      return None;
    }
    rng.RandomBytes(arena.buffer, at.value, len);
    block := Some(arena.buffer[at.value..at.value + len]);
  }

  /**
   * A zeroing push of `|content| + 16` bytes whose first `|content|` bytes
   * receive the chained encryption under `pk ^ sk`; None on overflow.
   */
  method PushChained(arena: HeaderArena.MemArena, content: seq<byte>, pk: seq<byte>, sk: seq<byte>)
    returns (block: Option<seq<byte>>)
    requires arena.Valid() && |pk| >= KEY_BYTES && |sk| >= KEY_BYTES
    modifies arena, arena.buffer
    ensures arena.Valid()
    ensures arena.KeepsBelow(old(arena.buffer[..]), old(arena.pos))
    ensures arena.State() == ArenaCore.Push(old(arena.State()), |content| + BOX_MAC_BYTES).next
    ensures block.Some? <==> ArenaCore.Push(old(arena.State()), |content| + BOX_MAC_BYTES).block.Some?
    ensures block.Some? ==>
      block.value == ChainCipher.ChainEncrypt(content, SharedKey(pk, sk)) + Zeros(BOX_MAC_BYTES)
  {
    var at := arena.Push(|content| + BOX_MAC_BYTES, false);
    if at.None? {
      return None;
    }
    var sharedKey := DeriveSharedKey(pk, sk);
    ChainCipher.ChainedEncrypt(arena.buffer, at.value, content, |content|, sharedKey, KEY_BYTES);
    var bytes := arena.buffer[at.value..at.value + |content| + BOX_MAC_BYTES];
    assert bytes[..|content|] == arena.buffer[at.value..at.value + |content|];
    ChainedLayout(bytes, content, sharedKey);
    block := Some(bytes);
  }

  lemma ChainedLayout(body: seq<byte>, p: seq<byte>, key: seq<byte>)
    requires |key| == KEY_BYTES && |body| == |p| + BOX_MAC_BYTES
    requires body[..|p|] == ChainCipher.ChainEncrypt(p[..|p|], key[..KEY_BYTES])
    requires forall i | |p| <= i < |body| :: body[i] == 0
    ensures body == ChainCipher.ChainEncrypt(p, key) + Zeros(BOX_MAC_BYTES)
  {
    assert key[..KEY_BYTES] == key;
    assert p[..|p|] == p;
  }

  /** A zeroing push of 16 bytes holding compute_auth over `data[..len]`; None on overflow. */
  method PushTag(arena: HeaderArena.MemArena, data: seq<byte>, len: nat, sk: seq<byte>)
    returns (block: Option<seq<byte>>)
    requires arena.Valid() && len <= |data| && |sk| >= KEY_BYTES
    modifies arena, arena.buffer
    ensures arena.Valid()
    ensures arena.KeepsBelow(old(arena.buffer[..]), old(arena.pos))
    ensures arena.State() == ArenaCore.Push(old(arena.State()), MAC_BYTES).next
    ensures block.Some? <==> ArenaCore.Push(old(arena.State()), MAC_BYTES).block.Some?
    ensures block.Some? ==> block.value == Auth.AuthTag(Auth.AuthHash(data[..len], sk))
  {
    var at := arena.Push(MAC_BYTES, false);
    if at.None? {
      return None;
    }
    Auth.ComputeAuth(arena.buffer, at.value, data, len, sk);
    block := Some(arena.buffer[at.value..at.value + MAC_BYTES]);
  }

  /**
   * What decrypt_message may read: a `ui64` ciphertext length of at least 16
   * (below that `plaintext_len + 1` wraps and the malloc'd buffer is too
   * small) and a ciphertext pointer reaching `encrypted_len - 16` bytes.
   */
  predicate Decryptable(m: Message)
  {
    && m.encryptedData.Some? && BOX_MAC_BYTES <= m.encryptedLen < U64_LIMIT
    && m.encryptedLen - BOX_MAC_BYTES <= |m.encryptedData.value|
  }

  /** The `plaintext_len` bytes simple_decrypt writes under `sender_pk ^ recipient_sk`. */
  function Deciphered(m: Message, senderPk: seq<byte>, recipientSk: seq<byte>): (p: seq<byte>)
    requires Decryptable(m) && |senderPk| >= KEY_BYTES && |recipientSk| >= KEY_BYTES
    ensures |p| == m.encryptedLen - BOX_MAC_BYTES
  {
    ChainCipher.ChainDecrypt(m.encryptedData.value[..m.encryptedLen - BOX_MAC_BYTES],
                             SharedKey(senderPk, recipientSk))
  }

  /**
   * decrypt_message(msg, sender_pk, recipient_sk): decipher `encrypted_len - 16`
   * bytes into a malloc'd buffer one byte longer, NUL-terminate it, and build
   * the std::string from the C string, which stops at the first NUL.
   */
  method DecryptMessage(m: Message, senderPk: seq<byte>, recipientSk: seq<byte>) returns (text: seq<byte>)
    requires Decryptable(m) && |senderPk| >= KEY_BYTES && |recipientSk| >= KEY_BYTES
    ensures text == UntilNul(Deciphered(m, senderPk, recipientSk))
  {
    var plaintextLen := m.encryptedLen - BOX_MAC_BYTES;
    var plaintext := new byte[plaintextLen + 1];
    var sharedKey := DeriveSharedKey(senderPk, recipientSk);
    ChainCipher.ChainedDecrypt(plaintext, 0, m.encryptedData.value, plaintextLen, sharedKey, KEY_BYTES);
    plaintext[plaintextLen] := 0;
    assert sharedKey[..KEY_BYTES] == sharedKey;
    assert plaintext[..plaintextLen] == Deciphered(m, senderPk, recipientSk);
    text := CString(plaintext);
    UntilNulOfTerminated(plaintext[..], plaintextLen);
  }

  /**
   * decrypt_message on a message create_encrypted built gives back the
   * content exactly when the content has no NUL byte and the decrypting key
   * `sender_pk ^ recipient_sk` agrees with the encrypting key
   * `recipient_pk ^ sender_sk` on every index the content uses.
   */
  lemma DecryptSealedIff(sender: seq<char>, content: seq<byte>, nonce: seq<byte>,
                         recipientPk: seq<byte>, senderSk: seq<byte>,
                         senderPk: seq<byte>, recipientSk: seq<byte>)
    requires |recipientPk| >= KEY_BYTES && |senderSk| >= KEY_BYTES
    requires |senderPk| >= KEY_BYTES && |recipientSk| >= KEY_BYTES
    requires |content| + BOX_MAC_BYTES < U64_LIMIT
    ensures var m := Sealed(sender, content, nonce, recipientPk, senderSk);
      && Decryptable(m)
      && (UntilNul(Deciphered(m, senderPk, recipientSk)) == content
          <==> NulFree(content)
               && KeysAgreeOn(SharedKey(recipientPk, senderSk), SharedKey(senderPk, recipientSk), |content|))
  {
    var m := Sealed(sender, content, nonce, recipientPk, senderSk);
    DecipheredSealed(sender, content, nonce, recipientPk, senderSk, senderPk, recipientSk);
    var ek, dk := SharedKey(recipientPk, senderSk), SharedKey(senderPk, recipientSk);
    var d := Deciphered(m, senderPk, recipientSk);
    ChainCipher.RoundTripIff(content, ek, dk);
    if UntilNul(d) == content {
      assert UntilNul(d) == d[..|content|] == d;
    }
    if NulFree(content) && KeysAgreeOn(ek, dk, |content|) {
      UntilNulOfNulFree(content);
    }
  }

  /** The bytes decrypt_message deciphers from a sealed message are the content's ciphertext. */
  lemma DecipheredSealed(sender: seq<char>, content: seq<byte>, nonce: seq<byte>,
                         recipientPk: seq<byte>, senderSk: seq<byte>,
                         senderPk: seq<byte>, recipientSk: seq<byte>)
    requires |recipientPk| >= KEY_BYTES && |senderSk| >= KEY_BYTES
    requires |senderPk| >= KEY_BYTES && |recipientSk| >= KEY_BYTES
    requires |content| + BOX_MAC_BYTES < U64_LIMIT
    ensures var m := Sealed(sender, content, nonce, recipientPk, senderSk);
      && Decryptable(m)
      && Deciphered(m, senderPk, recipientSk)
         == ChainCipher.ChainDecrypt(ChainCipher.ChainEncrypt(content, SharedKey(recipientPk, senderSk)),
                                     SharedKey(senderPk, recipientSk))
  {
    var body := ChainCipher.ChainEncrypt(content, SharedKey(recipientPk, senderSk));
    assert (body + Zeros(BOX_MAC_BYTES))[..|content|] == body;
  }

  /**
   * A content byte of zero is lost with everything after it, even when both
   * parties derive the same key.
   */
  lemma NulTruncates(sender: seq<char>, content: seq<byte>, nonce: seq<byte>,
                     recipientPk: seq<byte>, senderSk: seq<byte>,
                     senderPk: seq<byte>, recipientSk: seq<byte>, j: nat)
    requires |recipientPk| >= KEY_BYTES && |senderSk| >= KEY_BYTES
    requires |senderPk| >= KEY_BYTES && |recipientSk| >= KEY_BYTES
    requires |content| + BOX_MAC_BYTES < U64_LIMIT
    requires SharedKey(recipientPk, senderSk) == SharedKey(senderPk, recipientSk)
    requires j < |content| && content[j] == 0
    ensures var m := Sealed(sender, content, nonce, recipientPk, senderSk);
      Decryptable(m) && |UntilNul(Deciphered(m, senderPk, recipientSk))| <= j
  {
    var m := Sealed(sender, content, nonce, recipientPk, senderSk);
    var key := SharedKey(recipientPk, senderSk);
    DecipheredSealed(sender, content, nonce, recipientPk, senderSk, senderPk, recipientSk);
    ChainCipher.DecryptEncrypt(content, key);
    UntilNulLosesTail(content, j);
  }

  /**
   * decrypt_message as evidently meant: the string is built from the
   * `plaintext_len` deciphered bytes, std::string(ptr, len), NUL bytes included.
   */
  method DecryptMessageWhole(m: Message, senderPk: seq<byte>, recipientSk: seq<byte>) returns (text: seq<byte>)
    requires Decryptable(m) && |senderPk| >= KEY_BYTES && |recipientSk| >= KEY_BYTES
    ensures text == Deciphered(m, senderPk, recipientSk)
  {
    var plaintextLen := m.encryptedLen - BOX_MAC_BYTES;
    var plaintext := new byte[plaintextLen + 1];
    var sharedKey := DeriveSharedKey(senderPk, recipientSk);
    ChainCipher.ChainedDecrypt(plaintext, 0, m.encryptedData.value, plaintextLen, sharedKey, KEY_BYTES);
    plaintext[plaintextLen] := 0;
    assert sharedKey[..KEY_BYTES] == sharedKey;
    text := plaintext[..plaintextLen];
  }

  /** With the whole plaintext kept, the round trip holds for every content, NUL bytes included. */
  lemma DecryptWholeSealedIff(sender: seq<char>, content: seq<byte>, nonce: seq<byte>,
                              recipientPk: seq<byte>, senderSk: seq<byte>,
                              senderPk: seq<byte>, recipientSk: seq<byte>)
    requires |recipientPk| >= KEY_BYTES && |senderSk| >= KEY_BYTES
    requires |senderPk| >= KEY_BYTES && |recipientSk| >= KEY_BYTES
    requires |content| + BOX_MAC_BYTES < U64_LIMIT
    ensures var m := Sealed(sender, content, nonce, recipientPk, senderSk);
      && Decryptable(m)
      && (Deciphered(m, senderPk, recipientSk) == content
          <==> KeysAgreeOn(SharedKey(recipientPk, senderSk), SharedKey(senderPk, recipientSk), |content|))
  {
    DecipheredSealed(sender, content, nonce, recipientPk, senderSk, senderPk, recipientSk);
    ChainCipher.RoundTripIff(content, SharedKey(recipientPk, senderSk), SharedKey(senderPk, recipientSk));
  }

  /** The digits `std::hex` writes, lower case. */
  function HexDigit(d: nat): (c: char)
    requires d < 16
  {
    if d < 10 then ('0' as int + d) as char else ('a' as int + d - 10) as char
  }

  /** `setw(2) << setfill('0') << (int)b` under std::hex: two digits, high nibble first. */
  function HexByte(b: byte): (s: seq<char>)
  {
    [HexDigit(b as nat / 16), HexDigit(b as nat % 16)]
  }

  /** The stream after writing each byte of `bs` in turn. */
  function Hex(bs: seq<byte>): (s: seq<char>)
    ensures |s| == 2 * |bs|
  {
    if bs == [] then [] else Hex(bs[..|bs| - 1]) + HexByte(bs[|bs| - 1])
  }

  /** The value of a lower-case hex digit. */
  function DigitValue(c: char): nat
  {
    if '0' <= c <= '9' then c as int - '0' as int
    else if 'a' <= c <= 'f' then c as int - 'a' as int + 10
    else 0
  }

  /** The numeric value of each byte. */
  function Values(bs: seq<byte>): (vs: seq<nat>)
    ensures |vs| == |bs|
  {
    seq(|bs|, i requires 0 <= i < |bs| => bs[i] as nat)
  }

  /** Reads each pair of hex digits back into a byte value, the inverse of Hex. */
  function UnHex(s: seq<char>): (vs: seq<nat>)
  {
    if |s| < 2 then []
    else UnHex(s[..|s| - 2]) + [DigitValue(s[|s| - 2]) * 16 + DigitValue(s[|s| - 1])]
  }

  lemma DigitRoundTrip(d: nat)
    requires d < 16
    ensures DigitValue(HexDigit(d)) == d
  {
  }

  lemma ByteRoundTrip(b: byte)
    ensures DigitValue(HexByte(b)[0]) * 16 + DigitValue(HexByte(b)[1]) == b as nat
  {
    DigitRoundTrip(b as nat / 16);
    DigitRoundTrip(b as nat % 16);
  }

  /** Two more digits read back as one more value. */
  lemma UnHexPair(a: seq<char>, c1: char, c2: char)
    ensures UnHex(a + [c1, c2]) == UnHex(a) + [DigitValue(c1) * 16 + DigitValue(c2)]
  {
    var s := a + [c1, c2];
    assert s[..|s| - 2] == a;
  }

  /** Reading back one more byte's two digits yields that byte's value. */
  lemma UnHexSnoc(a: seq<char>, b: byte)
    ensures UnHex(a + HexByte(b)) == UnHex(a) + [b as nat]
  {
    var hb := HexByte(b);
    assert hb == [hb[0], hb[1]];
    UnHexPair(a, hb[0], hb[1]);
    ByteRoundTrip(b);
  }

  /** Every byte written in hex can be read back. */
  lemma {:induction false} UnHexHex(bs: seq<byte>)
    ensures UnHex(Hex(bs)) == Values(bs)
  {
    if bs != [] {
      var init, last := bs[..|bs| - 1], bs[|bs| - 1];
      assert Hex(bs) == Hex(init) + HexByte(last);
      UnHexHex(init);
      UnHexSnoc(Hex(init), last);
      ValuesSnoc(bs);
    }
  }

  lemma ValuesSnoc(bs: seq<byte>)
    requires bs != []
    ensures Values(bs) == Values(bs[..|bs| - 1]) + [bs[|bs| - 1] as nat]
  {
  }

  /** Hex output uses only the sixteen lower-case digits. */
  lemma {:induction false} HexDigitsOnly(bs: seq<byte>)
    ensures forall i | 0 <= i < |Hex(bs)| :: '0' <= Hex(bs)[i] <= '9' || 'a' <= Hex(bs)[i] <= 'f'
  {
    if bs != [] {
      HexDigitsOnly(bs[..|bs| - 1]);
    }
  }

  /** The first `n` bytes behind a pointer; no bytes behind a null one when none are read. */
  function Deref(p: Option<seq<byte>>, n: nat): (bs: seq<byte>)
    requires n > 0 ==> p.Some? && n <= |p.value|
    ensures |bs| == n
  {
    if n == 0 then [] else p.value[..n]
  }

  /** Write each byte of `bs[..n]` as two hex digits onto the end of `ss`. */
  method AppendHex(ss: seq<char>, bs: seq<byte>, n: nat) returns (s: seq<char>)
    requires n <= |bs|
    ensures s == ss + Hex(bs[..n])
  {
    s := ss;
    var i := 0;
    while i < n
      invariant 0 <= i <= n
      invariant s == ss + Hex(bs[..i])
    {
      assert bs[..i + 1][..i] == bs[..i];
      s := s + HexByte(bs[i]);
      i := i + 1;
    }
    assert bs[..n] == bs[..i];
  }

  /**
   * get_hex_representation(): at most the first 32 ciphertext bytes in hex,
   * then "..." when there are more.
   */
  method HexRepresentation(m: Message) returns (s: seq<char>)
    requires m.encryptedLen > 0 ==> m.encryptedData.Some? && Min(m.encryptedLen, 32) <= |m.encryptedData.value|
    ensures |s| == 2 * Min(m.encryptedLen, 32) + (if m.encryptedLen > 32 then 3 else 0)
    ensures s[..2 * Min(m.encryptedLen, 32)] == Hex(Deref(m.encryptedData, Min(m.encryptedLen, 32)))
    ensures m.encryptedLen > 32 <==> s[2 * Min(m.encryptedLen, 32)..] == "..."
  {
    var n := if m.encryptedLen > 32 then 32 else m.encryptedLen;
    s := AppendHex([], Deref(m.encryptedData, n), n);
    assert Deref(m.encryptedData, n)[..n] == Deref(m.encryptedData, n);
    if m.encryptedLen > 32 {
      s := s + "...";
    }
    assert s[..2 * n] == Hex(Deref(m.encryptedData, n));
  }

  /** get_nonce_hex(): every nonce byte in hex. */
  method NonceHex(m: Message) returns (s: seq<char>)
    requires m.nonceLen > 0 ==> m.nonce.Some? && m.nonceLen <= |m.nonce.value|
    ensures |s| == 2 * m.nonceLen
    ensures s == Hex(Deref(m.nonce, m.nonceLen))
    ensures UnHex(s) == Values(Deref(m.nonce, m.nonceLen))
  {
    var bytes := Deref(m.nonce, m.nonceLen);
    s := AppendHex([], bytes, m.nonceLen);
    assert bytes[..m.nonceLen] == bytes;
    UnHexHex(bytes);
  }
}
