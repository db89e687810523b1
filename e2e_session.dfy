/**
 * The key, envelope and session layer of end-to-encryption.cpp: KeyPair,
 * EncryptedMessage and DecryptedMessage, the KeyManager, MessageEncryptor and
 * MessageDecryptor that allocate from one shared MemArena, and the
 * SecureSession state machine on top of them.
 *
 * A pointer field is an Option: None is nullptr, Some(bytes) is the memory it
 * points at, copied when the pointer is produced. A thrown exception is an Err.
 */
module E2eSession {
  import opened Bytes
  import opened Wrappers
  import ArenaCore
  import E2eArena
  import Entropy
  import XorCipher
  import Auth

  /** The exception classes the four classes throw. */
  datatype Failure = OverflowError | InvalidArgument | RuntimeError

  datatype KeyPair = KeyPair(publicKey: Option<seq<byte>>, secretKey: Option<seq<byte>>,
                             publicKeyLen: nat, secretKeyLen: nat)
  {
    /** KeyPair::is_valid(): both pointers set and both lengths positive. */
    predicate IsValid()
    {
      publicKey.Some? && secretKey.Some? && publicKeyLen > 0 && secretKeyLen > 0
    }

    /** Each pointer that is set points at as many bytes as its length field says. */
    predicate WellFormed()
    {
      && (publicKey.Some? ==> |publicKey.value| == publicKeyLen)
      && (secretKey.Some? ==> |secretKey.value| == secretKeyLen)
    }
  }

  /** KeyPair(): two null pointers and zero lengths. */
  const NO_KEYS: KeyPair := KeyPair(None, None, 0, 0)

  datatype EncryptedMessage = EncryptedMessage(nonce: Option<seq<byte>>, nonceLen: nat,
                                               ciphertext: Option<seq<byte>>, ciphertextLen: nat,
                                               mac: Option<seq<byte>>, macLen: nat)
  {
    /** EncryptedMessage::is_valid(): the three pointers are set; the lengths are not looked at. */
    predicate IsValid()
    {
      nonce.Some? && ciphertext.Some? && mac.Some?
    }

    /**
     * What decrypt() may read: a `ui64` ciphertext length, and a ciphertext
     * buffer holding the `ciphertext_len - 16` bytes it deciphers.
     */
    predicate Readable()
    {
      && ciphertextLen < U64_LIMIT
      && (ciphertext.Some? && BOX_MAC_BYTES <= ciphertextLen ==>
            ciphertextLen - BOX_MAC_BYTES <= |ciphertext.value|)
    }
  }

  datatype DecryptedMessage = DecryptedMessage(plaintext: Option<seq<byte>>, plaintextLen: nat,
                                               verificationPassed: bool)
  {
    /** DecryptedMessage::is_valid(). */
    predicate IsValid()
    {
      plaintext.Some? && plaintextLen > 0 && verificationPassed
    }

    /** get_text(): `plaintext_len` bytes from the pointer (NUL bytes included), or "". */
    function GetText(): (t: seq<byte>)
      requires plaintext.Some? ==> plaintextLen <= |plaintext.value|
      ensures plaintext.Some? && plaintextLen > 0 ==> t == plaintext.value[..plaintextLen]
      ensures plaintext.None? || plaintextLen == 0 ==> t == []
    {
      if plaintext.Some? && plaintextLen > 0 then plaintext.value[..plaintextLen] else []
    }
  }

  /** KeyManager::validate_keypair: both pointers set and both lengths exactly 32. */
  predicate ValidateKeypair(kp: KeyPair)
  {
    && kp.publicKey.Some? && kp.secretKey.Some?
    && kp.publicKeyLen == PUBLIC_KEY_BYTES && kp.secretKeyLen == SECRET_KEY_BYTES
  }

  /** A pair the manager accepts also passes KeyPair::is_valid, but not the other way round. */
  lemma ValidatedIsValid(kp: KeyPair)
    ensures ValidateKeypair(kp) ==> kp.IsValid()
    ensures KeyPair(Some([1]), Some([1]), 1, 1).IsValid()
    ensures !ValidateKeypair(KeyPair(Some([1]), Some([1]), 1, 1))
  {
  }

  /**
   * The envelope MessageEncryptor::encrypt builds from a nonce and a
   * plaintext: XOR under `recipient_pk ^ sender_sk` followed by the 16 bytes
   * the zeroing push left, and a tag over the XORed bytes keyed with `sender_sk`.
   */
  function Seal(nonce: seq<byte>, plaintext: seq<byte>, recipientPk: seq<byte>, senderSk: seq<byte>)
    : (m: EncryptedMessage)
    requires |recipientPk| >= KEY_BYTES && |senderSk| >= KEY_BYTES
    ensures m.IsValid() && m.nonce == Some(nonce) && m.nonceLen == NONCE_BYTES
    ensures m.ciphertextLen == |plaintext| + BOX_MAC_BYTES == |m.ciphertext.value|
    ensures m.macLen == MAC_BYTES && |m.mac.value| == MAC_BYTES
  {
    var body := XorCipher.XorStream(plaintext, SharedKey(recipientPk, senderSk));
    EncryptedMessage(Some(nonce), NONCE_BYTES, Some(body + Zeros(BOX_MAC_BYTES)),
                     |plaintext| + BOX_MAC_BYTES,
                     Some(Auth.AuthTag(Auth.AuthHash(body, senderSk))), MAC_BYTES)
  }

  /** `ciphertext_len - 16` in `ui64`: below 16 it wraps to a number near 2^64. */
  function PlaintextLen(m: EncryptedMessage): (n: nat)
    requires m.ciphertextLen < U64_LIMIT
    ensures n < U64_LIMIT
    ensures BOX_MAC_BYTES <= m.ciphertextLen ==> n + BOX_MAC_BYTES == m.ciphertextLen
    ensures m.ciphertextLen < BOX_MAC_BYTES ==> n >= U64_LIMIT - BOX_MAC_BYTES
  {
    (m.ciphertextLen - BOX_MAC_BYTES) % U64_LIMIT
  }

  /** The message MessageDecryptor::decrypt returns once its plaintext block is allocated. */
  function Open(m: EncryptedMessage, senderPk: seq<byte>, recipientSk: seq<byte>): (d: DecryptedMessage)
    requires m.Readable() && m.ciphertext.Some? && BOX_MAC_BYTES <= m.ciphertextLen
    requires |senderPk| >= KEY_BYTES && |recipientSk| >= KEY_BYTES
    ensures d.plaintext.Some? && d.verificationPassed
    ensures d.plaintextLen == |d.plaintext.value| == m.ciphertextLen - BOX_MAC_BYTES
  {
    var n := m.ciphertextLen - BOX_MAC_BYTES;
    DecryptedMessage(Some(XorCipher.XorStream(m.ciphertext.value[..n], SharedKey(senderPk, recipientSk))),
                     n, true)
  }

  /**
   * Opening a sealed envelope gives back the plaintext exactly when the
   * encryptor's key `recipient_pk ^ sender_sk` and the decryptor's key
   * `sender_pk ^ recipient_sk` agree on the positions the plaintext uses.
   */
  lemma OpenSealIff(nonce: seq<byte>, p: seq<byte>, recipientPk: seq<byte>, senderSk: seq<byte>,
                    senderPk: seq<byte>, recipientSk: seq<byte>)
    requires |recipientPk| >= KEY_BYTES && |senderSk| >= KEY_BYTES
    requires |senderPk| >= KEY_BYTES && |recipientSk| >= KEY_BYTES
    requires |p| + BOX_MAC_BYTES < U64_LIMIT
    ensures Seal(nonce, p, recipientPk, senderSk).Readable()
    ensures Open(Seal(nonce, p, recipientPk, senderSk), senderPk, recipientSk).plaintextLen == |p|
    ensures Open(Seal(nonce, p, recipientPk, senderSk), senderPk, recipientSk).plaintext == Some(p)
        <==> KeysAgreeOn(SharedKey(recipientPk, senderSk), SharedKey(senderPk, recipientSk), |p|)
  {
    var m := Seal(nonce, p, recipientPk, senderSk);
    var body := XorCipher.XorStream(p, SharedKey(recipientPk, senderSk));
    assert m.ciphertext.value[..|p|] == body;
    XorCipher.RoundTripIff(p, SharedKey(recipientPk, senderSk), SharedKey(senderPk, recipientSk));
  }

  /** Over 32 or more positions two 32-byte keys agree only if they are equal. */
  lemma AgreeOnLongStream(k1: seq<byte>, k2: seq<byte>, n: nat)
    requires |k1| == KEY_BYTES && |k2| == KEY_BYTES && n >= KEY_BYTES
    ensures KeysAgreeOn(k1, k2, n) <==> k1 == k2
  {
    if KeysAgreeOn(k1, k2, n) {
      forall i | 0 <= i < KEY_BYTES ensures k1[i] == k2[i] {
        assert KeyAt(k1, i) == KeyAt(k2, i);
      }
    }
  }

  /**
   * For a message of 32 bytes or more the round trip works exactly when both
   * parties' own `public ^ secret` values coincide, which two independently
   * drawn key pairs almost never satisfy.
   */
  lemma LongMessageRoundTrip(nonce: seq<byte>, p: seq<byte>, senderPk: seq<byte>, senderSk: seq<byte>,
                             recipientPk: seq<byte>, recipientSk: seq<byte>)
    requires |recipientPk| >= KEY_BYTES && |senderSk| >= KEY_BYTES
    requires |senderPk| >= KEY_BYTES && |recipientSk| >= KEY_BYTES
    requires KEY_BYTES <= |p| && |p| + BOX_MAC_BYTES < U64_LIMIT
    ensures Open(Seal(nonce, p, recipientPk, senderSk), senderPk, recipientSk).plaintext == Some(p)
        <==> SharedKey(senderPk, senderSk) == SharedKey(recipientPk, recipientSk)
  {
    OpenSealIff(nonce, p, recipientPk, senderSk, senderPk, recipientSk);
    AgreeOnLongStream(SharedKey(recipientPk, senderSk), SharedKey(senderPk, recipientSk), |p|);
    SharedKeysAgree(senderPk, senderSk, recipientPk, recipientSk);
  }

  /**
   * The tag is made with `sender_sk` over the XORed bytes; once the key halves
   * agree the opened text comes back whole, NUL bytes included, through get_text().
   */
  lemma ReceivedTextWhole(nonce: seq<byte>, p: seq<byte>, recipientPk: seq<byte>, senderSk: seq<byte>,
                          senderPk: seq<byte>, recipientSk: seq<byte>)
    requires |recipientPk| >= KEY_BYTES && |senderSk| >= KEY_BYTES
    requires |senderPk| >= KEY_BYTES && |recipientSk| >= KEY_BYTES
    requires |p| + BOX_MAC_BYTES < U64_LIMIT
    requires SharedKey(recipientPk, senderSk) == SharedKey(senderPk, recipientSk)
    ensures Open(Seal(nonce, p, recipientPk, senderSk), senderPk, recipientSk).GetText() == p
  {
    OpenSealIff(nonce, p, recipientPk, senderSk, senderPk, recipientSk);
  }

  /**
   * An envelope shorter than its 16 MAC bytes makes decrypt() ask for about
   * 2^64 bytes. With the exact capacity comparison the model's arenas use, no
   * arena holds that and the push throws: decrypt ends in OverflowError.
   */
  lemma ShortCiphertextOverflows(s: ArenaCore.ArenaState, m: EncryptedMessage)
    requires s.Inv() && s.base == E2eArena.ARENA_BASE_POS && s.capacity < U64_LIMIT
    requires m.ciphertextLen < BOX_MAC_BYTES
    ensures ArenaCore.Push(s, PlaintextLen(m)).block.None?
  {
  }

  /**
   * The same request against push as written (end-to-encryption.cpp:78-86):
   * `pos_aligned + size` wraps in `ui64`, so the push succeeds whenever the
   * aligned cursor is within capacity. The cursor then moves back below the
   * block it returned, and the block's zeroing range runs past the capacity.
   */
  lemma ShortCiphertextWraps(s: ArenaCore.ArenaState, m: EncryptedMessage)
    requires s.Inv() && s.base == E2eArena.ARENA_BASE_POS && s.capacity < U64_LIMIT
    requires m.ciphertextLen < BOX_MAC_BYTES
    requires ArenaCore.AlignUp(s.pos) <= s.capacity
    ensures
      var aligned := ArenaCore.AlignUp(s.pos);
      var r := ArenaCore.PushAsWritten(s, PlaintextLen(m));
      && r.block == Some(aligned)
      && r.next == s.(pos := aligned + m.ciphertextLen - BOX_MAC_BYTES)
      && r.next.pos < aligned
      && aligned + PlaintextLen(m) > s.capacity
      && ArenaCore.Push(s, PlaintextLen(m)).block.None?
  {
    var aligned := ArenaCore.AlignUp(s.pos);
    var size := PlaintextLen(m);
    assert size == U64_LIMIT - BOX_MAC_BYTES + m.ciphertextLen;
    assert s.pos + ArenaCore.ARENA_ALIGN - 1 < U64_LIMIT;
    assert ArenaCore.AlignUp64(s.pos) == aligned;
    var sum := aligned + size;
    assert sum - U64_LIMIT == aligned + m.ciphertextLen - BOX_MAC_BYTES;
    assert sum % U64_LIMIT == sum - U64_LIMIT;
  }

  /** KeyManager: generates key pairs into the shared arena and counts them. */
  class KeyManager {
    const arena: E2eArena.MemArena
    var keypairsGenerated: nat

    constructor (arena: E2eArena.MemArena)
      ensures this.arena == arena && keypairsGenerated == 0
    {
      this.arena := arena;
      keypairsGenerated := 0;
    }

    /**
     * generate_keypair(): two zeroed 32-byte pushes, each filled with random
     * bytes. An overflowing push throws (the null checks after it can never
     * fire, since push never returns null) and the counter is unchanged.
     */
    method GenerateKeypair(rng: Entropy.Rng) returns (r: Result<KeyPair, Failure>)
      requires arena.Valid()
      modifies this, arena, arena.buffer, rng
      ensures arena.Valid()
      ensures rng.seed == old(rng.seed) && rng.initialized == old(rng.initialized)
      ensures arena.KeepsBelow(old(arena.buffer[..]), old(arena.pos))
      ensures
        var first := ArenaCore.Push(old(arena.State()), PUBLIC_KEY_BYTES);
        var second := ArenaCore.Push(first.next, SECRET_KEY_BYTES);
        && (r.Ok? <==> first.block.Some? && second.block.Some?)
        && arena.State() == (if first.block.None? then old(arena.State()) else second.next)
      ensures r.Err? ==> r.error == OverflowError && keypairsGenerated == old(keypairsGenerated)
                         && rng.drawn == old(rng.drawn)
      ensures r.Ok? ==>
        && keypairsGenerated == old(keypairsGenerated) + 1
        && rng.drawn == old(rng.drawn) + PUBLIC_KEY_BYTES + SECRET_KEY_BYTES
        && r.value == KeyPair(Some(rng.Draws(old(rng.drawn), PUBLIC_KEY_BYTES)),
                              Some(rng.Draws(old(rng.drawn) + PUBLIC_KEY_BYTES, SECRET_KEY_BYTES)),
                              PUBLIC_KEY_BYTES, SECRET_KEY_BYTES)
        && ValidateKeypair(r.value) && r.value.WellFormed()
    {
      var pk := arena.Push(PUBLIC_KEY_BYTES, false);
      if pk.None? {
        return Err(OverflowError);
      }
      var sk := arena.Push(SECRET_KEY_BYTES, false);
      if sk.None? {
        return Err(OverflowError);
      }
      rng.RandomBytes(arena.buffer, pk.value, PUBLIC_KEY_BYTES);
      var pkBytes := arena.buffer[pk.value..pk.value + PUBLIC_KEY_BYTES];
      rng.RandomBytes(arena.buffer, sk.value, SECRET_KEY_BYTES);
      var skBytes := arena.buffer[sk.value..sk.value + SECRET_KEY_BYTES];
      keypairsGenerated := keypairsGenerated + 1;
      r := Ok(KeyPair(Some(pkBytes), Some(skBytes), PUBLIC_KEY_BYTES, SECRET_KEY_BYTES));
    }
  }

  /** MessageEncryptor: seals messages into the shared arena and counts them. */
  class MessageEncryptor {
    const arena: E2eArena.MemArena
    var messagesEncrypted: nat

    constructor (arena: E2eArena.MemArena)
      ensures this.arena == arena && messagesEncrypted == 0
    {
      this.arena := arena;
      messagesEncrypted := 0;
    }

    /**
     * encrypt(plaintext, plaintext_len, recipient_pk, sender_sk): reject null
     * arguments before touching the arena; push and fill a random nonce; push
     * `plaintext_len + 16` zeroed bytes and XOR the plaintext into the first
     * `plaintext_len` of them; push a tag and compute it over those bytes with
     * `sender_sk`. An overflowing push throws and keeps what was done before it.
     * The `+ 16` is exact here: a plaintext of 2^64 - 16 bytes or more cannot be addressed.
     */
    method Encrypt(plaintext: Option<seq<byte>>, plaintextLen: nat, recipientPk: Option<seq<byte>>,
                   senderSk: Option<seq<byte>>, rng: Entropy.Rng)
      returns (r: Result<EncryptedMessage, Failure>)
      requires arena.Valid()
      requires plaintext.Some? ==> plaintextLen <= |plaintext.value| && plaintextLen + BOX_MAC_BYTES < U64_LIMIT
      requires recipientPk.Some? ==> |recipientPk.value| >= KEY_BYTES
      requires senderSk.Some? ==> |senderSk.value| >= KEY_BYTES
      modifies this, arena, arena.buffer, rng
      ensures arena.Valid()
      ensures rng.seed == old(rng.seed) && rng.initialized == old(rng.initialized)
      ensures arena.KeepsBelow(old(arena.buffer[..]), old(arena.pos))
      ensures plaintext.None? || recipientPk.None? || senderSk.None? ==>
        && r == Err(InvalidArgument) && arena.State() == old(arena.State())
        && rng.drawn == old(rng.drawn) && messagesEncrypted == old(messagesEncrypted)
      ensures plaintext.Some? && recipientPk.Some? && senderSk.Some? ==>
        var nonceStep := ArenaCore.Push(old(arena.State()), NONCE_BYTES);
        var bodyStep := ArenaCore.Push(nonceStep.next, plaintextLen + BOX_MAC_BYTES);
        var macStep := ArenaCore.Push(bodyStep.next, MAC_BYTES);
        && (r.Ok? <==> nonceStep.block.Some? && bodyStep.block.Some? && macStep.block.Some?)
        && arena.State() == (if nonceStep.block.None? then old(arena.State())
                             else if bodyStep.block.None? then nonceStep.next
                             else macStep.next)
        && rng.drawn == old(rng.drawn) + (if nonceStep.block.Some? then NONCE_BYTES else 0)
        && messagesEncrypted == old(messagesEncrypted) + (if r.Ok? then 1 else 0)
        && (r.Err? ==> r.error == OverflowError)
        && (r.Ok? ==> r.value == Seal(rng.Draws(old(rng.drawn), NONCE_BYTES), plaintext.value[..plaintextLen],
                                      recipientPk.value, senderSk.value))
    {
      if plaintext.None? || recipientPk.None? || senderSk.None? {
        return Err(InvalidArgument);
      }
      var nonce := PushRandom(arena, rng, NONCE_BYTES);
      if nonce.None? {
        return Err(OverflowError);
      }
      var ciphertextLen := plaintextLen + BOX_MAC_BYTES;
      var ciphertext := PushCiphertext(arena, plaintext.value, plaintextLen, recipientPk.value, senderSk.value);
      if ciphertext.None? {
        return Err(OverflowError);
      }
      var mac := PushTag(arena, ciphertext.value, plaintextLen, senderSk.value);
      if mac.None? {
        return Err(OverflowError);
      }
      messagesEncrypted := messagesEncrypted + 1;
      r := Ok(EncryptedMessage(nonce, NONCE_BYTES, ciphertext, ciphertextLen, mac, MAC_BYTES));
    }
  }

  /** A zeroing push of `len` bytes filled by random_bytes; the block's bytes, or None on overflow. */
  method PushRandom(arena: E2eArena.MemArena, rng: Entropy.Rng, len: nat) returns (block: Option<seq<byte>>)
    requires arena.Valid()
    modifies arena, arena.buffer, rng
    ensures arena.Valid()
    ensures rng.seed == old(rng.seed) && rng.initialized == old(rng.initialized)
    ensures arena.KeepsBelow(old(arena.buffer[..]), old(arena.pos))
    ensures arena.State() == ArenaCore.Push(old(arena.State()), len).next
    ensures block.Some? <==> ArenaCore.Push(old(arena.State()), len).block.Some?
    ensures rng.drawn == old(rng.drawn) + (if block.Some? then len else 0)
    ensures block.Some? ==> block.value == rng.Draws(old(rng.drawn), len)
  {
    var at := arena.Push(len, false);
    if at.None? {
      return None;
    }
    rng.RandomBytes(arena.buffer, at.value, len);
    block := Some(arena.buffer[at.value..at.value + len]);
  }

  /**
   * A zeroing push of `len + 16` bytes, the first `len` of them XORed from the
   * plaintext under `pk ^ sk`; the block's bytes, or None on overflow.
   */
  method PushCiphertext(arena: E2eArena.MemArena, plaintext: seq<byte>, len: nat, pk: seq<byte>, sk: seq<byte>)
    returns (block: Option<seq<byte>>)
    requires arena.Valid() && len <= |plaintext| && |pk| >= KEY_BYTES && |sk| >= KEY_BYTES
    modifies arena, arena.buffer
    ensures arena.Valid()
    ensures arena.KeepsBelow(old(arena.buffer[..]), old(arena.pos))
    ensures arena.State() == ArenaCore.Push(old(arena.State()), len + BOX_MAC_BYTES).next
    ensures block.Some? <==> ArenaCore.Push(old(arena.State()), len + BOX_MAC_BYTES).block.Some?
    ensures block.Some? ==>
      block.value == XorCipher.XorStream(plaintext[..len], SharedKey(pk, sk)) + Zeros(BOX_MAC_BYTES)
  {
    var at := arena.Push(len + BOX_MAC_BYTES, false);
    if at.None? {
      return None;
    }
    var sharedKey := DeriveSharedKey(pk, sk);
    XorCipher.SimpleEncrypt(arena.buffer, at.value, plaintext, len, sharedKey, KEY_BYTES);
    var bytes := arena.buffer[at.value..at.value + len + BOX_MAC_BYTES];
    assert bytes[..len] == arena.buffer[at.value..at.value + len];
    BodyLayout(bytes, plaintext[..len], sharedKey);
    block := Some(bytes);
  }

  /** A zeroing push of 16 bytes holding compute_auth over `data[..len]`; None on overflow. */
  method PushTag(arena: E2eArena.MemArena, data: seq<byte>, len: nat, sk: seq<byte>)
    returns (block: Option<seq<byte>>)
    requires arena.Valid() && len <= |data| && |sk| >= KEY_BYTES
    modifies arena, arena.buffer
    ensures arena.Valid()
    ensures arena.KeepsBelow(old(arena.buffer[..]), old(arena.pos))
    ensures arena.State() == ArenaCore.Push(old(arena.State()), MAC_BYTES).next
    ensures block.Some? <==> ArenaCore.Push(old(arena.State()), MAC_BYTES).block.Some?
    ensures block.Some? ==> block.value == Auth.AuthTag(Auth.AuthHash(data[..len], sk))
  {
    var at := arena.Push(MAC_BYTES, false);
    if at.None? {
      return None;
    }
    Auth.ComputeAuth(arena.buffer, at.value, data, len, sk);
    block := Some(arena.buffer[at.value..at.value + MAC_BYTES]);
  }

  lemma BodyLayout(body: seq<byte>, p: seq<byte>, key: seq<byte>)
    requires |key| == KEY_BYTES && |body| == |p| + BOX_MAC_BYTES
    requires body[..|p|] == XorCipher.XorStream(p, key[..KEY_BYTES])
    requires forall i | |p| <= i < |body| :: body[i] == 0
    ensures body == XorCipher.XorStream(p, key) + Zeros(BOX_MAC_BYTES)
  {
    assert key[..KEY_BYTES] == key;
  }

  /** MessageDecryptor: opens envelopes into the shared arena and counts them. */
  class MessageDecryptor {
    const arena: E2eArena.MemArena
    var messagesDecrypted: nat
    var verificationFailures: nat

    constructor (arena: E2eArena.MemArena)
      ensures this.arena == arena && messagesDecrypted == 0 && verificationFailures == 0
    {
      this.arena := arena;
      messagesDecrypted := 0;
      verificationFailures := 0;
    }

    /**
     * decrypt(msg, sender_pk, recipient_sk): reject null keys and an envelope
     * with a null field; ask verify_auth, which always accepts, so the failure
     * branch and its counter are unreachable; push `ciphertext_len - 16` bytes
     * (wrapping in `ui64`) and XOR the ciphertext back under `sender_pk ^ recipient_sk`.
     */
    method Decrypt(m: EncryptedMessage, senderPk: Option<seq<byte>>, recipientSk: Option<seq<byte>>)
      returns (r: Result<DecryptedMessage, Failure>)
      requires arena.Valid() && m.Readable()
      requires senderPk.Some? ==> |senderPk.value| >= KEY_BYTES
      requires recipientSk.Some? ==> |recipientSk.value| >= KEY_BYTES
      modifies this, arena, arena.buffer
      ensures arena.Valid() && verificationFailures == old(verificationFailures)
      ensures arena.KeepsBelow(old(arena.buffer[..]), old(arena.pos))
      ensures senderPk.None? || recipientSk.None? || !m.IsValid() ==>
        && r == Err(InvalidArgument) && arena.State() == old(arena.State())
        && messagesDecrypted == old(messagesDecrypted)
      ensures senderPk.Some? && recipientSk.Some? && m.IsValid() ==>
        var step := ArenaCore.Push(old(arena.State()), PlaintextLen(m));
        && arena.State() == step.next
        && (r.Ok? <==> step.block.Some?)
        && (r.Err? ==> r.error == OverflowError && messagesDecrypted == old(messagesDecrypted))
        && (r.Ok? ==> && BOX_MAC_BYTES <= m.ciphertextLen
                      && r.value == Open(m, senderPk.value, recipientSk.value)
                      && messagesDecrypted == old(messagesDecrypted) + 1)
    {
      if senderPk.None? || recipientSk.None? {
        return Err(InvalidArgument);
      }
      if !m.IsValid() {
        return Err(InvalidArgument);
      }
      if !Auth.VerifyAuth(m.mac.value, m.ciphertext.value, PlaintextLen(m), senderPk.value) {
        assert false;
      }
      var plaintextLen := PlaintextLen(m);
      var plaintext := arena.Push(plaintextLen, false);
      if plaintext.None? {
        return Err(OverflowError);
      }
      if m.ciphertextLen < BOX_MAC_BYTES {
        ShortCiphertextOverflows(old(arena.State()), m);
        assert false;
      }
      var sharedKey := DeriveSharedKey(senderPk.value, recipientSk.value);
      XorCipher.SimpleDecrypt(arena.buffer, plaintext.value, m.ciphertext.value, plaintextLen, sharedKey, KEY_BYTES);
      var bytes := arena.buffer[plaintext.value..plaintext.value + plaintextLen];
      assert sharedKey[..KEY_BYTES] == sharedKey;
      messagesDecrypted := messagesDecrypted + 1;
      r := Ok(DecryptedMessage(Some(bytes), plaintextLen, true));
    }
  }

  /** The three states of a session, as is_initialized and the remote public key pointer encode them. */
  datatype Phase = Created | Initialized | RemoteKeySet

  /** SecureSession: one party's keys, its peer's keys and a message counter over the shared arena. */
  class SecureSession {
    const arena: E2eArena.MemArena
    const keyManager: KeyManager
    const encryptor: MessageEncryptor
    const decryptor: MessageDecryptor
    const sessionId: seq<char>
    var localKeypair: KeyPair
    var remoteKeypair: KeyPair
    var messageCount: nat
    var isInitialized: bool

    function Phase(): Phase
      reads this
    {
      if !isInitialized then Created
      else if remoteKeypair.publicKey.None? then Initialized
      else RemoteKeySet
    }

    /**
     * The three workers share the session's arena; the local pair comes from
     * generate_keypair once initialized; a remote pair exists only after that
     * and has passed validate_keypair.
     */
    ghost predicate Valid()
      reads this, arena
    {
      && keyManager.arena == arena && encryptor.arena == arena && decryptor.arena == arena
      && arena.Valid()
      && localKeypair.WellFormed() && remoteKeypair.WellFormed()
      && (isInitialized ==> ValidateKeypair(localKeypair))
      && (!isInitialized ==> remoteKeypair == NO_KEYS)
      && (remoteKeypair.publicKey.Some? ==> ValidateKeypair(remoteKeypair))
    }

    /** SecureSession(arena, id): no keys, no messages, not initialized. */
    constructor (arena: E2eArena.MemArena, id: seq<char>)
      requires arena.Valid()
      ensures Valid() && Phase() == Created && this.arena == arena && sessionId == id
      ensures localKeypair == NO_KEYS && remoteKeypair == NO_KEYS && messageCount == 0
      ensures fresh(keyManager) && fresh(encryptor) && fresh(decryptor)
      ensures keyManager.keypairsGenerated == 0 && encryptor.messagesEncrypted == 0
      ensures decryptor.messagesDecrypted == 0 && decryptor.verificationFailures == 0
    {
      this.arena := arena;
      keyManager := new KeyManager(arena);
      encryptor := new MessageEncryptor(arena);
      decryptor := new MessageDecryptor(arena);
      sessionId := id;
      localKeypair := NO_KEYS;
      remoteKeypair := NO_KEYS;
      messageCount := 0;
      isInitialized := false;
    }

    /**
     * initialize(): throws if already initialized; otherwise generates the
     * local pair (an overflow leaves the session uninitialized) and marks the
     * session initialized.
     */
    method Initialize(rng: Entropy.Rng) returns (err: Option<Failure>)
      requires Valid()
      modifies this, keyManager, arena, arena.buffer, rng
      ensures Valid()
      ensures remoteKeypair == old(remoteKeypair) && messageCount == old(messageCount)
      ensures rng.seed == old(rng.seed) && rng.initialized == old(rng.initialized)
      ensures arena.KeepsBelow(old(arena.buffer[..]), old(arena.pos))
      ensures old(isInitialized) ==>
        && err == Some(RuntimeError) && isInitialized && localKeypair == old(localKeypair)
        && arena.State() == old(arena.State()) && rng.drawn == old(rng.drawn)
        && keyManager.keypairsGenerated == old(keyManager.keypairsGenerated)
      ensures !old(isInitialized) ==>
        var first := ArenaCore.Push(old(arena.State()), PUBLIC_KEY_BYTES);
        var second := ArenaCore.Push(first.next, SECRET_KEY_BYTES);
        && (err.None? <==> first.block.Some? && second.block.Some?)
        && (err.None? <==> isInitialized)
        && arena.State() == (if first.block.None? then old(arena.State()) else second.next)
        && (err.Some? ==>
              && err == Some(OverflowError) && localKeypair == old(localKeypair)
              && keyManager.keypairsGenerated == old(keyManager.keypairsGenerated)
              && rng.drawn == old(rng.drawn))
        && (err.None? ==>
              && keyManager.keypairsGenerated == old(keyManager.keypairsGenerated) + 1
              && rng.drawn == old(rng.drawn) + PUBLIC_KEY_BYTES + SECRET_KEY_BYTES
              && localKeypair == KeyPair(Some(rng.Draws(old(rng.drawn), PUBLIC_KEY_BYTES)),
                                         Some(rng.Draws(old(rng.drawn) + PUBLIC_KEY_BYTES, SECRET_KEY_BYTES)),
                                         PUBLIC_KEY_BYTES, SECRET_KEY_BYTES))
    {
      if isInitialized {
        return Some(RuntimeError);
      }
      var kp := keyManager.GenerateKeypair(rng);
      if kp.Err? {
        return Some(kp.error);
      }
      localKeypair := kp.value;
      isInitialized := true;
      err := None;
    }

    /**
     * set_remote_keypair(kp): throws before initialize() or when the manager
     * rejects the pair, leaving the remote pair as it was.
     */
    method SetRemoteKeypair(kp: KeyPair) returns (err: Option<Failure>)
      requires Valid() && kp.WellFormed()
      modifies this
      ensures Valid()
      ensures localKeypair == old(localKeypair) && isInitialized == old(isInitialized)
      ensures messageCount == old(messageCount)
      ensures !old(isInitialized) ==> err == Some(RuntimeError)
      ensures old(isInitialized) && !ValidateKeypair(kp) ==> err == Some(InvalidArgument)
      ensures err.Some? ==> remoteKeypair == old(remoteKeypair)
      ensures err.None? <==> old(isInitialized) && ValidateKeypair(kp)
      ensures err.None? ==> remoteKeypair == kp && Phase() == RemoteKeySet
    {
      if !isInitialized {
        return Some(RuntimeError);
      }
      if !ValidateKeypair(kp) {
        return Some(InvalidArgument);
      }
      remoteKeypair := kp;
      err := None;
    }

    /**
     * send_message(text): throws unless the remote key is set; then counts the
     * message and encrypts it for the remote public key with the local secret key.
     */
    method SendMessage(text: seq<byte>, rng: Entropy.Rng) returns (r: Result<EncryptedMessage, Failure>)
      requires Valid() && |text| + BOX_MAC_BYTES < U64_LIMIT
      modifies this, encryptor, arena, arena.buffer, rng
      ensures Valid()
      ensures localKeypair == old(localKeypair) && remoteKeypair == old(remoteKeypair)
      ensures isInitialized == old(isInitialized)
      ensures rng.seed == old(rng.seed) && rng.initialized == old(rng.initialized)
      ensures arena.KeepsBelow(old(arena.buffer[..]), old(arena.pos))
      ensures old(Phase()) != RemoteKeySet ==>
        && r == Err(RuntimeError) && messageCount == old(messageCount)
        && arena.State() == old(arena.State()) && rng.drawn == old(rng.drawn)
        && encryptor.messagesEncrypted == old(encryptor.messagesEncrypted)
      ensures old(Phase()) == RemoteKeySet ==>
        var nonceStep := ArenaCore.Push(old(arena.State()), NONCE_BYTES);
        var bodyStep := ArenaCore.Push(nonceStep.next, |text| + BOX_MAC_BYTES);
        var macStep := ArenaCore.Push(bodyStep.next, MAC_BYTES);
        && messageCount == old(messageCount) + 1
        && (r.Ok? <==> nonceStep.block.Some? && bodyStep.block.Some? && macStep.block.Some?)
        && arena.State() == (if nonceStep.block.None? then old(arena.State())
                             else if bodyStep.block.None? then nonceStep.next
                             else macStep.next)
        && rng.drawn == old(rng.drawn) + (if nonceStep.block.Some? then NONCE_BYTES else 0)
        && encryptor.messagesEncrypted == old(encryptor.messagesEncrypted) + (if r.Ok? then 1 else 0)
        && (r.Err? ==> r.error == OverflowError)
        && (r.Ok? ==> r.value == Seal(rng.Draws(old(rng.drawn), NONCE_BYTES), text,
                                      remoteKeypair.publicKey.value, localKeypair.secretKey.value))
    {
      if !isInitialized {
        return Err(RuntimeError);
      }
      if remoteKeypair.publicKey.None? {
        return Err(RuntimeError);
      }
      messageCount := messageCount + 1;
      assert text[..|text|] == text;
      r := encryptor.Encrypt(Some(text), |text|, remoteKeypair.publicKey, localKeypair.secretKey, rng);
    }

    /**
     * receive_message(msg): throws unless the remote key is set; then counts
     * the message and decrypts it with the remote public key and the local secret key.
     */
    method ReceiveMessage(m: EncryptedMessage) returns (r: Result<DecryptedMessage, Failure>)
      requires Valid() && m.Readable()
      modifies this, decryptor, arena, arena.buffer
      ensures Valid()
      ensures localKeypair == old(localKeypair) && remoteKeypair == old(remoteKeypair)
      ensures isInitialized == old(isInitialized)
      ensures decryptor.verificationFailures == old(decryptor.verificationFailures)
      ensures arena.KeepsBelow(old(arena.buffer[..]), old(arena.pos))
      ensures old(Phase()) != RemoteKeySet ==>
        && r == Err(RuntimeError) && messageCount == old(messageCount)
        && arena.State() == old(arena.State())
        && decryptor.messagesDecrypted == old(decryptor.messagesDecrypted)
      ensures old(Phase()) == RemoteKeySet ==>
        && messageCount == old(messageCount) + 1
        && (r == Err(InvalidArgument) <==> !m.IsValid())
        && (!m.IsValid() ==>
              arena.State() == old(arena.State())
              && decryptor.messagesDecrypted == old(decryptor.messagesDecrypted))
        && (m.IsValid() ==>
              var step := ArenaCore.Push(old(arena.State()), PlaintextLen(m));
              && arena.State() == step.next
              && (r.Ok? <==> step.block.Some?)
              && (r.Err? ==> r.error == OverflowError)
              && decryptor.messagesDecrypted == old(decryptor.messagesDecrypted) + (if r.Ok? then 1 else 0))
        && (r.Ok? ==> && m.ciphertext.Some? && BOX_MAC_BYTES <= m.ciphertextLen
                      && r.value == Open(m, remoteKeypair.publicKey.value, localKeypair.secretKey.value))
    {
      if !isInitialized {
        return Err(RuntimeError);
      }
      if remoteKeypair.publicKey.None? {
        return Err(RuntimeError);
      }
      messageCount := messageCount + 1;
      r := decryptor.Decrypt(m, remoteKeypair.publicKey, localKeypair.secretKey);
    }
  }
}
