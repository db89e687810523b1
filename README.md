# A verified model of the end-to-end-encryption chat core

The repository is a two-party chat. It has three layers.

1. **Bump arenas.** Three copies exist:
   - `MemArena` in end-to-encryption.cpp, with `pop_to` and a checkpoint stack;
   - a cut-down `MemArena` in include/arena.h;
   - the C `mem_arena` in arena.c.
2. **Cipher, tag and sessions.** Two toy stream ciphers and a 64-bit hash tag with a verifier stub. On top of them sit key pairs, envelopes, a key manager, an encryptor, a decryptor and a session state machine (end-to-encryption.cpp), plus the header-only message layer of include/message.h.
3. **Framing.** A length-prefixed framing protocol. Its reader and writer threads are identical in src/server.cpp and src/client.cpp. It also contains the two orders of the public key exchange.

The model is written in Dafny and follows the source file by file.

| module | file | what it models |
|---|---|---|
| `ArenaCore` | arena_core.dfy | The cursor logic shared by all three arenas, on values: `ALIGN_UP_POW2`, push, pop, pop_to, both forms of clear, save/restore checkpoint. Also the arena invariant `base <= pos <= capacity`, the lemmas about checkpoints, and push as written in 64-bit arithmetic. |
| `E2eArena` | e2e_arena.dfy | The `MemArena` class of end-to-encryption.cpp. The buffer is an `array<byte>` that `push` zero-fills in place. A thrown `overflow_error` is `None`. |
| `HeaderArena` | header_arena.dfy | The `MemArena` of include/arena.h, which the networked programs use. |
| `CArena` | c_arena.dfy | `arena_create`, `arena_push` (zeroing when the flag is *set*), `arena_pop`, `arena_pop_to`, `arena_clear`, `PUSH_STRUCT` and `PUSH_ARRAY` of arena.c. |
| `Entropy` | entropy.dfy | The static random generator. It is an arbitrary oracle from (seed, draw index) to a byte. Both forms of `init` are included: reseed on every call, and reseed once under a flag. `random_bytes` writes into an array. |
| `XorCipher` | xor_cipher.dfy | The repeating-key XOR `simple_encrypt`/`simple_decrypt` of end-to-encryption.cpp. |
| `ChainCipher` | chain_cipher.dfy | The state-chaining cipher of include/crypto.h. |
| `Auth` | auth.dfy | `compute_auth`: a `bv64` hash of the data and 32 key bytes, written twice into a 16-byte tag. Also `verify_auth`, which accepts everything. |
| `E2eSession` | e2e_session.dfy | `KeyPair`, `EncryptedMessage`, `DecryptedMessage`, `KeyManager`, `MessageEncryptor`, `MessageDecryptor` and `SecureSession` (states Created, Initialized, RemoteKeySet) of end-to-encryption.cpp. |
| `Messages` | messages.dfy | `KeyPair::generate`, `Message::create_encrypted`, `decrypt_message` and the two hex helpers of include/message.h. |
| `Framing` | framing.dfy | `recv_thread_func` as written, as a loop over a sequence of recv results. It is proved equal to a step function `Run`, which carries the lemmas. |
| `Frames` | frames.dfy | The wire format the writer produces. Also a reader that reassembles frames across any recv sizes: the behaviour the as-written reader is meant to have. |
| `Writer` | writer.dfy | `send_thread_func`: the "exit" sentinel, the empty-line skip, and the two send-until-done loops over a sequence of send results. |
| `Endpoints` | endpoints.dfy | The `SecureServer`/`SecureClient` state: the 10 MiB arena, the own key pair generated at construction, and the send-then-receive and receive-then-send `exchange_keypairs`. |
| `Bytes`, `Word64`, `Wrappers` | bytes.dfy, word64.dfy, wrappers.dfy | Shared definitions:<br>• host-order `ui32` bytes;<br>• the `pk ^ sk` key derivation;<br>• C-string truncation;<br>• `memset`/`memcpy` loops;<br>• size constants;<br>• the injectivity of `h * 33` modulo 2^64;<br>• `Option`/`Result`. |

**How the C++ is represented.**

- A pointer is an `Option`. `None` is `nullptr`, and `Some(bytes)` holds the bytes it points at when the pointer is produced.
- A thrown exception becomes an `Err` result or a `None`.
- `ui64` quantities are `nat`s below `U64_LIMIT`. Where the source's arithmetic wraps, the wrap is written out.
- `sizeof(MemArena)` is 48: a pointer, two `ui64` and a `std::vector`. This assumes a 64-bit release build, with 8-byte pointers and a 24-byte `std::vector`. An MSVC debug build's vector is 32 bytes, which would move every offset that depends on it (the key offsets 48 and 80, the cursor 112, the cursors 40 and 96 under "## Findings"). `sizeof(mem_arena)` is 16.
- The size constants of both `CryptoEngine` classes are named constants in `Bytes`: 32, 32, 16, 16 and 16.

**Where the code falls short of the design it presents, the model follows the code.** The design is an end-to-end encrypted two-party chat. That is what the repository's name says, and what the comments of include/crypto.h and src/server.cpp describe ("XOR chaining", "read message length (4 bytes)", "read the message content", "Just wait for more data").

- The chat writer sends each typed line in cleartext: `Writer.WriteLoop`'s wire is `Frames.Wire` of the raw lines. None of the encryption layer is on the path between the console and the socket.
- The reader issues a single payload recv rather than reading the whole announced message. It drops an oversized length but then reads that frame's payload as further frames. A payload recv of 0 (the peer has closed) is retried for ever. See "## Findings".
- `verify_auth` accepts everything (include/crypto.h:75, "stub for now"). The tag is computed with the sender's secret key but would be checked with the sender's public key. The tag-failure branch of `decrypt` is therefore unreachable: `Auth.StubAcceptsTamperedData`, `E2eSession.MessageDecryptor.Decrypt`.
- The encryptor keys with `recipient_pk ^ sender_sk` and the decryptor with `sender_pk ^ recipient_sk`:
  - `Bytes.SharedKeysAgree`: the two keys are equal exactly when both parties' own `pk ^ sk` agree.
  - `E2eSession.OpenSealIff` and `E2eSession.LongMessageRoundTrip`: a round trip of 32 bytes or more succeeds only then.
  - The cipher round trips themselves hold for every key: `XorCipher.RoundTrip`, `ChainCipher.DecryptEncrypt`.
- The "state chaining" cipher of include/crypto.h:38-57 does not spread a corrupted byte through the rest of the message. Decryption chains on the ciphertext, so a changed ciphertext byte j alters exactly plaintext bytes j and j + 1 (`ChainCipher.DecryptLocality`).
- `receive_message` counts the message before decrypting, even when `decrypt` then throws.
- `decrypt` on an envelope whose `ciphertext_len` is below 16 wraps `ciphertext_len - 16` in `ui64`. It then asks the arena for nearly 2^64 bytes, which the wrapping push comparison accepts. See "## Findings".

## Model

| member | source | states |
|---|---|---|
| ArenaCore.AlignUp | end-to-encryption.cpp:35 | The result is the least multiple of 8 at or above `n`; it equals `n` exactly when `n` is aligned. |
| ArenaCore.AlignUp64 | include/arena.h:15 | Evaluated in `ui64`, the macro agrees with exact rounding whenever `n + 7` does not wrap. |
| ArenaCore.Push | end-to-encryption.cpp:78-95 | A push succeeds iff `AlignUp(pos) + size <= capacity`. On success the block is `AlignUp(pos)`, so it is aligned, at or past the old cursor and past the base, and it ends within capacity; the cursor moves to its end. On overflow nothing changes. The arena invariant is preserved. |
| ArenaCore.Pop | end-to-encryption.cpp:100-103 | The cursor becomes `max(base, pos - size)`, lowered by exactly `min(size, pos - base)`. Nothing else changes and the invariant holds. |
| ArenaCore.PopTo | end-to-encryption.cpp:108-111 | The cursor only goes down: to `max(target, base)` when `target < pos`; otherwise nothing changes. |
| ArenaCore.Save | end-to-encryption.cpp:124-127 | The cursor is appended to the checkpoint stack and nothing else changes. |
| ArenaCore.Restore | end-to-encryption.cpp:132-139 | An empty stack changes nothing. Otherwise the newest checkpoint is dropped and the cursor pop_to's it. The invariant is preserved. |
| ArenaCore.ClearByPopTo | end-to-encryption.cpp:116-119 | Leaves the cursor at the base and no checkpoints. |
| ArenaCore.ClearDirect | include/arena.h:89-92 | Leaves the cursor at the base and no checkpoints, keeping the invariant. |
| ArenaCore.ClearingsAgree | arena.c:136-138 | While the invariant holds, clearing through pop_to and assigning the base give the same state. |
| ArenaCore.PushThenPop | arena.c:109-129 | push(n) then pop(n) leaves the cursor at `AlignUp(old pos)`, which is the old state exactly when the old cursor was aligned. |
| ArenaCore.PushAll | end-to-encryption.cpp:78-95 | Any run of pushes, each allowed to overflow, keeps the arena invariant. When the packed end of the blocks (each aligned in turn, `ArenaCore.Packed`) is within capacity, none overflows, and the result is the old state with the cursor at that end. |
| ArenaCore.PushAllRaises | end-to-encryption.cpp:78-95 | Pushes only raise the cursor and change nothing else. |
| ArenaCore.RestoreAfterPushes | end-to-encryption.cpp:124-139 | save_checkpoint, any pushes, then restore_checkpoint give back exactly the state before the save. |
| ArenaCore.NestedCheckpoints | end-to-encryption.cpp:124-139 | Checkpoints are a LIFO stack: an inner save/restore pair inside an outer one leaves the outer restore returning the original state. |
| ArenaCore.PushAsWrittenWraps | end-to-encryption.cpp:78-86 | As written, a push of 2^64 - 8 bytes on a fresh 1 KiB arena succeeds and moves the cursor below the base, breaking the invariant. The exact comparison rejects it. |
| ArenaCore.PushAsWrittenAgreesWithoutWrap | include/arena.h:47-55 | When `AlignUp(pos) + size` fits in 64 bits, the written push is the exact one. |
| E2eArena.MemArena.constructor | end-to-encryption.cpp:54-61 | The buffer is allocated and all zero, the cursor is at the base and there are no checkpoints. |
| E2eArena.MemArena.Push | end-to-encryption.cpp:78-95 | The cursor and result follow `ArenaCore.Push`. The block is zeroed when `non_zero` is 0, and every other buffer byte keeps its value. |
| E2eArena.MemArena.Pop | end-to-encryption.cpp:100-103 | The new state is `ArenaCore.Pop` of the old one and the invariant holds. |
| E2eArena.MemArena.PopTo | end-to-encryption.cpp:108-111 | The new state is `ArenaCore.PopTo` of the old one. |
| E2eArena.MemArena.Clear | end-to-encryption.cpp:116-119 | The new state is `ArenaCore.ClearByPopTo`: base cursor, empty stack. |
| E2eArena.MemArena.SaveCheckpoint | end-to-encryption.cpp:124-127 | The new state is `ArenaCore.Save` of the old one. |
| E2eArena.MemArena.RestoreCheckpoint | end-to-encryption.cpp:132-139 | The new state is `ArenaCore.Restore` of the old one. |
| E2eArena.MemArena.GetUsed | end-to-encryption.cpp:158-160 | Base plus used is the cursor. |
| E2eArena.MemArena.GetAvailable | end-to-encryption.cpp:165-167 | The room left when the header fits. For an arena smaller than its header it is the `ui64` wrap-around `2^64 - (pos - capacity)`. |
| E2eArena.UsedPlusAvailable | end-to-encryption.cpp:158-167 | Used plus available is `capacity - base` whenever the capacity holds the header. |
| HeaderArena.MemArena.constructor | include/arena.h:29-35 | The pool is zeroed and the cursor starts at the base with no checkpoints. |
| HeaderArena.MemArena.Push | include/arena.h:47-63 | The cursor and result follow `ArenaCore.Push`. The block is zeroed when `non_zero` is 0, and the rest of the buffer is unchanged. |
| HeaderArena.MemArena.Pop | include/arena.h:66-69 | The new state is `ArenaCore.Pop` of the old one. |
| HeaderArena.MemArena.Clear | include/arena.h:89-92 | The cursor is assigned the base and the checkpoints are dropped (`ArenaCore.ClearDirect`). |
| HeaderArena.MemArena.GetUsed | include/arena.h:80-82 | Base plus used is the cursor. |
| HeaderArena.MemArena.GetAvailable | include/arena.h:84-86 | The room left, or the `ui64` wrap-around when the header does not fit. |
| HeaderArena.UsedPlusAvailable | include/arena.h:80-86 | Used plus available is `capacity - base` whenever the capacity holds the header. |
| CArena.MemArena.constructor | arena.c:98-103 | The capacity is recorded and the cursor set to the header size. |
| CArena.MemArena.Push | arena.c:109-124 | The cursor and result follow `ArenaCore.Push` (NULL on overflow, cursor unchanged). Every block starts at or past the header. The block is zeroed exactly when `non_zero` is set, the reverse of the C++ copies. |
| CArena.MemArena.PushStruct | arena.c:42 | PUSH_STRUCT yields a zeroed block of `sizeof(T)` bytes. |
| CArena.MemArena.PushArray | arena.c:43 | PUSH_ARRAY yields a zeroed block of `sizeof(T) * count` bytes, the product taken in `ui64`. |
| CArena.MemArena.Pop | arena.c:126-129 | The new state is `ArenaCore.Pop` of the old one. |
| CArena.MemArena.PopTo | arena.c:131-134 | The new state is `ArenaCore.PopTo` of the old one. |
| CArena.MemArena.Clear | arena.c:136-138 | The new state is `ArenaCore.ClearByPopTo`: the cursor is back at the header size. |
| Entropy.Rng.constructor | include/crypto.h:81-82 | The generator starts at the default seed, with nothing drawn and the `initialized` flag false. |
| Entropy.Rng.Reseed | end-to-encryption.cpp:300-303 | Every call reseeds from the entropy value and restarts the stream. |
| Entropy.Rng.InitOnce | include/crypto.h:22-28 | Afterwards the flag is set. A first call reseeds; any later call leaves seed and stream position unchanged. |
| Entropy.Rng.RandomBytes | end-to-encryption.cpp:308-313 | The `len` bytes at the offset become the next `len` draws, and nothing outside them changes. |
| XorCipher.DecryptWithOtherKey | end-to-encryption.cpp:319-333 | Decrypting with `k2` what `k1` encrypted gives `p[i] ^ k1[i % |k1|] ^ k2[i % |k2|]`. |
| XorCipher.RoundTripIff | end-to-encryption.cpp:319-333 | The round trip returns the plaintext iff the two keys agree on every position the plaintext uses. |
| XorCipher.RoundTrip | end-to-encryption.cpp:319-333 | With one key, simple_decrypt undoes simple_encrypt. |
| XorCipher.SimpleEncrypt | end-to-encryption.cpp:319-324 | Exactly the `len` output bytes become `input[i] ^ key[i % key_len]`. |
| XorCipher.SimpleDecrypt | end-to-encryption.cpp:329-333 | Exactly the `len` output bytes become the same XOR stream. |
| ChainCipher.ChainEncrypt | include/crypto.h:39-46 | The chained ciphertext has the plaintext's length. |
| ChainCipher.ChainDecrypt | include/crypto.h:49-57 | The deciphered text has the ciphertext's length. |
| ChainCipher.EncryptPrefix | include/crypto.h:41-45 | Encrypting a prefix gives the prefix of the encryption. |
| ChainCipher.EncryptAt | include/crypto.h:41-45 | Ciphertext byte i is `(c[i-1] + key[i % key_len]) ^ p[i]`, with state 0 before the first byte. |
| ChainCipher.FirstByte | include/crypto.h:41-45 | `ciphertext[0] == key[0] ^ plaintext[0]`. |
| ChainCipher.PrefixDetermines | include/crypto.h:41-45 | The first n ciphertext bytes depend only on the first n plaintext bytes. |
| ChainCipher.KeyLocality | include/crypto.h:42-45 | Encryption reads the key only at positions `i % key_len` for `i < len`. |
| ChainCipher.RoundTripIff | include/crypto.h:39-57 | Decrypting under `k2` what `k1` encrypted returns the plaintext iff the keys agree on every used position. |
| ChainCipher.DecryptEncrypt | include/crypto.h:39-57 | simple_decrypt undoes simple_encrypt under the same key, for every length and key length. |
| ChainCipher.EncryptDecrypt | include/crypto.h:39-57 | simple_encrypt undoes simple_decrypt, so every ciphertext is reached. |
| ChainCipher.DecryptPrefix | include/crypto.h:52-56 | Decrypting a prefix gives the prefix of the decryption. |
| ChainCipher.DecryptLocality | include/crypto.h:52-56 | Changing ciphertext byte j changes exactly plaintext bytes j and j + 1. |
| ChainCipher.ChainedEncrypt | include/crypto.h:39-46 | The loop writes exactly the `len` chained ciphertext bytes and nothing else. |
| ChainCipher.ChainedDecrypt | include/crypto.h:49-57 | The loop writes exactly the `len` deciphered bytes and nothing else. |
| Auth.AuthTag | include/crypto.h:69-72 | The tag has 16 bytes; `mac[i] == mac[i + 8]`. |
| Auth.TagDeterminesHash | include/crypto.h:69-72 | Either half of the tag gives back the 64-bit hash: the tag loses nothing. |
| Auth.FoldInjective | include/crypto.h:63-68 | Two different hash states stay different under any further folding, since `h * 33` modulo 2^64 is injective. |
| Auth.OneByteChangeChangesTag | end-to-encryption.cpp:338-353 | Changing any one data byte changes the tag. |
| Auth.TagIgnoresKeyTail | include/crypto.h:66-68 | Only the first 32 key bytes enter the tag. |
| Auth.ComputeAuth | include/crypto.h:60-73 | The 16 tag bytes are the tag of the hash seeded 5381, folded over the `data_len` data bytes and then 32 key bytes. Nothing else changes. |
| Auth.VerifyAuth | include/crypto.h:76-78 | It returns true for every tag, data and key. |
| Auth.StubAcceptsTamperedData | end-to-encryption.cpp:598-605 | After one data byte changes, the tag of the original data differs from the tag of the changed data, yet verify_auth accepts it. So the failure branch of decrypt never runs on tampered data. |
| Bytes.LeValue32 | src/server.cpp:164 | The `ui32` that four host-order bytes encode is below 2^32. |
| Bytes.LeValueOfLeBytes32 | src/server.cpp:217-222 | Reading back the four bytes the writer sends for a length gives that length. |
| Bytes.LeBytesOfLeValue32 | src/client.cpp:139-140 | Any four length bytes are the encoding of the value read from them. |
| Bytes.SharedKey | end-to-encryption.cpp:530-533 | The derived key has 32 bytes, byte i being `pk[i] ^ sk[i]`. |
| Bytes.DeriveSharedKey | include/message.h:66-69 | The `shared_key[32]` loop produces `SharedKey(pk, sk)`. |
| Bytes.SharedKeysAgree | end-to-encryption.cpp:617-620 | The decryptor's key `sender_pk ^ recipient_sk` equals the encryptor's `recipient_pk ^ sender_sk` iff both parties' own `pk ^ sk` agree. |
| Bytes.UntilNul | include/message.h:98 | The C string of a buffer is its longest NUL-free prefix: it stops at the first NUL. |
| Bytes.UntilNulOfNulFree | include/message.h:98 | A NUL-free text is kept whole. |
| Bytes.UntilNulLosesTail | include/message.h:98 | Everything from the first NUL on is lost. |
| Bytes.CString | include/message.h:98 | `std::string(const char*)` of a buffer holding a NUL is `UntilNul` of it. |
| Bytes.UntilNulOfTerminated | src/server.cpp:171-172 | Writing a NUL after the `n` received bytes makes the printed text the C string of exactly those bytes. |
| Bytes.Fill | end-to-encryption.cpp:90-92 | memset sets exactly the range to the value. |
| Bytes.Copy | src/server.cpp:128 | memcpy puts the data at the offset and changes nothing else. |
| E2eSession.DecryptedMessage.GetText | end-to-encryption.cpp:264-269 | `plaintext_len` bytes from the pointer, NUL bytes included; "" for a null pointer or zero length. |
| E2eSession.ValidatedIsValid | end-to-encryption.cpp:469-473 | A pair validate_keypair accepts passes `KeyPair::is_valid`, and a pair with 1-byte keys shows the converse fails. |
| E2eSession.Seal | end-to-encryption.cpp:505-552 | The envelope is valid, with a 16-byte nonce and tag and a ciphertext field 16 bytes longer than the plaintext. |
| E2eSession.PlaintextLen | end-to-encryption.cpp:610 | `ciphertext_len - 16` in `ui64`: the exact difference when at least 16, else a wrapped value of at least 2^64 - 16. |
| E2eSession.Open | end-to-encryption.cpp:586-628 | The decrypted message has a set pointer, passed verification, and `ciphertext_len - 16` bytes. |
| E2eSession.OpenSealIff | end-to-encryption.cpp:530-622 | Opening a sealed envelope returns the plaintext iff the encryptor's `recipient_pk ^ sender_sk` and the decryptor's `sender_pk ^ recipient_sk` agree on the positions the plaintext uses. The length always matches. |
| E2eSession.AgreeOnLongStream | end-to-encryption.cpp:319-323 | Over 32 or more positions two 32-byte keys agree only if they are equal. |
| E2eSession.LongMessageRoundTrip | end-to-encryption.cpp:530-622 | For a message of 32 bytes or more, the round trip works iff both parties' own `pk ^ sk` coincide. |
| E2eSession.ReceivedTextWhole | end-to-encryption.cpp:264-269 | When the derived keys agree, get_text of the opened envelope is the sent text, NUL bytes included. |
| E2eSession.ShortCiphertextOverflows | end-to-encryption.cpp:610-614 | Corrected push: an envelope shorter than 16 bytes makes decrypt request about 2^64 bytes, and the exact comparison of `ArenaCore.Push` rejects it, so decrypt throws `overflow_error`. |
| E2eSession.ShortCiphertextWraps | end-to-encryption.cpp:610-614 | As written: the same request is accepted by the wrapping push comparison whenever the aligned cursor is within capacity. The returned block is the aligned cursor, the cursor moves back `16 - ciphertext_len` bytes below it, and the block to be zeroed runs past the capacity. |
| E2eSession.KeyManager.constructor | end-to-encryption.cpp:436 | The manager keeps the arena and has generated nothing. |
| E2eSession.KeyManager.GenerateKeypair | end-to-encryption.cpp:446-464 | Success iff both 32-byte pushes fit. Then the pair holds the next 64 random bytes, passes validate_keypair, and the counter rises by exactly 1. An overflow throws with the counter and the generator untouched. |
| E2eSession.MessageEncryptor.constructor | end-to-encryption.cpp:495 | The encryptor keeps the arena and has encrypted nothing. |
| E2eSession.MessageEncryptor.Encrypt | end-to-encryption.cpp:505-552 | A null argument throws `invalid_argument` before any push. Otherwise success iff the three pushes fit, and the result is `Seal` of the fresh nonce. The counter rises by 1 only on success, and an overflow keeps the earlier pushes. |
| E2eSession.PushRandom | end-to-encryption.cpp:514-520 | A zeroed push of the nonce, filled with the next random bytes, or an overflow. |
| E2eSession.PushCiphertext | end-to-encryption.cpp:522-535 | A push of `len + 16` bytes holding the XOR of the plaintext under `pk ^ sk`, then 16 zero bytes. |
| E2eSession.PushTag | end-to-encryption.cpp:537-544 | A 16-byte push holding compute_auth over the ciphertext's first `plaintext_len` bytes with `sender_sk`. |
| E2eSession.BodyLayout | end-to-encryption.cpp:522-535 | The ciphertext field is the XOR stream followed by the 16 zero bytes the push left. |
| E2eSession.MessageDecryptor.constructor | end-to-encryption.cpp:575-576 | The decryptor keeps the arena with both counters at 0. |
| E2eSession.MessageDecryptor.Decrypt | end-to-encryption.cpp:586-628 | A null key or an envelope with a null field throws before any push. Then `ciphertext_len - 16` bytes are pushed. Success iff the push fits, and the result is `Open`. `verification_failures` never changes. |
| E2eSession.SecureSession.constructor | end-to-encryption.cpp:661-670 | The session is Created, with no keys, no messages and fresh workers whose counters are 0. |
| E2eSession.SecureSession.Initialize | end-to-encryption.cpp:682-689 | A second call throws and changes nothing. A first call succeeds, and the session becomes Initialized, iff the 32-byte public and secret key pushes both fit; the arena is then that push chain. On success the local pair holds the next 64 drawn bytes and the key counter rises by one. On overflow the pair, the counter and the draw count are unchanged. The remote pair and message count are untouched. |
| E2eSession.SecureSession.SetRemoteKeypair | end-to-encryption.cpp:694-703 | It is accepted iff initialized and the pair passes validate_keypair; then the session is RemoteKeySet. Otherwise it throws with the remote pair unchanged. |
| E2eSession.SecureSession.SendMessage | end-to-encryption.cpp:708-727 | Outside RemoteKeySet it throws with nothing changed. Inside, the count rises by exactly 1 before encrypting. Success holds iff the nonce, body and tag pushes fit, and yields `Seal` under the remote public and local secret keys. Otherwise it throws `overflow_error`. The arena ends after the pushes that fitted, the nonce draws happen iff its push fitted, and the encryptor counter rises iff it succeeded. |
| E2eSession.SecureSession.ReceiveMessage | end-to-encryption.cpp:732-748 | Outside RemoteKeySet it throws with nothing changed. Inside, the count rises by exactly 1, even if decrypt then throws. It throws `invalid_argument` iff the envelope has a null field, with the arena unchanged. Otherwise it pushes `ciphertext_len - 16` bytes and succeeds iff that fits, yielding `Open` under the remote public and local secret keys; any failure is `overflow_error`. The decryptor counter rises iff it succeeded. |
| Messages.KeyPair.constructor | include/message.h:20 | Both pointers are null. |
| Messages.KeyPair.Generate | include/message.h:23-29 | Both 32-byte pushes fit or one overflows. On success both keys hold the next random bytes and `is_valid` holds. If the second push throws, the public key is already set to its zeroed block. |
| Messages.SealedLayout | include/message.h:59-78 | The nonce and MAC are 16 bytes, `encrypted_len == |content| + 16`, and the last 16 ciphertext bytes are zero. The first ciphertext byte is `content[0] ^ key[0]`, and the tag covers exactly `encrypted_len - 16` bytes. |
| Messages.CreateEncrypted | include/message.h:50-81 | Success iff the three pushes fit. The result is `Sealed` of the fresh nonce. An overflow keeps the earlier pushes and draws. |
| Messages.PushRandom | include/message.h:59-61 | A zeroed 16-byte push filled with the next random bytes, or an overflow. |
| Messages.PushChained | include/message.h:63-74 | A push of `|content| + 16` bytes holding the chained encryption under `recipient_pk ^ sender_sk`, then zeros. |
| Messages.ChainedLayout | include/message.h:63-74 | The encrypted data is the chained ciphertext followed by the 16 zero bytes the push left. |
| Messages.PushTag | include/message.h:76-78 | A 16-byte push holding compute_auth over `encrypted_len - 16` bytes with `sender_sk`. |
| Messages.Deciphered | include/message.h:87-95 | The bytes simple_decrypt writes number `encrypted_len - 16`. |
| Messages.DecryptMessage | include/message.h:84-102 | The result is the deciphered bytes cut at the first NUL. |
| Messages.DecipheredSealed | include/message.h:87-95 | From a created message, decrypt_message deciphers exactly the content's ciphertext, under `sender_pk ^ recipient_sk`. |
| Messages.DecryptSealedIff | include/message.h:50-102 | decrypt_message of create_encrypted returns the content iff the content has no NUL and the two derived keys agree on the positions used. |
| Messages.NulTruncates | include/message.h:98 | Even with agreeing keys, a content byte of 0 at j yields a text of at most j bytes. |
| Messages.DecryptMessageWhole | include/message.h:84-102 | Corrected decrypt_message (`std::string(ptr, len)`): the result is all the deciphered bytes. |
| Messages.DecryptWholeSealedIff | include/message.h:50-102 | With the whole plaintext kept, the round trip returns the content iff the derived keys agree on the used positions, NUL bytes included. |
| Messages.Hex | include/message.h:107 | Two hex digits per byte. |
| Messages.UnHexHex | include/message.h:107 | Reading back the hex text gives every byte's value: the encoding is lossless. |
| Messages.HexDigitsOnly | include/message.h:107 | The hex text uses only `0-9` and `a-f`. |
| Messages.ByteRoundTrip | include/message.h:107 | The two digits of a byte are its high and low nibble. |
| Messages.AppendHex | include/message.h:106-108 | The stream loop appends exactly `Hex` of the bytes. |
| Messages.HexRepresentation | include/message.h:104-113 | The text is the hex of the first `min(encrypted_len, 32)` ciphertext bytes, of length `2 * min(encrypted_len, 32)`, followed by "..." iff `encrypted_len > 32`. |
| Messages.NonceHex | include/message.h:115-121 | The text is `2 * nonce_len` hex digits and reads back to the nonce bytes. |
| Framing.RecvCount | src/server.cpp:143 | A recv returns at most the bytes asked for and at most what the stream holds; it returns 0 iff nothing was asked, allowed or left. |
| Framing.RecvInto | src/server.cpp:143 | recv copies exactly the arriving bytes into the buffer at the offset, or returns SOCKET_ERROR with the code and the buffer unchanged. |
| Framing.Step | src/server.cpp:140-197 | One recv keeps the reader invariant (length bytes 0..4, and all 4 only before a valid payload). It never moves backwards in the stream and only appends to what is shown. |
| Framing.Run | src/server.cpp:140-197 | Every reachable reader state satisfies the invariant, `len_received` within 0..4. |
| Framing.RunSnoc | src/server.cpp:140 | One more recv result before exit is one more `Step`. |
| Framing.RunAfterExit | src/server.cpp:140 | Once `should_exit` is set, further results change nothing. |
| Framing.ReadLengthBytes | src/server.cpp:142-161 | The length recv returns at most `4 - len_received` bytes. On 0 the reader exits; on an error it exits unless WOULDBLOCK/EINTR/ECONNRESET. Otherwise the bytes go in after those already there and the length is classified. |
| Framing.LengthDelivered | src/server.cpp:158-163 | A length read that delivers bytes appends them to the length buffer and then classifies a complete length. |
| Framing.ReadPayload | src/server.cpp:166-187 | The single payload recv either shows the received text up to its first NUL and resets `len_received`, or keeps waiting on 0 / WOULDBLOCK / EINTR, or exits on any other error. |
| Framing.PayloadDelivered | src/server.cpp:170-176 | A delivering payload read shows its text and restarts the length read. |
| Framing.ReadLoop | src/server.cpp:134-199 | The loop as written (also src/client.cpp:110-179) ends in exactly the state `Run` gives for its recv results. |
| Framing.StepExitIff | src/server.cpp:145-187 | The reader stops exactly on a closed connection during the length read, a length-read error other than WOULDBLOCK/EINTR/ECONNRESET, or a payload error other than WOULDBLOCK/EINTR. |
| Framing.OversizedRejected | src/server.cpp:190-193 | A completed length of 1024 or more is reported and the length read restarts right after the 4 bytes, without exiting. |
| Framing.ZeroLengthSkipped | src/server.cpp:188-189 | A zero length is dropped with nothing shown or reported. |
| Framing.CompletedLength | src/server.cpp:158-166 | A length read that brings the count to 4 stores the bytes and classifies the length. |
| Framing.ShortReadResets | src/server.cpp:170-176 | A payload recv shorter than the length still shows its bytes and returns to reading a length inside the unread payload. |
| Framing.ZeroPayloadKeepsWaiting | src/client.cpp:144-165 | A payload recv of 0 leaves the reader waiting for the same payload. |
| Framing.ClosedMidFrameSpins | src/server.cpp:168-196 | Once the peer has closed while a payload is awaited, every further non-error recv result leaves the reader exactly as it was: it never exits. |
| Framing.ClosedAfterLength | src/server.cpp:140-196 | For a stream holding only a valid 4-byte length, the first recv completes the length, and after any number of further recv results the reader still waits for the payload, with nothing shown and no exit. |
| Framing.RunBounds | src/server.cpp:166-171 | Every shown text is shorter than 1024 bytes, so the terminator index is in bounds; every reported length is at least 1024. |
| Framing.StepBounds | src/client.cpp:142-173 | One recv keeps those bounds. |
| Frames.FeedFrame | src/server.cpp:217-255 | The corrected decoder reads one whole frame from a frame boundary to the next. A valid length shows the line up to its first NUL; an oversized one is reported and skipped; an empty line is nothing. |
| Frames.FramesDecode | src/client.cpp:196-233 | The corrected decoder, fed the writer's frames, shows exactly the lines of valid length and reports exactly the oversized ones. |
| Frames.FeedAppend | src/server.cpp:140-197 | Only the bytes matter, not how the recv calls split them. |
| Frames.FramerConsumes | src/server.cpp:140-197 | Whatever sizes recv returns, the corrected reader has decoded exactly the bytes read so far. |
| Frames.FramerShowsSent | src/server.cpp:166-193 | Corrected reader: read from the writer's frames, what it shows and reports is a prefix of the valid and oversized lines, and all of them once the stream has been read. |
| Frames.FramerExitIff | src/server.cpp:145-187 | Corrected reader: one recv ends it exactly on an error its phase does not retry, or on a recv of 0, in the payload phase as well as the length phase. |
| Frames.FramerStopsAtClose | src/server.cpp:145-148 | Corrected reader: once the whole stream has been read, the next non-error recv result ends it, whatever phase it is in. |
| Frames.ShortReadDesync | src/server.cpp:166-176 | As written: for "ABCDE" then "F", with the first payload arriving one byte at a time, the reader shows "A", reports "BCDE" read as a length, then shows "F". |
| Frames.OversizedDesync | src/server.cpp:190-193 | As written: a 1024-byte line starting 1, 0, 0, 0, 'X' is reported, and then its start is read as a frame that shows "X", a line that was never sent. |
| Writer.ExitIndex | src/server.cpp:210-214 | The index is at most the number of lines. |
| Writer.ExitIndexFirst | src/client.cpp:190-194 | The index is that of the first "exit" line, or none exists. |
| Writer.SendAll | src/server.cpp:221-234 | The bytes out are the data's length or the total the used results accept, whichever is less. No result is used after the one that completes the data. A failure is a SOCKET_ERROR, after accepts only, that leaves the data short. The loop ends short without failing only when the results run out. Each used result that accepts a byte puts at least one out, and results of 0 are retried. |
| Writer.SendLine | src/server.cpp:216-255 | What reaches the wire is a prefix of the line's frame. An empty line uses no result and sends nothing. Otherwise the used results split into the length loop's and the payload loop's. The bytes out are min(4, what the first accepted) plus min(length, what the second accepted). Each loop stops on the result that completes its part. So the bytes out never exceed what the used results accepted. A complete frame ends on a result that took bytes. `failed` is set exactly when a used result was SOCKET_ERROR: it is the last used, every earlier one is an accept, and the frame is left short. Without a failure the frame is short only when the results ran out. The used results that accept a byte number at most the bytes on the wire. |
| Writer.SendPending | src/server.cpp:216-255 | One pass of the loop over a line before the first "exit", once the earlier frames are out. The bytes out lie between the count of used results that accepted a byte and the bytes they accepted. Either the frame goes out whole, ending on a result that took bytes, and the wire is then the frames of the lines so far. Or the wire stops strictly inside the intended frames: at a SOCKET_ERROR after accepts only, or with every result used. |
| Writer.WriteLoop | src/server.cpp:201-273 | The wire is always a prefix of the cleartext frames of the lines before the first "exit". It is all of them exactly when input ended or "exit" was typed, and strictly less when a send failed or blocked. The end is ExitTyped iff all went out and an "exit" line exists. It is SendFailed only at a SOCKET_ERROR preceded by accepts only, and Blocked only when every result was an accept and all were used. `should_exit` is set iff "exit" was typed or a send failed. The bytes on the wire lie between the count of used results that accepted a byte and the total the used results accepted. When all frames went out, the last used result took bytes, so no result is used past the last byte needed. Results of 0 anywhere still allow full progress. With no SOCKET_ERROR and at least as many byte-accepting results as intended bytes, all of them go out. |
| Writer.PartialFrame | src/client.cpp:197-233 | Stopping part way through a line leaves a prefix of the intended frames. |
| Endpoints.Endpoint.constructor | src/server.cpp:33-44 | The endpoint has a 10 MiB arena with its generated 32-byte key pair at cursor 112 and an empty peer pair. The generator was initialised once and drew 64 bytes. |
| Endpoints.Endpoint.ServerExchange | src/server.cpp:110-132 | Send first, failing only on SOCKET_ERROR. Then receive, failing unless exactly 32 bytes arrived. Then push and copy the key; an overflow throws. The calls are made in that order. |
| Endpoints.Endpoint.ClientExchange | src/client.cpp:86-108 | Receive 32 bytes first, push and copy the key, then send the own key, failing only on SOCKET_ERROR. |
| Endpoints.Endpoint.StorePeerKey | src/server.cpp:127-128 | It fails iff the push overflows. Otherwise the new block holds the received key and becomes the peer's public key. |
| Endpoints.Handshake | src/client.cpp:86-108 | Over a faithful wire, each fresh endpoint ends with the other's public key, stored at offset 112. |
| Endpoints.GenerateFits | src/server.cpp:42 | The two key pushes of a fresh 10 MiB arena land at 48 and 80 and leave the cursor at 112. |
| Endpoints.FirstExchangeFits | src/server.cpp:127 | The first exchange stores the peer key at 112 without overflow. |

## Left out

- Sockets, threads, `Sleep`, console output, `WSAStartup`/`bind`/`listen`/`accept`/`connect`. recv and send results are input sequences, the exchange's send and recv results are parameters, and each worker loop runs single-threaded. The unsynchronised sharing of `should_exit`, the arena and the counters between two threads is not modelled.
- When the given recv or send results run out, the blocking call is modelled as ending the run (`Writer.Blocked`, the end of `Framing.Run`).
- The `std::mt19937_64`, `random_device` and `uniform_int_distribution` internals. The generator is an arbitrary oracle over (seed, draw), and the entropy is a parameter.
- The logger (`log_sent_message`, include/logger.h), every `print_*` function, `get_usage_percent` (floating point), the `main()` demos of end-to-encryption.cpp and arena.c, main.c, and src/main_combined.cpp.
- The Alice/Bob demo sequence of end-to-encryption.cpp is not replayed as a scenario. Its round trip is covered for all inputs by `E2eSession.OpenSealIff`.
- Pointer aliasing, `malloc`/`free` and freeing: returned pointers are offsets into the arena's array or value snapshots of the bytes they point at. Later writes to the arena do not show in an earlier `Option` snapshot.
- `CArena.MemArena.constructor`: requires a capacity of at least 16 bytes. The C code writes its header into the block without checking, and a smaller block is undefined behaviour.
- `E2eSession.MessageEncryptor.Encrypt`: requires `plaintext_len + 16 < 2^64`. The `ui64` sum would wrap only for a plaintext no machine can address.
- `E2eSession.SecureSession.SendMessage`: requires `|text| + 16 < 2^64`, for the same reason.
- `Messages.CreateEncrypted`: requires `|content| + 16 < 2^64`, for the same reason.
- `Messages.DecryptMessage`: requires `encrypted_len >= 16` and a ciphertext of `encrypted_len - 16` bytes. Below 16, `plaintext_len + 1` wraps and the malloc'd buffer is too small, which is undefined behaviour.
- `E2eSession.MessageDecryptor.Decrypt`: requires that the ciphertext pointer reaches `ciphertext_len - 16` bytes (`Readable`). Reading past it is undefined behaviour.
- `Writer.WriteLoop`: requires every typed line to be shorter than 2^31 bytes. The `(int)` casts of the length for longer lines are not modelled.
- `E2eSession.MessageDecryptor.Decrypt`: uses the exact push comparison of `ArenaCore.Push`. A `Readable` envelope with `ciphertext_len < 16` therefore ends in `overflow_error` with the arena unchanged. As written, the wrapped push succeeds, rewinds the cursor and zeroes far past the buffer (`E2eSession.ShortCiphertextWraps`). The same holds for `E2eSession.SecureSession.ReceiveMessage`, which calls it.
- `E2eArena.MemArena.Push`: uses the exact comparison `AlignUp(pos) + size <= capacity`, not the wrapping `ui64` sum of end-to-encryption.cpp:78-86. The two agree whenever the sum fits in 64 bits (`ArenaCore.PushAsWrittenAgreesWithoutWrap`).
- `HeaderArena.MemArena.Push`: uses the exact comparison, not the wrapping sum of include/arena.h:48-53, for the same reason.
- `CArena.MemArena.Push`: uses the exact comparison, not the wrapping sum of arena.c:110-113, for the same reason.
- The peer `KeyPair` of an endpoint receives only a public key; its secret key stays null, as in the source.

## Findings

| source | as written | input that shows it | evidently intended | confidence | as-written member | corrected member |
|---|---|---|---|---|---|---|
| end-to-encryption.cpp:78-86 | `new_pos = pos_aligned + size` is a `ui64` sum, so a huge `size` wraps and passes `new_pos > capacity` (also include/arena.h:48-53 and arena.c:110-113) | push of 2^64 - 8 bytes on a fresh 1 KiB arena: succeeds and moves the cursor to 40, below the base. A caller reaches it with an envelope whose `ciphertext_len < 16`, passed to receive_message (next row) | reject any request that does not fit | not executed | ArenaCore.PushAsWrittenWraps | ArenaCore.Push |
| end-to-encryption.cpp:610-614 | `plaintext_len = ciphertext_len - 16` in `ui64`, pushed without a length check | an `EncryptedMessage` with three non-null fields and `ciphertext_len` 0, passed to receive_message on an arena at cursor 112: the push returns block 112, the cursor drops to 96, and the memset zeroes nearly 2^64 bytes from 112 | reject an envelope shorter than its MAC, or at least let the push throw | not executed | E2eSession.ShortCiphertextWraps | E2eSession.ShortCiphertextOverflows |
| src/server.cpp:166-176 | one payload recv; any positive count resets `len_received` (also src/client.cpp:142-154) | lines "ABCDE", "F", recv returning 4, 1, 4, 4, 1 bytes: shows "A", reports a length 0x45444342, shows "F" | keep reading until `msg_len` bytes are in | not executed | Frames.ShortReadDesync | Frames.FramerShowsSent |
| src/server.cpp:190-193 | an oversized length resets `len_received` but leaves its payload to be read as frames (also src/client.cpp:169-173) | one 1024-byte line starting 1, 0, 0, 0, 'X': the reader reports 1024, then shows "X" | skip the reported frame's payload, so that later frames stay in sync. This is one of two readings: the code, and the intent it presents, drop just the 4 length bytes; keeping the stream in sync needs the payload skipped as well | not executed | Frames.OversizedDesync | Frames.FramerShowsSent |
| src/server.cpp:168-196 | a payload recv returning 0 matches neither branch and falls through to `Sleep(10)`, so the loop retries for ever; only the length read exits on 0 (also src/client.cpp:144-165) | a stream holding only the length bytes 5, 0, 0, 0, after which the peer closes: every later recv returns 0 and the reader never exits | leave the loop when the peer closes, as the length read does at src/server.cpp:145-148 | not executed | Framing.ClosedAfterLength | Frames.FramerStopsAtClose |
| include/message.h:98 | `std::string((const char*)plaintext)` stops at the first NUL | a content with a 0 byte at j, with agreeing keys: the text comes back with at most j bytes | `std::string((const char*)plaintext, plaintext_len)` | not executed | Messages.NulTruncates | Messages.DecryptWholeSealedIff |

In the corrected halves:

- The three arena classes use the exact comparison of `ArenaCore.Push`. `ArenaCore.PushAsWrittenAgreesWithoutWrap` shows it coincides with the written one whenever the sum does not wrap.
- `Frames.FramerRun` is the reassembling reader. It has the same length checks as recv_thread_func, and retries the same errors in each phase. Unlike recv_thread_func, it also exits on a recv of 0 while a payload is awaited (`Frames.FramerExitIff`).
- `Messages.DecryptMessageWhole` is the length-taking decrypt. Messages sealed by create_encrypted round-trip through it whenever the derived keys agree.
