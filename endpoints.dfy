/**
 * The SecureServer and SecureClient classes of src/server.cpp and
 * src/client.cpp, as far as their state goes: a 10 MiB MemArena of
 * include/arena.h, the endpoint's own KeyPair generated into it when the
 * endpoint is built, and the peer's KeyPair whose public key the key
 * exchange fills in. The two endpoints differ only in the order of the
 * exchange: the server sends its key and then receives, the client
 * receives and then sends.
 *
 * The socket calls are parameters: `sendRet` is what send returned and
 * `recvRet` what recv returned, with `received` the 32 bytes of the
 * receive buffer.
 */
module Endpoints {
  import opened Bytes
  import opened Wrappers
  import ArenaCore
  import HeaderArena
  import Entropy
  import opened Framing
  import opened Messages

  /** `arena(10 * 1024 * 1024)`. */
  const ARENA_CAPACITY: nat := 10 * 1024 * 1024

  /** Where the cursor stands once the endpoint's two 32-byte keys are pushed. */
  const GENERATED_POS: nat := 112

  /** The arena of a freshly built endpoint. */
  const BUILT: ArenaCore.ArenaState := ArenaCore.ArenaState(HeaderArena.ARENA_BASE_POS, ARENA_CAPACITY, GENERATED_POS, [])

  /** One socket call of the exchange, in the order made. */
  datatype Call = SendKey(key: seq<byte>) | RecvKey(want: nat)

  /** How exchange_keypairs ended: true, false after send or recv, or the throw of a full arena. */
  datatype Exchange = Exchanged | SendFailed | RecvFailed | ArenaFull

  class Endpoint {
    const arena: HeaderArena.MemArena
    const myKeypair: KeyPair
    const peerKeypair: KeyPair

    /** The endpoint's own pair is set and 32 bytes long, and the two pairs are distinct objects. */
    ghost predicate Valid()
      reads this, arena, myKeypair, peerKeypair
    {
      && arena.Valid()
      && myKeypair != peerKeypair
      && myKeypair.IsValid()
      && |myKeypair.publicKey.value| == PUBLIC_KEY_BYTES
    }

    /**
     * The constructor: the arena, then the CryptoEngine member (SimpleCrypto::init
     * with the entropy `entropy`), then my_keypair.generate(arena) in the body.
     * That push never overflows: it ends with the cursor at 112.
     */
    constructor (rng: Entropy.Rng, entropy: bv32)
      modifies rng
      ensures Valid() && fresh(arena) && fresh(arena.buffer) && fresh(myKeypair) && fresh(peerKeypair)
      ensures arena.State() == BUILT
      ensures peerKeypair.publicKey == None && peerKeypair.secretKey == None
      ensures rng.initialized
      ensures old(rng.initialized) ==> rng.seed == old(rng.seed)
      ensures !old(rng.initialized) ==> rng.seed == entropy as bv64
      ensures var d := if old(rng.initialized) then old(rng.drawn) else 0;
        && rng.drawn == d + PUBLIC_KEY_BYTES + SECRET_KEY_BYTES
        && myKeypair.publicKey == Some(rng.Draws(d, PUBLIC_KEY_BYTES))
        && myKeypair.secretKey == Some(rng.Draws(d + PUBLIC_KEY_BYTES, SECRET_KEY_BYTES))
    {
      var a := new HeaderArena.MemArena(ARENA_CAPACITY);
      rng.InitOnce(entropy);
      var mine := new KeyPair();
      var peer := new KeyPair();
      arena, myKeypair, peerKeypair := a, mine, peer;
      new;
      ghost var start := arena.State();
      GenerateFits(start);
      var overflow := myKeypair.Generate(arena, rng);
      assert !overflow;
    }

    /**
     * The server's exchange_keypairs: send the own public key, and fail only
     * when send returns SOCKET_ERROR (a short send counts as sent); then one
     * recv of 32 bytes, which fails unless exactly 32 arrived; then push(32, 0)
     * (throwing when the arena is full) and copy the received key there as the
     * peer's public key.
     */
    method ServerExchange(sendRet: int, recvRet: int, received: seq<byte>) returns (outcome: Exchange, calls: seq<Call>)
      requires Valid() && |received| == PUBLIC_KEY_BYTES
      modifies arena, arena.buffer, peerKeypair
      ensures Valid()
      ensures calls == if sendRet == SOCKET_ERROR then [SendKey(myKeypair.publicKey.value)]
                       else [SendKey(myKeypair.publicKey.value), RecvKey(PUBLIC_KEY_BYTES)]
      ensures outcome == if sendRet == SOCKET_ERROR then SendFailed
                         else if recvRet != PUBLIC_KEY_BYTES then RecvFailed
                         else if ArenaCore.Push(old(arena.State()), PUBLIC_KEY_BYTES).block.None? then ArenaFull
                         else Exchanged
      ensures Stored(old(arena.State()), old(peerKeypair.publicKey), received, outcome == Exchanged)
      ensures arena.KeepsBelow(old(arena.buffer[..]), old(arena.pos))
    {
      calls := [SendKey(myKeypair.publicKey.value)];
      if sendRet == SOCKET_ERROR {
        return SendFailed, calls;
      }
      calls := calls + [RecvKey(PUBLIC_KEY_BYTES)];
      if recvRet != PUBLIC_KEY_BYTES {
        return RecvFailed, calls;
      }
      var full := StorePeerKey(received);
      outcome := if full then ArenaFull else Exchanged;
    }

    /**
     * The client's exchange_keypairs: one recv of 32 bytes, which fails unless
     * exactly 32 arrived; push(32, 0) and the copy of the peer's key; then the
     * send of the own public key, failing only on SOCKET_ERROR.
     */
    method ClientExchange(recvRet: int, received: seq<byte>, sendRet: int) returns (outcome: Exchange, calls: seq<Call>)
      requires Valid() && |received| == PUBLIC_KEY_BYTES
      modifies arena, arena.buffer, peerKeypair
      ensures Valid()
      ensures calls == if recvRet != PUBLIC_KEY_BYTES || outcome == ArenaFull then [RecvKey(PUBLIC_KEY_BYTES)]
                       else [RecvKey(PUBLIC_KEY_BYTES), SendKey(myKeypair.publicKey.value)]
      ensures outcome == if recvRet != PUBLIC_KEY_BYTES then RecvFailed
                         else if ArenaCore.Push(old(arena.State()), PUBLIC_KEY_BYTES).block.None? then ArenaFull
                         else if sendRet == SOCKET_ERROR then SendFailed
                         else Exchanged
      ensures Stored(old(arena.State()), old(peerKeypair.publicKey), received,
                     recvRet == PUBLIC_KEY_BYTES && outcome != ArenaFull)
      ensures arena.KeepsBelow(old(arena.buffer[..]), old(arena.pos))
    {
      calls := [RecvKey(PUBLIC_KEY_BYTES)];
      if recvRet != PUBLIC_KEY_BYTES {
        return RecvFailed, calls;
      }
      var full := StorePeerKey(received);
      if full {
        return ArenaFull, calls;
      }
      calls := calls + [SendKey(myKeypair.publicKey.value)];
      outcome := if sendRet == SOCKET_ERROR then SendFailed else Exchanged;
    }

    /**
     * After the exchange stored the key (`stored`), the arena took one more
     * 32-byte block, that block holds `received` and it is the peer's public
     * key; otherwise the arena and the peer's key are as they were.
     */
    ghost predicate Stored(before: ArenaCore.ArenaState, peerBefore: Option<seq<byte>>, received: seq<byte>, stored: bool)
      reads this, arena, arena.buffer, peerKeypair
    {
      var push := ArenaCore.Push(before, PUBLIC_KEY_BYTES);
      if stored then
        && push.block.Some?
        && arena.State() == push.next
        && push.block.value + PUBLIC_KEY_BYTES <= arena.buffer.Length
        && arena.buffer[push.block.value..push.block.value + PUBLIC_KEY_BYTES] == received
        && peerKeypair.publicKey == Some(received)
      else
        arena.State() == before && peerKeypair.publicKey == peerBefore
    }

    /** `peer_keypair.public_key = arena.push(32, 0); memcpy(...)`; `full` is the throw. */
    method StorePeerKey(received: seq<byte>) returns (full: bool)
      requires Valid() && |received| == PUBLIC_KEY_BYTES
      modifies arena, arena.buffer, peerKeypair
      ensures Valid()
      ensures full <==> ArenaCore.Push(old(arena.State()), PUBLIC_KEY_BYTES).block.None?
      ensures Stored(old(arena.State()), old(peerKeypair.publicKey), received, !full)
      ensures arena.KeepsBelow(old(arena.buffer[..]), old(arena.pos))
    {
      var block := arena.Push(PUBLIC_KEY_BYTES, false);
      if block.None? {
        return true;
      }
      Copy(arena.buffer, block.value, received);
      peerKeypair.publicKey := Some(received);
      full := false;
    }
  }

  /**
   * Both exchanges over a wire that delivers every byte: the server's send
   * and the client's recv carry the server's key, and the client's send and
   * the server's recv carry the client's. For two freshly built endpoints
   * each ends holding the other's public key at offset 112 of its arena.
   */
  method Handshake(server: Endpoint, client: Endpoint) returns (serverCalls: seq<Call>, clientCalls: seq<Call>)
    requires server.Valid() && client.Valid()
    requires server.arena.State() == client.arena.State() == BUILT
    requires server.arena != client.arena && server.arena.buffer != client.arena.buffer
    requires server.peerKeypair != client.peerKeypair
    requires server.peerKeypair != client.myKeypair && client.peerKeypair != server.myKeypair
    modifies server.arena, server.arena.buffer, server.peerKeypair
    modifies client.arena, client.arena.buffer, client.peerKeypair
    ensures server.Valid() && client.Valid()
    ensures server.peerKeypair.publicKey == client.myKeypair.publicKey
    ensures client.peerKeypair.publicKey == server.myKeypair.publicKey
    ensures server.arena.pos == client.arena.pos == GENERATED_POS + PUBLIC_KEY_BYTES
    ensures serverCalls == [SendKey(server.myKeypair.publicKey.value), RecvKey(PUBLIC_KEY_BYTES)]
    ensures clientCalls == [RecvKey(PUBLIC_KEY_BYTES), SendKey(client.myKeypair.publicKey.value)]
  {
    var serverKey, clientKey := server.myKeypair.publicKey.value, client.myKeypair.publicKey.value;
    FirstExchangeFits(server.arena.State());
    FirstExchangeFits(client.arena.State());
    var clientOutcome;
    clientOutcome, clientCalls := client.ClientExchange(PUBLIC_KEY_BYTES, serverKey, PUBLIC_KEY_BYTES);
    var serverOutcome;
    serverOutcome, serverCalls := server.ServerExchange(PUBLIC_KEY_BYTES, PUBLIC_KEY_BYTES, clientKey);
  }

  /** The two 32-byte pushes of generate fit a fresh 10 MiB arena and leave the cursor at 112. */
  lemma GenerateFits(s: ArenaCore.ArenaState)
    requires s == ArenaCore.ArenaState(HeaderArena.ARENA_BASE_POS, ARENA_CAPACITY, HeaderArena.ARENA_BASE_POS, [])
    ensures var first := ArenaCore.Push(s, PUBLIC_KEY_BYTES);
      && first.block == Some(HeaderArena.ARENA_BASE_POS)
      && ArenaCore.Push(first.next, SECRET_KEY_BYTES).block == Some(80)
      && ArenaCore.Push(first.next, SECRET_KEY_BYTES).next == s.(pos := GENERATED_POS)
  {
    AlignedPush(s, PUBLIC_KEY_BYTES);
    AlignedPush(s.(pos := 80), SECRET_KEY_BYTES);
  }

  /**
   * From an aligned cursor with room for the block, push puts the block at
   * the cursor: this is why every exchange of a freshly built endpoint
   * stores the peer's key at 112 without a throw.
   */
  lemma AlignedPush(s: ArenaCore.ArenaState, size: nat)
    requires s.pos % ArenaCore.ARENA_ALIGN == 0 && s.pos + size <= s.capacity
    ensures ArenaCore.Push(s, size).block == Some(s.pos)
    ensures ArenaCore.Push(s, size).next == s.(pos := s.pos + size)
  {
    assert ArenaCore.AlignUp(s.pos) == s.pos;
  }

  /** The first key exchange of a freshly built endpoint stores the peer's key right after its own keys. */
  lemma FirstExchangeFits(s: ArenaCore.ArenaState)
    requires s == BUILT
    ensures ArenaCore.Push(s, PUBLIC_KEY_BYTES).block == Some(GENERATED_POS)
    ensures ArenaCore.Push(s, PUBLIC_KEY_BYTES).next.pos == GENERATED_POS + PUBLIC_KEY_BYTES
  {
    AlignedPush(s, PUBLIC_KEY_BYTES);
  }
}
