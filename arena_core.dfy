/**
 * The bump-arena logic shared by the three arena copies, on values: the
 * alignment macro, the cursor arithmetic of push, pop, pop_to, clear and the
 * checkpoint stack, the arena invariant and the lemmas about them. The three
 * classes (E2eArena, HeaderArena, CArena) state their effect on the cursor
 * through these functions.
 */
module ArenaCore {
  import opened Bytes
  import opened Wrappers

  /** ARENA_ALIGN is sizeof(void*): 8 on a 64-bit target. */
  const ARENA_ALIGN: nat := 8

  /** ALIGN_UP_POW2(n, ARENA_ALIGN), that is `(n + 7) & ~7`, for an `n` where `n + 7` does not wrap. */
  function AlignUp(n: nat): (r: nat)
    ensures r % ARENA_ALIGN == 0 && n <= r < n + ARENA_ALIGN
    ensures r == n <==> n % ARENA_ALIGN == 0
  {
    (n + ARENA_ALIGN - 1) / ARENA_ALIGN * ARENA_ALIGN
  }

  /**
   * The cursor state of an arena: its base position (the size of the header
   * struct), its capacity, the cursor `pos` and the saved checkpoints, oldest first.
   */
  datatype ArenaState = ArenaState(base: nat, capacity: nat, pos: nat, checkpoints: seq<nat>)
  {
    /**
     * base <= pos, and pos <= capacity; an arena created with a capacity
     * below its base keeps pos == base, because every push then overflows.
     */
    predicate Inv() { base <= pos <= Max(base, capacity) }
  }

  /** The outcome of a push: the offset of the block (None: overflow) and the state after it. */
  datatype PushStep = PushStep(block: Option<nat>, next: ArenaState)

  /**
   * push(size): round the cursor up to ARENA_ALIGN and reserve `size` bytes
   * there, unless that would end past the capacity; then nothing changes.
   */
  function Push(s: ArenaState, size: nat): (r: PushStep)
    ensures r.block.Some? <==> AlignUp(s.pos) + size <= s.capacity
    ensures r.block.None? ==> r.next == s
    ensures r.block.Some? ==>
      && r.block.value == AlignUp(s.pos)
      && r.block.value % ARENA_ALIGN == 0
      && s.pos <= r.block.value
      && r.block.value + size <= s.capacity
      && r.next == s.(pos := r.block.value + size)
    ensures s.Inv() ==> r.next.Inv()
    ensures s.Inv() && r.block.Some? ==> s.base <= r.block.value
  {
    var aligned := AlignUp(s.pos);
    if aligned + size > s.capacity then PushStep(None, s)
    else PushStep(Some(aligned), s.(pos := aligned + size))
  }

  /** pop(size): lower the cursor by `size`, clamped so it never goes below the base. */
  function Pop(s: ArenaState, size: nat): (r: ArenaState)
    requires s.Inv()
    ensures r.Inv() && r == s.(pos := r.pos)
    ensures r.pos == Max(s.base, s.pos - size)
    ensures s.pos - r.pos == Min(size, s.pos - s.base)
  {
    s.(pos := s.pos - Min(size, s.pos - s.base))
  }

  /** pop_to(target): pop the distance down to `target` when it lies below the cursor, else nothing. */
  function PopTo(s: ArenaState, target: nat): (r: ArenaState)
    requires s.Inv()
    ensures r.Inv() && r == s.(pos := r.pos) && r.pos <= s.pos
    ensures target < s.pos ==> r.pos == Max(target, s.base)
    ensures target >= s.pos ==> r == s
  {
    Pop(s, if target < s.pos then s.pos - target else 0)
  }

  /** save_checkpoint(): push the cursor onto the checkpoint stack. */
  function Save(s: ArenaState): (r: ArenaState)
    ensures r.Inv() <==> s.Inv()
    ensures r.pos == s.pos && r.checkpoints == s.checkpoints + [s.pos]
  {
    s.(checkpoints := s.checkpoints + [s.pos])
  }

  /** restore_checkpoint(): pop the newest checkpoint and pop_to it; nothing when the stack is empty. */
  function Restore(s: ArenaState): (r: ArenaState)
    requires s.Inv()
    ensures r.Inv()
    ensures s.checkpoints == [] ==> r == s
    ensures s.checkpoints != [] ==>
      var last := s.checkpoints[|s.checkpoints| - 1];
      && r.checkpoints == s.checkpoints[..|s.checkpoints| - 1]
      && r.pos == (if last < s.pos then Max(last, s.base) else s.pos)
  {
    if s.checkpoints == [] then s
    else
      var last := s.checkpoints[|s.checkpoints| - 1];
      PopTo(s.(checkpoints := s.checkpoints[..|s.checkpoints| - 1]), last)
  }

  /** clear() as end-to-encryption.cpp writes it: pop_to(base), then drop every checkpoint. */
  function ClearByPopTo(s: ArenaState): (r: ArenaState)
    requires s.Inv()
    ensures r.Inv() && r.pos == r.base && r.checkpoints == []
  {
    PopTo(s, s.base).(checkpoints := [])
  }

  /** clear() as include/arena.h writes it: set the cursor to the base directly. */
  function ClearDirect(s: ArenaState): (r: ArenaState)
    ensures r.Inv() && r.pos == r.base && r.checkpoints == []
  {
    s.(pos := s.base, checkpoints := [])
  }

  /** While the invariant holds, the two ways of clearing coincide. */
  lemma ClearingsAgree(s: ArenaState)
    requires s.Inv()
    ensures ClearByPopTo(s) == ClearDirect(s)
  {
  }

  /** push(n) followed by pop(n) leaves the cursor at the aligned old cursor. */
  lemma PushThenPop(s: ArenaState, size: nat)
    requires s.Inv() && Push(s, size).block.Some?
    ensures Pop(Push(s, size).next, size).pos == AlignUp(s.pos)
    ensures Pop(Push(s, size).next, size) == s <==> s.pos % ARENA_ALIGN == 0
  {
  }

  /** Where the cursor ends after pushing `sizes` from `pos`, each block aligned, when nothing overflows. */
  function Packed(pos: nat, sizes: seq<nat>): (end: nat)
    ensures pos <= end
    decreases |sizes|
  {
    if sizes == [] then pos else Packed(AlignUp(pos) + sizes[0], sizes[1..])
  }

  /**
   * A run of pushes, each allowed to overflow on its own (the caller catching
   * it). The invariant holds throughout, and when the packed end fits in the
   * capacity no push overflows and the cursor ends there.
   */
  function PushAll(s: ArenaState, sizes: seq<nat>): (r: ArenaState)
    requires s.Inv()
    ensures r.Inv()
    ensures Packed(s.pos, sizes) <= s.capacity ==> r == s.(pos := Packed(s.pos, sizes))
    decreases |sizes|
  {
    if sizes == [] then s else PushAll(Push(s, sizes[0]).next, sizes[1..])
  }

  /** Pushes only raise the cursor and touch nothing else. */
  lemma {:induction false} PushAllRaises(s: ArenaState, sizes: seq<nat>)
    requires s.Inv()
    ensures PushAll(s, sizes) == s.(pos := PushAll(s, sizes).pos)
    ensures s.pos <= PushAll(s, sizes).pos
    decreases |sizes|
  {
    if sizes != [] {
      PushAllRaises(Push(s, sizes[0]).next, sizes[1..]);
    }
  }

  /** save_checkpoint(), any pushes, restore_checkpoint() gives back exactly the state before. */
  lemma RestoreAfterPushes(s: ArenaState, sizes: seq<nat>)
    requires s.Inv()
    ensures Restore(PushAll(Save(s), sizes)) == s
  {
    PushAllRaises(Save(s), sizes);
  }

  /** Checkpoints nest: an inner save/restore pair leaves the outer checkpoint in force. */
  lemma NestedCheckpoints(s: ArenaState, outer: seq<nat>, inner: seq<nat>, after: seq<nat>)
    requires s.Inv()
    ensures
      var mid := PushAll(Save(s), outer);
      Restore(PushAll(Restore(PushAll(Save(mid), inner)), after)) == s
  {
    var mid := PushAll(Save(s), outer);
    PushAllRaises(Save(s), outer);
    RestoreAfterPushes(mid, inner);
    PushAllRaises(mid, after);
  }

  // ---------------------------------------------------------------------------
  // The push comparison as the sources write it, in 64-bit arithmetic.
  // ---------------------------------------------------------------------------

  /** ALIGN_UP_POW2(n, 8) evaluated in `ui64`: `n + 7` wraps for n > 2^64 - 8. */
  function AlignUp64(n: nat): (r: nat)
    requires n < U64_LIMIT
    ensures r < U64_LIMIT
    ensures n + ARENA_ALIGN - 1 < U64_LIMIT ==> r == AlignUp(n)
  {
    (n + ARENA_ALIGN - 1) % U64_LIMIT / ARENA_ALIGN * ARENA_ALIGN
  }

  /**
   * push exactly as all three copies write it: `new_pos = pos_aligned + size`
   * is a `ui64` sum, so a huge `size` wraps around and passes the capacity test.
   */
  function PushAsWritten(s: ArenaState, size: nat): (r: PushStep)
    requires s.pos < U64_LIMIT && size < U64_LIMIT
  {
    var aligned := AlignUp64(s.pos);
    var newPos := (aligned + size) % U64_LIMIT;
    if newPos > s.capacity then PushStep(None, s)
    else PushStep(Some(aligned), s.(pos := newPos))
  }

  /**
   * A request for 2^64 - 8 bytes on a fresh 1 KiB arena (base 48) succeeds
   * as written and moves the cursor below the base, breaking the invariant.
   */
  lemma PushAsWrittenWraps()
    ensures
      var s := ArenaState(48, 1024, 48, []);
      var r := PushAsWritten(s, U64_LIMIT - 8);
      && s.Inv()
      && r == PushStep(Some(48), s.(pos := 40))
      && !r.next.Inv()
      && Push(s, U64_LIMIT - 8).block.None?
  {
  }

  /** Whenever the sum does not wrap, the written comparison is the exact one. */
  lemma PushAsWrittenAgreesWithoutWrap(s: ArenaState, size: nat)
    requires s.Inv() && s.capacity < U64_LIMIT && size < U64_LIMIT
    requires AlignUp(s.pos) + size < U64_LIMIT
    ensures PushAsWritten(s, size) == Push(s, size)
  {
    assert s.pos + ARENA_ALIGN - 1 < U64_LIMIT;
    var aligned := AlignUp64(s.pos);
    assert aligned == AlignUp(s.pos);
    SmallMod(aligned + size);
  }

  lemma SmallMod(x: nat)
    requires x < U64_LIMIT
    ensures x % U64_LIMIT == x
  {
  }
}
