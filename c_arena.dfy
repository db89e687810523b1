/**
 * The C arena of arena.c: the `mem_arena` header (capacity, pos) lives at the
 * start of the malloc'd block itself, so the cursor starts at 16. An overflowing
 * push returns NULL (None). Here the flag zeroes the block when it is SET, the
 * reverse of the C++ copies, and the PUSH_STRUCT/PUSH_ARRAY macros set it.
 */
module CArena {
  import opened Bytes
  import opened Wrappers
  import ArenaCore

  /** sizeof(mem_arena): two ui64. */
  const ARENA_BASE_POS: nat := 16

  class MemArena {
    const capacity: nat
    /** The whole malloc'd block; bytes 0 .. 15 are where the header sits. */
    const buffer: array<byte>
    var pos: nat

    ghost function State(): ArenaCore.ArenaState
      reads this
    {
      ArenaCore.ArenaState(ARENA_BASE_POS, capacity, pos, [])
    }

    ghost predicate Valid()
      reads this
    {
      buffer.Length == capacity && ARENA_BASE_POS <= capacity < U64_LIMIT && State().Inv()
    }

    /**
     * arena_create(capacity): malloc (contents left as they are) and write the
     * header into the block, which needs the block to hold the header.
     */
    constructor (capacity: nat)
      requires ARENA_BASE_POS <= capacity < U64_LIMIT
      ensures Valid() && fresh(buffer)
      ensures State() == ArenaCore.ArenaState(ARENA_BASE_POS, capacity, ARENA_BASE_POS, [])
    {
      this.capacity := capacity;
      pos := ARENA_BASE_POS;
      buffer := new byte[capacity];
    }

    /** arena_push(arena, size, non_zero): the block is zeroed exactly when `nonZero` is set. */
    method Push(size: nat, nonZero: bool) returns (block: Option<nat>)
      requires Valid()
      modifies this, buffer
      ensures Valid()
      ensures State() == ArenaCore.Push(old(State()), size).next
      ensures block == ArenaCore.Push(old(State()), size).block
      ensures block.Some? ==> ARENA_BASE_POS <= block.value
      ensures forall i | 0 <= i < buffer.Length ::
        buffer[i] == if block.Some? && nonZero && block.value <= i < block.value + size
                     then 0 else old(buffer[i])
    {
      var aligned := ArenaCore.AlignUp(pos);
      if aligned + size > capacity {
        return None;
      }
      pos := aligned + size;
      if nonZero {
        Fill(buffer, aligned, size, 0);
      }
      block := Some(aligned);
    }

    /** PUSH_STRUCT(arena, T): a zeroed block of sizeof(T) bytes. */
    method PushStruct(typeSize: nat) returns (block: Option<nat>)
      requires Valid()
      modifies this, buffer
      ensures Valid()
      ensures State() == ArenaCore.Push(old(State()), typeSize).next
      ensures block == ArenaCore.Push(old(State()), typeSize).block
      ensures forall i | 0 <= i < buffer.Length ::
        buffer[i] == if block.Some? && block.value <= i < block.value + typeSize
                     then 0 else old(buffer[i])
    {
      block := Push(typeSize, true);
    }

    /** PUSH_ARRAY(arena, T, count): `sizeof(T) * count` as a `ui64` product, zeroed. */
    method PushArray(typeSize: nat, count: nat) returns (block: Option<nat>)
      requires Valid()
      modifies this, buffer
      ensures Valid()
      ensures State() == ArenaCore.Push(old(State()), typeSize * count % U64_LIMIT).next
      ensures block == ArenaCore.Push(old(State()), typeSize * count % U64_LIMIT).block
      ensures forall i | 0 <= i < buffer.Length ::
        buffer[i] == if block.Some? && block.value <= i < block.value + typeSize * count % U64_LIMIT
                     then 0 else old(buffer[i])
    {
      block := Push(typeSize * count % U64_LIMIT, true);
    }

    /** arena_pop(arena, size): lower the cursor, never below the header. */
    method Pop(size: nat)
      requires Valid()
      modifies this
      ensures Valid() && State() == ArenaCore.Pop(old(State()), size)
    {
      var n := Min(size, pos - ARENA_BASE_POS);
      pos := pos - n;
    }

    /** arena_pop_to(arena, pos): pop down to `target` when it lies below the cursor. */
    method PopTo(target: nat)
      requires Valid()
      modifies this
      ensures Valid() && State() == ArenaCore.PopTo(old(State()), target)
    {
      var n := if target < pos then pos - target else 0;
      Pop(n);
    }

    /** arena_clear(arena): arena_pop_to the header size. */
    method Clear()
      requires Valid()
      modifies this
      ensures Valid() && State() == ArenaCore.ClearByPopTo(old(State()))
    {
      PopTo(ARENA_BASE_POS);
    }
  }
}
