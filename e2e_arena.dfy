/**
 * The MemArena class of end-to-encryption.cpp: a zero-filled buffer, a bump
 * cursor that starts past the header, pop/pop_to, clear, and a checkpoint stack.
 * An overflowing push throws std::overflow_error; here it returns None.
 */
module E2eArena {
  import opened Bytes
  import opened Wrappers
  import ArenaCore

  /** sizeof(MemArena): a pointer, two ui64 and a std::vector (three pointers) on LP64. */
  const ARENA_BASE_POS: nat := 48

  class MemArena {
    const capacity: nat
    const buffer: array<byte>
    var pos: nat
    var checkpoints: seq<nat>

    /** The cursor state the value-level arena functions speak about. */
    ghost function State(): ArenaCore.ArenaState
      reads this
    {
      ArenaCore.ArenaState(ARENA_BASE_POS, capacity, pos, checkpoints)
    }

    ghost predicate Valid()
      reads this
    {
      buffer.Length == capacity && capacity < U64_LIMIT && State().Inv()
    }

    /** Every byte of the buffer below `bound` still holds its value in `before`. */
    ghost predicate KeepsBelow(before: seq<byte>, bound: nat)
      reads this, buffer
    {
      |before| == buffer.Length && forall i | 0 <= i < buffer.Length && i < bound :: buffer[i] == before[i]
    }

    /** MemArena(capacity): allocate and zero the whole buffer; the cursor starts at the base. */
    constructor (capacity: nat)
      requires capacity < U64_LIMIT
      ensures Valid() && fresh(buffer)
      ensures State() == ArenaCore.ArenaState(ARENA_BASE_POS, capacity, ARENA_BASE_POS, [])
      ensures forall i | 0 <= i < buffer.Length :: buffer[i] == 0
    {
      this.capacity := capacity;
      pos := ARENA_BASE_POS;
      checkpoints := [];
      var b := new byte[capacity];
      Fill(b, 0, capacity, 0);
      buffer := b;
    }

    /**
     * push(size, non_zero): reserve `size` bytes at the aligned cursor. The
     * block is zeroed unless `nonZero`; every other byte keeps its value.
     */
    method Push(size: nat, nonZero: bool) returns (block: Option<nat>)
      requires Valid()
      modifies this, buffer
      ensures Valid()
      ensures State() == ArenaCore.Push(old(State()), size).next
      ensures block == ArenaCore.Push(old(State()), size).block
      ensures forall i | 0 <= i < buffer.Length ::
        buffer[i] == if block.Some? && !nonZero && block.value <= i < block.value + size
                     then 0 else old(buffer[i])
    {
      var aligned := ArenaCore.AlignUp(pos);
      if aligned + size > capacity {
        return None;
      }
      pos := aligned + size;
      if !nonZero {
        Fill(buffer, aligned, size, 0);
      }
      block := Some(aligned);
    }

    /** pop(size): lower the cursor, never below the base. */
    method Pop(size: nat)
      requires Valid()
      modifies this
      ensures Valid() && State() == ArenaCore.Pop(old(State()), size)
    {
      var n := Min(size, pos - ARENA_BASE_POS);
      pos := pos - n;
    }

    /** pop_to(target): pop down to `target` when it lies below the cursor. */
    method PopTo(target: nat)
      requires Valid()
      modifies this
      ensures Valid() && State() == ArenaCore.PopTo(old(State()), target)
    {
      var n := if target < pos then pos - target else 0;
      Pop(n);
    }

    /** clear(): pop_to the base, then forget every checkpoint. */
    method Clear()
      requires Valid()
      modifies this
      ensures Valid() && State() == ArenaCore.ClearByPopTo(old(State()))
    {
      PopTo(ARENA_BASE_POS);
      checkpoints := [];
    }

    /** save_checkpoint(): remember the cursor. */
    method SaveCheckpoint()
      requires Valid()
      modifies this
      ensures Valid() && State() == ArenaCore.Save(old(State()))
    {
      checkpoints := checkpoints + [pos];
    }

    /** restore_checkpoint(): return to the newest checkpoint, if there is one, and drop it. */
    method RestoreCheckpoint()
      requires Valid()
      modifies this
      ensures Valid() && State() == ArenaCore.Restore(old(State()))
    {
      if checkpoints != [] {
        var checkpoint := checkpoints[|checkpoints| - 1];
        checkpoints := checkpoints[..|checkpoints| - 1];
        PopTo(checkpoint);
      }
    }

    /** get_used(): the bytes reserved past the header. */
    function GetUsed(): (r: nat)
      reads this
      requires Valid()
      ensures ARENA_BASE_POS + r == pos
    {
      pos - ARENA_BASE_POS
    }

    /**
     * get_available(): `capacity - pos` in `ui64`. That is the room left, or a
     * wrapped-around huge number for an arena smaller than its own header.
     */
    function GetAvailable(): (r: nat)
      reads this
      requires Valid()
      ensures r < U64_LIMIT
      ensures pos <= capacity ==> pos + r == capacity
      ensures capacity < pos ==> r == U64_LIMIT - (pos - capacity)
    {
      (capacity - pos) % U64_LIMIT
    }
  }

  /** Used and available add up to the room past the header whenever the header fits. */
  lemma UsedPlusAvailable(a: MemArena)
    requires a.Valid() && ARENA_BASE_POS <= a.capacity
    ensures a.GetUsed() + a.GetAvailable() == a.capacity - ARENA_BASE_POS
  {
  }
}
