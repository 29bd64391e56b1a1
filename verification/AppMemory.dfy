// The application memory slot that core modules are loaded into, and the reservation that other
// code may take from its top. Addresses and sizes are 32 bits wide.

module AppMemory {
  import opened Arithmetic
  import opened Bytes

  const WORD: nat := 0x1_0000_0000
  const ARENA_MIN_BYTES: nat := 0x20_0000

  datatype Slot = Slot(base: nat, bytes: nat)

  predicate PowerOfTwo(n: nat) { n == 1 || (n != 0 && n % 2 == 0 && PowerOfTwo(n / 2)) }

  function AlignDown(value: int, alignment: nat): int
    requires 0 < alignment
  {
    value - value % alignment
  }

  // The largest multiple that is not above the value.
  lemma AlignDownIs(value: int, alignment: nat)
    requires 0 < alignment
    ensures AlignDown(value, alignment) <= value < AlignDown(value, alignment) + alignment
    ensures value >= 0 ==> AlignDown(value, alignment) >= 0
    ensures AlignDown(value, alignment) % alignment == 0
  {
    var q := value / alignment;
    assert AlignDown(value, alignment) == q * alignment;
    DivisionIs(q * alignment, q, 0, alignment);
  }

  class ApplicationMemory {
    const base: nat
    const size: nat
    const readable: bool
    var reservedTop: nat
    var reservedBytes: nat

    // A live reservation reaches to the end of the region and leaves the smallest arena below it.
    ghost predicate Valid()
      reads this
    {
      && base < WORD && size < WORD
      && (reservedBytes != 0 ==>
            readable && base + size < WORD && base + ARENA_MIN_BYTES <= reservedTop
            && reservedTop + reservedBytes == base + size)
      && (reservedBytes == 0 ==> reservedTop == 0)
    }

    constructor (base: nat, size: nat, readable: bool)
      requires base < WORD && size < WORD
      ensures Valid() && reservedBytes == 0
      ensures this.base == base && this.size == size && this.readable == readable
    {
      this.base := base;
      this.size := size;
      this.readable := readable;
      reservedTop, reservedBytes := 0, 0;
    }

    // The slot is what lies below a live reservation, and never disappears because of one.
    method MemorySlot() returns (slot: Option<Slot>)
      requires Valid()
      ensures slot.Some? <==> readable && size >= ARENA_MIN_BYTES
      ensures slot.Some? ==> slot.value == CurrentSlot() && slot.value.bytes >= ARENA_MIN_BYTES
    {
      if !readable || size < ARENA_MIN_BYTES { return None; }
      var bytes := size;
      if reservedBytes != 0 {
        if reservedBytes >= bytes { return None; }
        bytes := bytes - reservedBytes;
        if bytes < ARENA_MIN_BYTES { return None; }
      }
      slot := Some(Slot(base, bytes));
    }

    ghost function CurrentSlot(): (slot: Slot)
      requires Valid()
      reads this
      ensures reservedBytes != 0 ==> slot.base + slot.bytes == reservedTop
    {
      Slot(base, size - reservedBytes)
    }

    // Where a reservation starts: both its end and its start are aligned downwards.
    ghost function ReserveStart(bytes: nat, alignment: nat): int
      requires 0 < alignment
    {
      AlignDown(AlignDown(base + size, alignment) - bytes, alignment)
    }

    method ReserveTop(bytes: nat, asked: nat) returns (ptr: Option<nat>)
      requires Valid() && bytes < WORD && asked < WORD
      modifies this
      ensures Valid()
      ensures var alignment := if asked < 32 then 32 else asked;
              && (ptr.Some? <==>
                    bytes != 0 && old(reservedBytes) == 0 && PowerOfTwo(alignment) && readable
                    && base + size < WORD && ReserveStart(bytes, alignment) >= base + ARENA_MIN_BYTES)
              && (ptr.Some? ==>
                    && ptr.value % alignment == 0 && ptr.value + bytes <= base + size
                    && reservedTop == ptr.value && reservedBytes == base + size - ptr.value > 0
                    && CurrentSlot() == Slot(base, ptr.value - base))
      ensures ptr.None? ==> reservedTop == old(reservedTop) && reservedBytes == old(reservedBytes)
    {
      if bytes == 0 || reservedBytes != 0 { return None; }
      var alignment := if asked < 32 then 32 else asked;
      if !PowerOfTwo(alignment) || !readable { return None; }
      hide AlignDown, PowerOfTwo, ReserveStart;
      ptr := FindTop(bytes, alignment);
      if ptr.Some? {
        reservedTop := ptr.value;
        reservedBytes := base + size - ptr.value;
      }
    }

    // The checks and alignments that place a reservation, in 32-bit arithmetic.
    method FindTop(bytes: nat, alignment: nat) returns (start: Option<nat>)
      requires base < WORD && size < WORD && bytes != 0 && 0 < alignment
      ensures start.Some? <==> base + size < WORD && ReserveStart(bytes, alignment) >= base + ARENA_MIN_BYTES
      ensures start.Some? ==> start.value == ReserveStart(bytes, alignment)
      ensures start.Some? ==> start.value % alignment == 0 && start.value + bytes <= base + size
    {
      AlignDownIs(base + size, alignment);
      AlignDownIs(AlignDown(base + size, alignment) - bytes, alignment);
      AlignDownIs((base + size) % WORD, alignment);
      hide AlignDown;
      if size < ARENA_MIN_BYTES || bytes > size - ARENA_MIN_BYTES { return None; }
      var arenaEnd := (base + size) % WORD;
      var reserveEnd := AlignDown(arenaEnd, alignment);
      if reserveEnd < base || bytes > reserveEnd - base { return None; }
      var reserveStart := AlignDown(reserveEnd - bytes, alignment);
      if reserveStart < base || reserveStart - base < ARENA_MIN_BYTES { return None; }
      start := Some(reserveStart);
    }

    // Releasing what was reserved, or whatever is reserved, gives the whole region back; any
    // other pointer changes nothing.
    method ReleaseTop(ptr: Option<nat>)
      requires Valid()
      modifies this
      ensures Valid()
      ensures if ptr.None? || ptr.value == old(reservedTop) || ptr.value == 0
              then reservedBytes == 0 && CurrentSlot() == Slot(base, size)
              else reservedTop == old(reservedTop) && reservedBytes == old(reservedBytes)
    {
      if reservedBytes == 0 { return; }
      if ptr.Some? && ptr.value != 0 && ptr.value != reservedTop { return; }
      reservedTop, reservedBytes := 0, 0;
    }
  }
}
