// Heap memory of the virtual machine: 24-byte block headers written into the
// same buffer as the payloads they describe (vm/vm_memory.c).
//
// The buffer is a sequence of 8-byte words. A header takes three words: the
// first holds `safebytes` (low 32 bits) and `occupied` (the byte above them),
// the second the `next` pointer, the third the `prev` pointer.

module HeapMemory {

  const HEADER: nat := 3                       // words in sizeof(Alloc_t) == 24
  const SAFE_BYTES: nat := 0xDEADC0DE
  const UINT32: nat := 0x1_0000_0000
  const HEAP_BASE: nat := 0x1_0000             // where calloc put the buffer; any positive address does

  type Memory = seq<nat>

  // The pointer stored for word i of the buffer. No such pointer is NULL.
  function Ptr(i: nat): nat { HEAP_BASE + 8 * i }

  function Index(p: nat): int { (p - HEAP_BASE) / 8 }

  predicate Occupied(w: nat) { w / UINT32 % 0x100 != 0 }

  function WithOccupied(w: nat, b: bool): (r: nat)
    ensures Occupied(r) == b
    ensures r % UINT32 == w % UINT32
  {
    var flag := (if b then 1 else 0) + w / UINT32 / 0x100 * 0x100;
    DivModUnique(flag, w % UINT32);
    flag * UINT32 + w % UINT32
  }

  lemma DivModUnique(q: nat, r: nat)
    requires r < UINT32
    ensures (q * UINT32 + r) / UINT32 == q && (q * UINT32 + r) % UINT32 == r
  {
  }

  function WithSafeBytes(w: nat): (r: nat)
    ensures Occupied(r) == Occupied(w)
    ensures r % UINT32 == SAFE_BYTES
  {
    w - w % UINT32 + SAFE_BYTES
  }

  // `size` after the round-up to a multiple of 24, kept in a uint32_t.
  function RoundUp(size: nat): nat
    requires 0 < size < UINT32
  {
    ((size - 1) / 24 + 1) * 24 % UINT32
  }

  // The rounding gives the least multiple of 24 not below the request exactly
  // when that multiple still fits in 32 bits; the 15 requests above wrap to 8.
  lemma RoundUpExact(size: nat)
    requires 0 < size < UINT32
    ensures (RoundUp(size) >= size) <==> size <= 0xFFFF_FFF0
    ensures size <= 0xFFFF_FFF0 ==>
              RoundUp(size) % 24 == 0 && RoundUp(size) < size + 24
              && forall k: nat :: 24 * k >= size ==> RoundUp(size) <= 24 * k
    ensures size > 0xFFFF_FFF0 ==> RoundUp(size) == 8
  {
    var q := (size - 1) / 24;
    assert 24 * q <= size - 1 < 24 * q + 24;
    if size <= 0xFFFF_FFF0 {
      assert (q + 1) * 24 < UINT32;
    } else {
      assert q == 178956970;
    }
  }
}
