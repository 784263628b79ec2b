// The allocator itself: headers overwritten in place in one buffer, each entry
// point computing the function of the same name in HeapCalls.

module Heap {
  import opened HeapMemory
  import opened HeapBlocks
  import opened HeapUpdates
  import opened HeapRealloc
  import opened HeapCalls

  ghost predicate Tiled(m: Memory) {
    exists bs :: Tiles(m, bs)
  }

  // A fault is a load or store outside the buffer, or over a header still in use.
  datatype Answer = Address(value: nat) | Fault

  ghost predicate Answers(m: Memory, m': Memory, a: Answer, r: Outcome) {
    match r
    case Done(expected, address) => a == Address(address) && m' == expected
    case _ => a == Fault
  }

  lemma ReleasableBounds(m: Memory, c: nat)
    requires Releasable(m, c)
    ensures c + HEADER <= |m| && c + HEADER <= Index(m[c + 1])
  {
  }

  class VMHeap {
    const heap: array<nat>

    // AllocateHeap, for a size that passed its checks; the buffer comes from calloc.
    constructor AllocateHeap(words: nat)
      requires words >= HEADER
      ensures fresh(heap) && heap[..] == FreshMemory(words)
    {
      var h := new nat[words](_ => 0);
      h[1] := Ptr(words);
      h[2] := 0;
      h[0] := SAFE_BYTES;
      heap := h;
    }

    // Lines 94-100: walk `next` to the first free block that is big enough.
    method Search(bytes: nat) returns (curr: nat)
      requires Tiled(heap[..])
      ensures match FirstFit(heap[..], 0, bytes)
              case Found(c) => curr == c && c + HEADER <= heap.Length
              case Exhausted => curr == heap.Length
              case _ => false
    {
      ghost var m := heap[..];
      ghost var bs :| Tiles(m, bs);
      ghost var i := 0;
      FirstFitIsLowest(m, bs, 0, bytes);
      curr := 0;
      while curr < heap.Length && (Occupied(heap[curr]) || heap[curr + 1] as int - Ptr(curr) < bytes)
        invariant 0 <= i < |bs| && bs[i] == curr
        invariant FirstFit(m, curr, bytes) == FirstFit(m, 0, bytes)
        decreases heap.Length - curr
      {
        assert m[bs[i] + 1] == Ptr(bs[i + 1]);
        curr := Index(heap[curr + 1]);
        i := i + 1;
      }
    }

    method VMHeapAlloc(size: nat) returns (a: Answer)
      requires size < UINT32 && Tiled(heap[..])
      modifies heap
      ensures Answers(old(heap[..]), heap[..], a, HeapCalls.VMHeapAlloc(old(heap[..]), size))
    {
      if size == 0 {
        return Address(0);
      }
      hide RoundUp, Tiled, FirstFit, HeapBlocks.Claim;
      var rounded := RoundUp(size);
      var curr := Search(rounded + 24);
      var next := curr + HEADER + rounded / 8;
      if curr == heap.Length || next + HEADER > heap.Length {
        return Fault;
      }
      Claim(curr, next);
      return Address(HeapCalls.Address(curr));
    }

    // Lines 121-129: the block is taken, and a header is written behind it.
    method Claim(curr: nat, next: nat)
      requires curr + HEADER <= next && next + HEADER <= heap.Length
      modifies heap
      ensures heap[..] == HeapBlocks.Claim(old(heap[..]), curr, next - curr - HEADER)
    {
      ghost var m := heap[..];
      heap[next + 2] := Ptr(curr);
      heap[curr] := WithOccupied(heap[curr], true);
      var tmp := heap[curr + 1];
      heap[curr] := WithSafeBytes(heap[curr]);
      heap[curr + 1] := Ptr(next);
      heap[next + 1] := tmp;
      heap[next + 2] := Ptr(curr);
      assert heap[..] == HeapBlocks.Claim(m, curr, next - curr - HEADER);
    }

    method VMHeapFree(address: nat) returns (a: Answer)
      modifies heap
      ensures Answers(old(heap[..]), heap[..], a, HeapCalls.VMHeapFree(old(heap[..]), address))
    {
      ghost var m := heap[..];
      if BlockOf(address) < 0 || !Releasable(heap[..], BlockOf(address)) {
        return Fault;
      }
      var curr: nat := BlockOf(address);
      var prev := heap[curr + 2];
      if prev != 0 && !Occupied(heap[Index(prev)]) {
        heap[Index(prev) + 1] := heap[curr + 1];
      }
      var next := heap[curr + 1];
      if next < Ptr(heap.Length) && !Occupied(heap[Index(next)]) {
        heap[curr + 1] := heap[Index(next) + 1];
      }
      heap[curr] := WithOccupied(heap[curr], false);
      assert heap[..] == Release(m, curr);
      return Address(address);
    }

    method Resize(curr: nat, next: nat)
      requires Releasable(heap[..], curr) && curr + HEADER <= next && next + HEADER <= heap.Length
      modifies heap
      ensures heap[..] == HeapRealloc.Resize(old(heap[..]), curr, next)
    {
      ghost var m := heap[..];
      heap[next + 2] := Ptr(curr);
      heap[next] := WithSafeBytes(heap[next]);
      heap[next + 1] := heap[Index(heap[curr + 1]) + 1];
      heap[curr + 1] := Ptr(next);
      assert heap[..] == HeapRealloc.Resize(m, curr, next);
    }

    method CopyWords(from: nat, to: nat, k: nat)
      requires from + k <= heap.Length && to + k <= heap.Length
      modifies heap
      ensures heap[..] == HeapCalls.CopyWords(old(heap[..]), from, to, k)
    {
      ghost var m := heap[..];
      forall x | 0 <= x < k { heap[to + x] := heap[from + x]; }
      assert heap[..] == HeapCalls.CopyWords(m, from, to, k);
    }

    // The path that finds a new block of memory to inhabit.
    method Relocate(curr: nat, rounded: nat) returns (a: Answer)
      requires rounded < UINT32 && Tiled(heap[..]) && Releasable(heap[..], curr)
      modifies heap
      ensures Answers(old(heap[..]), heap[..], a,
                      Relocated(old(heap[..]), curr, HeapCalls.VMHeapAlloc(old(heap[..]), rounded)))
    {
      hide Releasable, Release, HeapBlocks.Claim, Tiled, FirstFit, RoundUp, HeapCalls.CopyWords, Index;
      hide HeapCalls.VMHeapAlloc, HeapCalls.VMHeapFree;
      ReleasableBounds(heap[..], curr);
      var oldDataSize: nat := Index(heap[curr + 1]) - curr - HEADER;
      a := VMHeapAlloc(rounded);
      if a.Fault? || curr + HEADER + oldDataSize > heap.Length || a.value / 8 + oldDataSize > heap.Length {
        return Fault;
      }
      var newAddress := a.value;
      CopyWords(curr + HEADER, newAddress / 8, oldDataSize);
      a := VMHeapFree(HeapCalls.Address(curr));
      if a.Fault? {
        return Fault;
      }
      return Address(newAddress);
    }

    method VMHeapRealloc(address: nat, size: nat) returns (a: Answer)
      requires size < UINT32 && Tiled(heap[..])
      modifies heap
      ensures Answers(old(heap[..]), heap[..], a, HeapCalls.VMHeapRealloc(old(heap[..]), address, size))
    {
      hide Relocated, HeapRealloc.Resize, Tiled;
      if size == 0 {
        return Address(0);
      }
      if BlockOf(address) < 0 || !Releasable(heap[..], BlockOf(address)) {
        return Fault;
      }
      var curr: nat := BlockOf(address);
      var rounded := RoundUp(size);
      assert rounded < UINT32;
      var reqSize := (rounded + 24) % UINT32;
      var next := Index(heap[curr + 1]);
      var currSize := 8 * (next - curr) % UINT32;
      if reqSize == currSize {
        return Address(address);
      }
      if reqSize < currSize || (!Occupied(heap[next]) && heap[next + 1] as int - Ptr(next) >= reqSize) {
        var n := curr + reqSize / 8;
        if curr + HEADER <= n && n + HEADER <= heap.Length {
          Resize(curr, n);
          return Address(address);
        }
        return Fault;
      }
      a := Relocate(curr, rounded);
    }

    method VMGetHeapAllocSize(address: nat) returns (bytes: nat)
      requires BlockOf(address) >= 0 && BlockOf(address) + HEADER <= heap.Length
      requires heap[BlockOf(address) + 1] >= Ptr(BlockOf(address))
      ensures bytes == (heap[BlockOf(address) + 1] - Ptr(BlockOf(address))) % UINT32
      ensures forall live: set<nat> :: WellFormed(heap[..], live) && BlockOf(address) in live ==>
                bytes == AllocSize(heap[..], BlockOf(address))
    {
      forall live: set<nat> | WellFormed(heap[..], live) && BlockOf(address) in live
        ensures (heap[BlockOf(address) + 1] - Ptr(BlockOf(address))) % UINT32 == AllocSize(heap[..], BlockOf(address))
      {
        SizeIsBlock(heap[..], live, BlockOf(address));
      }
      var curr: nat := BlockOf(address);
      bytes := (heap[curr + 1] - Ptr(curr)) % UINT32;
    }
  }
}
