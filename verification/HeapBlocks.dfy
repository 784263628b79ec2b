// What a heap buffer means: the blocks its `next` pointers tile it with, which
// of them are live, and what the allocator's pointer writes do to both.

module HeapBlocks {
  import opened HeapMemory

  // `bs` lists the block starts that following `next` from word 0 visits, and
  // ends with the size of the buffer: the blocks tile it without gap or overlap.
  ghost predicate Tiles(m: Memory, bs: seq<nat>) {
    && |bs| >= 2 && bs[0] == 0 && bs[|bs| - 1] == |m|
    && (forall i, j :: 0 <= i < j < |bs| ==> bs[i] + HEADER <= bs[j])
    && (forall i, j :: 0 <= i && j == i + 1 && j < |bs| ==> m[bs[i] + 1] == Ptr(bs[j]))
  }

  // Blocks start at multiples of 24 bytes, and a `prev` pointer is NULL or points
  // at some such place below its block, not always at the block just before it.
  ghost predicate Aligned(m: Memory, bs: seq<nat>)
    requires Tiles(m, bs)
  {
    forall i :: 0 <= i < |bs| - 1 ==>
      bs[i] % HEADER == 0 && PrevInRange(m[bs[i] + 2], bs[i])
  }

  predicate PrevInRange(p: nat, c: nat) {
    p == 0 || exists k: nat :: k < c && k % HEADER == 0 && p == Ptr(k)
  }

  ghost predicate Heads(bs: seq<nat>, c: nat) {
    exists i :: 0 <= i < |bs| - 2 && bs[i] == c
  }

  // Every live block is one of the tiles, is marked occupied, and is not the last.
  ghost predicate Inv(m: Memory, bs: seq<nat>, live: set<nat>) {
    && Tiles(m, bs) && Aligned(m, bs)
    && forall c :: c in live ==> Heads(bs, c) && Occupied(m[c])
  }

  ghost predicate WellFormed(m: Memory, live: set<nat>) {
    exists bs :: Inv(m, bs, live)
  }

  // The payload of the block at c.
  function Payload(m: Memory, c: nat): Memory {
    if c + HEADER <= |m| && c + HEADER <= Index(m[c + 1]) <= |m| then m[c + HEADER..Index(m[c + 1])] else []
  }

  lemma PayloadIs(m: Memory, c: nat, n: nat)
    requires c + HEADER <= n <= |m| && m[c + 1] == Ptr(n)
    ensures Payload(m, c) == m[c + HEADER..n]
  {
  }

  lemma PtrIndex(n: nat)
    ensures Index(Ptr(n)) == n && Ptr(n) % 8 == 0
  {
  }

  // Multiples of the header size are a header apart.
  lemma HeadersApart(a: nat, b: nat)
    requires a % HEADER == 0 && b % HEADER == 0
    ensures a == b || a + HEADER <= b || b + HEADER <= a
  {
  }

  lemma LiveBlock(m: Memory, bs: seq<nat>, live: set<nat>, c: nat) returns (i: nat)
    requires Inv(m, bs, live) && c in live
    ensures i < |bs| - 2 && bs[i] == c && bs[i + 1] == Index(m[c + 1])
    ensures c + HEADER <= bs[i + 1] && bs[i + 1] + HEADER <= bs[i + 2] <= |m|
    ensures m[c + 1] == Ptr(bs[i + 1]) && m[bs[i + 1] + 1] == Ptr(bs[i + 2])
    ensures bs[i + 1] % HEADER == 0 && c % HEADER == 0
  {
    i :| 0 <= i < |bs| - 2 && bs[i] == c;
  }

  // A buffer is tiled in at most one way.
  lemma {:induction false} TilesUnique(m: Memory, as_: seq<nat>, bs: seq<nat>, i: nat)
    requires Tiles(m, as_) && Tiles(m, bs) && i < |as_|
    ensures i < |bs| && as_[i] == bs[i]
  {
    if i > 0 {
      TilesUnique(m, as_, bs, i - 1);
      assert m[as_[i - 1] + 1] == Ptr(as_[i]);
      assert i != |bs|;
      assert m[bs[i - 1] + 1] == Ptr(bs[i]);
    }
  }

  //// AllocateHeap ////

  function FreshMemory(n: nat): (m: Memory)
    requires n >= HEADER
    ensures |m| == n
  {
    seq(n, _ => 0)[1 := Ptr(n)][0 := SAFE_BYTES]
  }

  lemma FreshIsWellFormed(n: nat)
    requires n >= HEADER
    ensures Inv(FreshMemory(n), [0, n], {})
    ensures !Occupied(FreshMemory(n)[0]) && FreshMemory(n)[0] % UINT32 == SAFE_BYTES
    ensures forall i :: 2 <= i < n ==> FreshMemory(n)[i] == 0
  {
  }

  //// VMHeapAlloc: claiming block c for `words` words of payload ////

  // The stores of lines 121-129, in order.
  function Claim(m: Memory, c: nat, words: nat): (r: Memory)
    requires c + HEADER + words + HEADER <= |m|
    ensures |r| == |m|
  {
    var n := c + HEADER + words;
    var m1 := m[n + 2 := Ptr(c)];
    var m2 := m1[c := WithOccupied(m1[c], true)];
    var tmp := m2[c + 1];
    var m3 := m2[c := WithSafeBytes(m2[c])][c + 1 := Ptr(n)];
    var m4 := m3[n + 1 := tmp];
    m4[n + 2 := Ptr(c)]
  }

  function Inserted(bs: seq<nat>, i: nat, n: nat): seq<nat>
    requires i < |bs|
  {
    bs[..i + 1] + [n] + bs[i + 1..]
  }

  function Removed(bs: seq<nat>, i: nat, j: nat): seq<nat>
    requires i <= j <= |bs|
  {
    bs[..i] + bs[j..]
  }

  lemma SpacedInserted(bs: seq<nat>, i: nat, n: nat)
    requires forall a, b :: 0 <= a < b < |bs| ==> bs[a] + HEADER <= bs[b]
    requires i < |bs| - 1 && bs[i] + HEADER <= n && n + HEADER <= bs[i + 1]
    ensures var bs' := Inserted(bs, i, n); forall a, b :: 0 <= a < b < |bs'| ==> bs'[a] + HEADER <= bs'[b]
  {
    var bs' := Inserted(bs, i, n);
    forall a, b | 0 <= a < b < |bs'| ensures bs'[a] + HEADER <= bs'[b] {
      if a > i + 1 {
        assert bs'[a] == bs[a - 1] && bs'[b] == bs[b - 1];
      } else if b > i + 1 {
        assert bs'[b] == bs[b - 1] >= bs[i + 1];
      }
    }
  }

  // Tiling after a header is written inside block i: what it takes and gives.
  lemma TilesInserted(m: Memory, bs: seq<nat>, m': Memory, i: nat, n: nat)
    requires Tiles(m, bs) && |m'| == |m| && i < |bs| - 1
    requires bs[i] + HEADER <= n && n + HEADER <= bs[i + 1]
    requires m'[bs[i] + 1] == Ptr(n) && m'[n + 1] == Ptr(bs[i + 1])
    requires forall j :: 0 <= j < |bs| - 1 && j != i ==> m'[bs[j] + 1] == m[bs[j] + 1]
    ensures Tiles(m', Inserted(bs, i, n))
  {
    var bs' := Inserted(bs, i, n);
    SpacedInserted(bs, i, n);
    forall a, b | 0 <= a && b == a + 1 && b < |bs'| ensures m'[bs'[a] + 1] == Ptr(bs'[b]) {
      if a < i {
        assert bs'[a] == bs[a] && bs'[b] == bs[b];
      } else if a > i + 1 {
        assert bs'[a] == bs[a - 1] && bs'[b] == bs[b - 1];
      }
    }
  }

  lemma AlignedInserted(m: Memory, bs: seq<nat>, m': Memory, i: nat, n: nat)
    requires Tiles(m, bs) && Aligned(m, bs) && i < |bs| - 1
    requires bs[i] < n && n % HEADER == 0
    requires Tiles(m', Inserted(bs, i, n)) && n + 2 < |m'| && m'[n + 2] == Ptr(bs[i])
    requires forall j :: 0 <= j < |bs| - 1 ==> m'[bs[j] + 2] == m[bs[j] + 2]
    ensures Aligned(m', Inserted(bs, i, n))
  {
    var bs' := Inserted(bs, i, n);
    forall a | 0 <= a < |bs'| - 1
      ensures bs'[a] % HEADER == 0 && PrevInRange(m'[bs'[a] + 2], bs'[a])
    {
      if a <= i {
        assert bs'[a] == bs[a];
      } else if a > i + 1 {
        assert bs'[a] == bs[a - 1];
      }
    }
  }

  // What Claim leaves behind when it puts the remainder's header at n.
  ghost predicate Claimed(m: Memory, m': Memory, c: nat, n: nat) {
    && c + HEADER <= n && n + HEADER <= |m| == |m'|
    && Occupied(m'[c]) && m'[c] % UINT32 == SAFE_BYTES
    && m'[c + 1] == Ptr(n) && m'[n + 1] == m[c + 1] && m'[n + 2] == Ptr(c)
    && forall k :: 0 <= k < |m| && k != c && k != c + 1 && k != n + 1 && k != n + 2 ==> m'[k] == m[k]
  }

  lemma ClaimStores(m: Memory, c: nat, words: nat)
    requires c + HEADER + words + HEADER <= |m|
    ensures Claimed(m, Claim(m, c, words), c, c + HEADER + words)
  {
  }

  lemma ClaimedTiles(m: Memory, bs: seq<nat>, m': Memory, i: nat, n: nat)
    requires Tiles(m, bs) && Aligned(m, bs)
    requires i < |bs| - 1 && n % HEADER == 0 && n + HEADER <= bs[i + 1] && Claimed(m, m', bs[i], n)
    ensures Tiles(m', Inserted(bs, i, n)) && Aligned(m', Inserted(bs, i, n))
  {
    assert m[bs[i] + 1] == Ptr(bs[i + 1]);
    forall j | 0 <= j < |bs| - 1
      ensures m'[bs[j] + 2] == m[bs[j] + 2] && (j != i ==> m'[bs[j] + 1] == m[bs[j] + 1])
    {
      if j < i { assert bs[j] + HEADER <= bs[i]; }
      if j > i { assert bs[i + 1] <= bs[j]; }
    }
    TilesInserted(m, bs, m', i, n);
    AlignedInserted(m, bs, m', i, n);
  }

  // Two different tiles do not overlap.
  lemma Apart(m: Memory, bs: seq<nat>, i: nat, j: nat)
    requires Tiles(m, bs) && i < |bs| - 1 && j < |bs| - 1 && i != j
    ensures bs[i + 1] <= bs[j] || bs[j + 1] <= bs[i]
  {
    if i + 1 < j { assert bs[i + 1] < bs[j]; }
    if j + 1 < i { assert bs[j + 1] < bs[i]; }
  }

  // A live block's header and payload read the same after writes outside it.
  lemma Untouched(m: Memory, bs: seq<nat>, live: set<nat>, m': Memory, q: nat)
    requires Inv(m, bs, live) && q in live && |m'| == |m|
    requires forall k :: q <= k < |m| && k < Index(m[q + 1]) ==> m'[k] == m[k]
    ensures q < |m'| && m'[q] == m[q] && Payload(m', q) == Payload(m, q)
  {
    var i := LiveBlock(m, bs, live, q);
  }

  lemma ClaimedKeeps(m: Memory, bs: seq<nat>, live: set<nat>, m': Memory, i: nat, n: nat, q: nat)
    requires Inv(m, bs, live) && q in live
    requires i < |bs| - 1 && !Occupied(m[bs[i]]) && n + HEADER <= bs[i + 1] && Claimed(m, m', bs[i], n)
    ensures q != bs[i] && q < |m'| && Occupied(m'[q]) && Payload(m', q) == Payload(m, q)
  {
    var a := LiveBlock(m, bs, live, q);
    Apart(m, bs, i, a);
    Untouched(m, bs, live, m', q);
  }

  lemma HeadsInserted(bs: seq<nat>, i: nat, n: nat, q: nat)
    requires i < |bs| - 1 && Heads(bs, q)
    ensures Heads(Inserted(bs, i, n), q)
  {
    var a :| 0 <= a < |bs| - 2 && bs[a] == q;
    var bs' := Inserted(bs, i, n);
    if a <= i { assert bs'[a] == q; } else { assert bs'[a + 1] == q; }
  }

  lemma InvInserted(m: Memory, bs: seq<nat>, live: set<nat>, m': Memory, i: nat, n: nat)
    requires Inv(m, bs, live) && i < |bs| - 1
    requires Tiles(m', Inserted(bs, i, n)) && Aligned(m', Inserted(bs, i, n))
    requires Occupied(m'[bs[i]]) && forall q :: q in live ==> q < |m'| && Occupied(m'[q])
    ensures Inv(m', Inserted(bs, i, n), live + {bs[i]})
  {
    forall q | q in live + {bs[i]} ensures Heads(Inserted(bs, i, n), q) {
      if q == bs[i] {
        assert Inserted(bs, i, n)[i] == q;
      } else {
        HeadsInserted(bs, i, n, q);
      }
    }
  }

  // A claim that leaves room for another header splits its block and nothing else.
  lemma ClaimSplits(m: Memory, bs: seq<nat>, live: set<nat>, m': Memory, i: nat, n: nat)
    requires Inv(m, bs, live)
    requires i < |bs| - 1 && !Occupied(m[bs[i]])
    requires n % HEADER == 0 && n + HEADER <= bs[i + 1] && Claimed(m, m', bs[i], n)
    ensures Inv(m', Inserted(bs, i, n), live + {bs[i]})
    ensures bs[i] !in live && |Payload(m', bs[i])| == n - HEADER - bs[i]
    ensures forall q :: q in live ==> Payload(m', q) == Payload(m, q)
  {
    forall q | q in live
      ensures q != bs[i] && q < |m'| && Occupied(m'[q]) && Payload(m', q) == Payload(m, q)
    {
      ClaimedKeeps(m, bs, live, m', i, n, q);
    }
    ClaimedTiles(m, bs, m', i, n);
    InvInserted(m, bs, live, m', i, n);
  }
}
