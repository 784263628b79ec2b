// What VMHeapAlloc, VMHeapFree and VMHeapRealloc do to a well-formed heap, with
// the `prev` pointers kept exactly as loosely as vm/vm_memory.c keeps them.

module HeapUpdates {
  import opened HeapMemory
  import opened HeapBlocks

  // Does following `next` from c0 visit k?
  predicate IsBlock(m: Memory, c0: nat, k: nat)
    decreases |m| - c0
  {
    c0 == k < |m|
    || (c0 + HEADER <= |m| && c0 < Index(m[c0 + 1]) <= |m| && IsBlock(m, Index(m[c0 + 1]), k))
  }

  lemma {:induction false} IsBlockIsTile(m: Memory, bs: seq<nat>, i: nat, k: nat)
    requires Tiles(m, bs) && i < |bs|
    ensures IsBlock(m, bs[i], k) <==> exists j :: i <= j < |bs| - 1 && bs[j] == k
    decreases |bs| - i
  {
    if i < |bs| - 1 {
      assert m[bs[i] + 1] == Ptr(bs[i + 1]);
      IsBlockIsTile(m, bs, i + 1, k);
    }
  }

  lemma {:induction false} SamePath(m: Memory, bs: seq<nat>, m': Memory, bs': seq<nat>, i: nat)
    requires Tiles(m, bs) && Tiles(m', bs') && |m'| == |m| && i < |bs|
    requires forall j :: 0 <= j < i ==> m'[bs[j] + 1] == m[bs[j] + 1]
    ensures i < |bs'| && bs'[i] == bs[i]
  {
    if i > 0 {
      SamePath(m, bs, m', bs', i - 1);
      assert m[bs[i - 1] + 1] == Ptr(bs[i]);
      assert i != |bs'|;
      assert m'[bs'[i - 1] + 1] == Ptr(bs'[i]);
    }
  }

  lemma NextIsFurther(m: Memory, bs: seq<nat>, i: nat)
    requires Tiles(m, bs) && i < |bs| - 1
    ensures m[bs[i] + 1] != Ptr(bs[i])
  {
    assert m[bs[i] + 1] == Ptr(bs[i + 1]);
  }

  // An interior block that fits exactly makes the header behind it its own
  // successor, so no walk along `next` reaches the end of the buffer any more.
  lemma ExactFitBreaks(m: Memory, bs: seq<nat>, i: nat, bs': seq<nat>)
    requires Tiles(m, bs) && i < |bs| - 2
    ensures !Tiles(Claim(m, bs[i], bs[i + 1] - bs[i] - HEADER), bs')
  {
    var c, n := bs[i], bs[i + 1];
    var m' := Claim(m, c, n - c - HEADER);
    ClaimStores(m, c, n - c - HEADER);
    assert m[c + 1] == Ptr(n);
    if Tiles(m', bs') {
      forall j | 0 <= j < i + 1 ensures m'[bs[j] + 1] == m[bs[j] + 1] {
        if j < i { assert bs[j] + HEADER <= c; }
      }
      SamePath(m, bs, m', bs', i + 1);
      NextIsFurther(m', bs', i + 1);
    }
  }

  //// VMHeapFree ////

  predicate JoinsPrev(m: Memory, c: nat)
    requires c + HEADER <= |m| && PrevInRange(m[c + 2], c)
  {
    m[c + 2] != 0 && !Occupied(m[Index(m[c + 2])])
  }

  // Headers c's stores go through are inside the buffer.
  predicate Releasable(m: Memory, c: nat) {
    && c + HEADER <= |m| && PrevInRange(m[c + 2], c)
    && m[c + 1] % 8 == 0 && c + HEADER <= Index(m[c + 1]) && Index(m[c + 1]) + HEADER <= |m|
  }

  // The stores of lines 209-220, in order.
  function Release(m: Memory, c: nat): (r: Memory)
    requires Releasable(m, c)
    ensures |r| == |m|
  {
    var m1 := if JoinsPrev(m, c) then m[Index(m[c + 2]) + 1 := m[c + 1]] else m;
    var m2 := if m1[c + 1] < Ptr(|m|) && !Occupied(m1[Index(m1[c + 1])])
              then m1[c + 1 := m1[Index(m1[c + 1]) + 1]] else m1;
    m2[c := WithOccupied(m2[c], false)]
  }

  // The free succeeds in leaving everyone else alone exactly when joining through
  // `prev` is harmless: there is nothing to join, or `prev` still heads a block
  // and no live block lies between it and this one, or `prev` heads no block any
  // more and the word its `next` used to be in is not part of a live block.
  predicate PrevJoinSafe(m: Memory, live: set<nat>, c: nat)
    requires Releasable(m, c)
  {
    JoinsPrev(m, c) ==>
      var k := Index(m[c + 2]);
      if IsBlock(m, 0, k) then
        forall q :: q in live ==> !(k < q < c)
      else
        m[k + 1] == m[c + 1] || forall q :: q in live ==> q + HEADER <= |m| && !(q < k < Index(m[q + 1]))
  }

  ghost predicate Released(m: Memory, m': Memory, c: nat) {
    && |m'| == |m|
    && Releasable(m, c)
    && !Occupied(m'[c]) && m'[c] % UINT32 == m[c] % UINT32
    && m'[c + 1] == (if Occupied(m[Index(m[c + 1])]) then m[c + 1] else m[Index(m[c + 1]) + 1])
    && (JoinsPrev(m, c) ==> m'[Index(m[c + 2]) + 1] == m[c + 1])
    && forall x :: 0 <= x < |m| && x != c && x != c + 1 && !(JoinsPrev(m, c) && x == Index(m[c + 2]) + 1)
         ==> m'[x] == m[x]
  }

  lemma ReleaseStores(m: Memory, c: nat)
    requires Releasable(m, c) && c % HEADER == 0
    ensures Released(m, Release(m, c), c)
  {
  }

  // Tiling after the blocks i..j-1 are swallowed by the block before them.
  lemma TilesRemoved(m: Memory, bs: seq<nat>, m': Memory, i: nat, j: nat)
    requires Tiles(m, bs) && |m'| == |m| && 0 < i <= j < |bs|
    requires m'[bs[i - 1] + 1] == Ptr(bs[j])
    requires forall a :: 0 <= a < |bs| - 1 && (a < i - 1 || a >= j) ==> m'[bs[a] + 1] == m[bs[a] + 1]
    ensures Tiles(m', Removed(bs, i, j))
  {
    var bs' := Removed(bs, i, j);
    forall a, b | 0 <= a < b < |bs'| ensures bs'[a] + HEADER <= bs'[b] {
      assert bs'[a] == bs[if a < i then a else a + j - i] && bs'[b] == bs[if b < i then b else b + j - i];
    }
    forall a, b | 0 <= a && b == a + 1 && b < |bs'| ensures m'[bs'[a] + 1] == Ptr(bs'[b]) {
      if a < i - 1 {
        assert bs'[a] == bs[a] && bs'[b] == bs[b];
      } else if a >= i {
        assert bs'[a] == bs[a + j - i] && bs'[b] == bs[b + j - i];
      } else {
        assert bs'[b] == bs[j];
      }
    }
  }

  lemma AlignedRemoved(m: Memory, bs: seq<nat>, m': Memory, i: nat, j: nat)
    requires Tiles(m, bs) && Aligned(m, bs) && 0 < i <= j < |bs|
    requires Tiles(m', Removed(bs, i, j))
    requires forall a :: 0 <= a < |bs| - 1 ==> m'[bs[a] + 2] == m[bs[a] + 2]
    ensures Aligned(m', Removed(bs, i, j))
  {
    var bs' := Removed(bs, i, j);
    forall a | 0 <= a < |bs'| - 1
      ensures bs'[a] % HEADER == 0 && PrevInRange(m'[bs'[a] + 2], bs'[a])
    {
      if a < i { assert bs'[a] == bs[a]; } else { assert bs'[a] == bs[a + j - i]; }
    }
  }

  lemma HeadsRemoved(bs: seq<nat>, i: nat, j: nat, q: nat, a: nat)
    requires 0 < i <= j < |bs| && a < |bs| - 2 && bs[a] == q
    requires a < i || a >= j
    requires j < |bs| - 1 || a < i - 1
    ensures Heads(Removed(bs, i, j), q)
  {
    var bs' := Removed(bs, i, j);
    if a < i { assert bs'[a] == q; } else { assert bs'[a + i - j] == q; }
  }

  lemma ReleasedFrame(m: Memory, bs: seq<nat>, m': Memory, i: nat, a: nat)
    requires Tiles(m, bs) && Aligned(m, bs) && i < |bs| - 2 && Released(m, m', bs[i]) && a < |bs| - 1
    ensures m'[bs[a] + 2] == m[bs[a] + 2]
    ensures a != i && !(JoinsPrev(m, bs[i]) && bs[a] == Index(m[bs[i] + 2])) ==> m'[bs[a] + 1] == m[bs[a] + 1]
    ensures m[bs[i] + 1] == Ptr(bs[i + 1]) && m[bs[i + 1] + 1] == Ptr(bs[i + 2])
  {
    if a < i { assert bs[a] + HEADER <= bs[i]; }
    if a > i { assert bs[i] + HEADER <= bs[a]; }
  }

  // Freeing block i while `prev` is the free block j: blocks j+1..i become part of
  // block j. The free block after i is not joined as well.
  lemma ReleasedIntoPrev(m: Memory, bs: seq<nat>, m': Memory, i: nat, j: nat)
    requires Tiles(m, bs) && Aligned(m, bs) && j < i < |bs| - 2 && Released(m, m', bs[i])
    requires JoinsPrev(m, bs[i]) && Index(m[bs[i] + 2]) == bs[j]
    ensures Tiles(m', Removed(bs, j + 1, i + 1)) && Aligned(m', Removed(bs, j + 1, i + 1))
  {
    forall a | 0 <= a < |bs| - 1
      ensures m'[bs[a] + 2] == m[bs[a] + 2]
      ensures a < j || a > i ==> m'[bs[a] + 1] == m[bs[a] + 1]
    {
      ReleasedFrame(m, bs, m', i, a);
      if a < j { assert bs[a] < bs[j]; }
      if a > i { assert bs[j] < bs[a]; }
    }
    ReleasedFrame(m, bs, m', i, i);
    TilesRemoved(m, bs, m', j + 1, i + 1);
    AlignedRemoved(m, bs, m', j + 1, i + 1);
  }

  lemma TilesSame(m: Memory, bs: seq<nat>, m': Memory)
    requires Tiles(m, bs) && Aligned(m, bs) && |m'| == |m|
    requires forall a :: 0 <= a < |bs| - 1 ==> m'[bs[a] + 1] == m[bs[a] + 1] && m'[bs[a] + 2] == m[bs[a] + 2]
    ensures Tiles(m', bs) && Aligned(m', bs)
  {
  }

  ghost function AfterNextJoin(m: Memory, bs: seq<nat>, i: nat): seq<nat>
    requires Tiles(m, bs) && i < |bs| - 2
  {
    if Occupied(m[bs[i + 1]]) then bs else Removed(bs, i + 1, i + 2)
  }

  // Freeing block i while `prev` heads no block: only the next block is joined.
  lemma ReleasedIntoNext(m: Memory, bs: seq<nat>, m': Memory, i: nat)
    requires Tiles(m, bs) && Aligned(m, bs) && i < |bs| - 2 && Released(m, m', bs[i])
    requires JoinsPrev(m, bs[i]) ==> forall j :: 0 <= j < |bs| - 1 ==> bs[j] != Index(m[bs[i] + 2])
    ensures Tiles(m', AfterNextJoin(m, bs, i)) && Aligned(m', AfterNextJoin(m, bs, i))
  {
    ReleasedFrame(m, bs, m', i, i);
    var bs' := AfterNextJoin(m, bs, i);
    var joined := !Occupied(m[bs[i + 1]]);
    assert m'[bs[i] + 1] == if joined then Ptr(bs[i + 2]) else Ptr(bs[i + 1]);
    forall a | 0 <= a < |bs| - 1
      ensures m'[bs[a] + 2] == m[bs[a] + 2]
      ensures a != i ==> m'[bs[a] + 1] == m[bs[a] + 1]
    {
      ReleasedFrame(m, bs, m', i, a);
    }
    if joined {
      TilesRemoved(m, bs, m', i + 1, i + 2);
      AlignedRemoved(m, bs, m', i + 1, i + 2);
    } else {
      TilesSame(m, bs, m');
    }
  }
}
