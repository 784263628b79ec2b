// Moving the end of a block: the in-place paths of VMHeapRealloc.

module HeapRealloc {
  import opened HeapMemory
  import opened HeapBlocks
  import opened HeapUpdates

  // The stores of lines 149-154 and of 167-172: they are the same.
  function Resize(m: Memory, c: nat, n: nat): (r: Memory)
    requires Releasable(m, c) && c + HEADER <= n && n + HEADER <= |m|
    ensures |r| == |m|
  {
    var m1 := m[n + 2 := Ptr(c)];
    var m2 := m1[n := WithSafeBytes(m1[n])];
    var m3 := m2[n + 1 := m2[Index(m2[c + 1]) + 1]];
    m3[c + 1 := Ptr(n)]
  }

  ghost predicate Resized(m: Memory, m': Memory, c: nat, n: nat) {
    && Releasable(m, c) && c + HEADER <= n && n + HEADER <= |m| == |m'|
    && m'[c + 1] == Ptr(n) && m'[n + 1] == m[Index(m[c + 1]) + 1] && m'[n + 2] == Ptr(c)
    && m'[n] % UINT32 == SAFE_BYTES && Occupied(m'[n]) == Occupied(m[n])
    && forall x :: 0 <= x < |m| && x != c + 1 && x != n && x != n + 1 && x != n + 2 ==> m'[x] == m[x]
  }

  // The new header is never written over the successor's header while that is
  // still to be read: their distance is a multiple of 24 bytes, and not zero.
  lemma ResizeStores(m: Memory, c: nat, n: nat)
    requires Releasable(m, c) && c + HEADER <= n && n + HEADER <= |m|
    requires n % HEADER == 0 && Index(m[c + 1]) % HEADER == 0 && Index(m[c + 1]) != n
    ensures Resized(m, Resize(m, c, n), c, n)
  {
  }

  lemma TilesReplaced(m: Memory, bs: seq<nat>, m': Memory, i: nat, n: nat)
    requires Tiles(m, bs) && |m'| == |m| && i < |bs| - 2
    requires bs[i] + HEADER <= n && n + HEADER <= bs[i + 2]
    requires m'[bs[i] + 1] == Ptr(n) && m'[n + 1] == Ptr(bs[i + 2])
    requires forall j :: 0 <= j < |bs| - 1 && j != i && j != i + 1 ==> m'[bs[j] + 1] == m[bs[j] + 1]
    ensures Tiles(m', bs[i + 1 := n])
  {
    SpacedReplaced(bs, i, n);
    var bs' := bs[i + 1 := n];
    forall a, b | 0 <= a && b == a + 1 && b < |bs'|
      ensures m'[bs'[a] + 1] == Ptr(bs'[b])
    {
      assert m[bs[a] + 1] == Ptr(bs[b]);
    }
  }

  lemma SpacedReplaced(bs: seq<nat>, i: nat, n: nat)
    requires forall a, b :: 0 <= a < b < |bs| ==> bs[a] + HEADER <= bs[b]
    requires i < |bs| - 2 && bs[i] + HEADER <= n && n + HEADER <= bs[i + 2]
    ensures var bs' := bs[i + 1 := n]; forall a, b :: 0 <= a < b < |bs'| ==> bs'[a] + HEADER <= bs'[b]
  {
    var bs' := bs[i + 1 := n];
    forall a, b | 0 <= a < b < |bs'|
      ensures bs'[a] + HEADER <= bs'[b]
    {
      if a == i + 1 { assert bs[i + 2] <= bs[b]; }
      if b == i + 1 { assert bs[a] <= bs[i]; }
    }
  }

  lemma AlignedReplaced(m: Memory, bs: seq<nat>, m': Memory, i: nat, n: nat)
    requires Tiles(m, bs) && Aligned(m, bs) && i < |bs| - 2
    requires bs[i] < n && n % HEADER == 0
    requires Tiles(m', bs[i + 1 := n]) && n + 2 < |m'| && m'[n + 2] == Ptr(bs[i])
    requires forall j :: 0 <= j < |bs| - 1 && j != i + 1 ==> m'[bs[j] + 2] == m[bs[j] + 2]
    ensures Aligned(m', bs[i + 1 := n])
  {
    assert PrevInRange(Ptr(bs[i]), n);
  }

  lemma ResizedTiles(m: Memory, bs: seq<nat>, m': Memory, i: nat, n: nat)
    requires Tiles(m, bs) && Aligned(m, bs) && i < |bs| - 2
    requires n % HEADER == 0 && n + HEADER <= bs[i + 2] && Resized(m, m', bs[i], n)
    ensures Tiles(m', bs[i + 1 := n]) && Aligned(m', bs[i + 1 := n])
  {
    assert m[bs[i] + 1] == Ptr(bs[i + 1]) && m[bs[i + 1] + 1] == Ptr(bs[i + 2]);
    forall j | 0 <= j < |bs| - 1 && j != i + 1
      ensures m'[bs[j] + 2] == m[bs[j] + 2] && (j != i ==> m'[bs[j] + 1] == m[bs[j] + 1])
    {
      if j < i { assert bs[j] + HEADER <= bs[i]; }
      if j > i { assert bs[i + 2] <= bs[j]; }
    }
    TilesReplaced(m, bs, m', i, n);
    AlignedReplaced(m, bs, m', i, n);
  }

  lemma ResizedKeeps(m: Memory, bs: seq<nat>, live: set<nat>, m': Memory, i: nat, n: nat, q: nat)
    requires Inv(m, bs, live) && q in live && i < |bs| - 2 && q != bs[i] && q != bs[i + 1]
    requires n + HEADER <= bs[i + 2] && Resized(m, m', bs[i], n)
    ensures Heads(bs[i + 1 := n], q) && Occupied(m'[q]) && Payload(m', q) == Payload(m, q)
  {
    var a := LiveBlock(m, bs, live, q);
    Apart(m, bs, i, a);
    Apart(m, bs, i + 1, a);
    Untouched(m, bs, live, m', q);
    assert bs[i + 1 := n][a] == q;
  }

  lemma ResizedOwn(m: Memory, bs: seq<nat>, m': Memory, i: nat, n: nat)
    requires Tiles(m, bs) && i < |bs| - 2 && Resized(m, m', bs[i], n)
    ensures m'[bs[i]] == m[bs[i]] && |Payload(m', bs[i])| == n - bs[i] - HEADER
    ensures var k := if n < bs[i + 1] then n - bs[i] - HEADER else bs[i + 1] - bs[i] - HEADER;
            k <= |Payload(m, bs[i])| && Payload(m', bs[i])[..k] == Payload(m, bs[i])[..k]
  {
    var c, e := bs[i], bs[i + 1];
    assert m[c + 1] == Ptr(e) && c + HEADER <= e && e + HEADER <= |m|;
    PtrIndex(e);
    hide Tiles, Index, Ptr;
    PayloadIs(m, c, e);
    PayloadIs(m', c, n);
    var end := if n < e then n else e;
    ResizedPrefix(m, m', c, n, end);
    hide Payload, Resized;
    assert m'[c + HEADER..n][..end - c - HEADER] == m'[c + HEADER..end];
    assert m[c + HEADER..e][..end - c - HEADER] == m[c + HEADER..end];
  }

  lemma ResizedPrefix(m: Memory, m': Memory, c: nat, n: nat, end: nat)
    requires Resized(m, m', c, n) && c + HEADER <= end <= n && end <= |m|
    ensures m'[c + HEADER..end] == m[c + HEADER..end]
  {
    assert |m'| == |m| && forall x :: c + HEADER <= x < end ==> m'[x] == m[x];
    hide Resized;
  }

  // Moving block i's end is safe for everyone when the block behind it is not live.
  lemma ResizedSafe(m: Memory, bs: seq<nat>, live: set<nat>, m': Memory, i: nat, n: nat)
    requires Inv(m, bs, live) && i < |bs| - 2 && bs[i] in live && bs[i + 1] !in live
    requires n % HEADER == 0 && n + HEADER <= bs[i + 2] && Resized(m, m', bs[i], n)
    ensures WellFormed(m', live)
    ensures forall q :: q in live && q != bs[i] ==> Payload(m', q) == Payload(m, q)
  {
    ResizedTiles(m, bs, m', i, n);
    ResizedOwn(m, bs, m', i, n);
    forall q | q in live
      ensures Heads(bs[i + 1 := n], q) && Occupied(m'[q])
      ensures q != bs[i] ==> Payload(m', q) == Payload(m, q)
    {
      if q != bs[i] {
        ResizedKeeps(m, bs, live, m', i, n, q);
      } else {
        assert bs[i + 1 := n][i] == q;
        var a := LiveBlock(m, bs, live, q);
      }
    }
    assert Inv(m', bs[i + 1 := n], live);
  }

  // Otherwise the block behind it is no block any more.
  lemma ResizedUnsafe(m: Memory, bs: seq<nat>, live: set<nat>, m': Memory, i: nat, n: nat)
    requires Inv(m, bs, live) && i < |bs| - 2 && bs[i + 1] in live && n != bs[i + 1]
    requires n % HEADER == 0 && n + HEADER <= bs[i + 2] && Resized(m, m', bs[i], n)
    ensures !WellFormed(m', live)
  {
    ResizedTiles(m, bs, m', i, n);
    if WellFormed(m', live) {
      var bs' :| Inv(m', bs', live);
      var x :| 0 <= x < |bs'| - 2 && bs'[x] == bs[i + 1];
      TilesUnique(m', bs', bs[i + 1 := n], x);
    }
  }
}
