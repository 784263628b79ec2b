// Whole runs of the allocator: it refines a map from blocks to their contents
// for as long as every call meets the exact condition of that call.

module HeapRuns {
  import opened Options
  import opened HeapMemory
  import opened HeapBlocks
  import opened HeapUpdates
  import opened HeapCalls
  import opened HeapMoves
  import opened HeapReallocs

  datatype Request =
    | Alloc(size: nat)
    | Free(address: nat)
    | Realloc(address: nat, size: nat)
    | Store(address: nat, offset: nat, value: nat)   // a program writes a word of its block

  // What a program can see of the heap: its blocks and what they hold.
  ghost function View(m: Memory, live: set<nat>): map<nat, Memory> {
    map c | c in live :: Payload(m, c)
  }

  function Stored(p: Memory, offset: nat, value: nat): Memory
    requires offset < |p|
  {
    p[offset := value]
  }

  // What each call promises, without mentioning headers.
  ghost predicate Promise(v: map<nat, Memory>, q: Request, address: nat, v': map<nat, Memory>) {
    match q
    case Alloc(size) =>
      if size == 0 then address == 0 && v' == v else
      exists c :: address == Address(c) && c !in v && c in v' && v' == v[c := v'[c]] && 8 * |v'[c]| >= size
    case Free(a) => v' == v - {BlockOf(a)}
    case Realloc(a, size) =>
      if size == 0 then address == 0 && v' == v else
      exists c, c2 :: a == Address(c) && address == Address(c2) && c in v && c2 in v' && c2 !in v - {c}
        && v' == (v - {c})[c2 := v'[c2]] && 8 * |v'[c2]| >= size
        && (|v[c]| <= |v'[c2]| ==> v[c] <= v'[c2]) && (|v'[c2]| <= |v[c]| ==> v'[c2] <= v[c])
    case Store(a, offset, value) =>
      exists c :: a == Address(c) && c in v && offset < |v[c]| && v' == v[c := Stored(v[c], offset, value)]
  }

  // Callers pass addresses of live blocks; the rest is each call's exact condition.
  ghost predicate Allowed(m: Memory, live: set<nat>, q: Request) {
    match q
    case Alloc(size) => size == 0 || (size < UINT32 && AllocRoom(m, size))
    case Free(a) =>
      a >= 24 && a % 8 == 0 && BlockOf(a) in live && Releasable(m, BlockOf(a))
      && PrevJoinSafe(m, live, BlockOf(a))
    case Realloc(a, size) =>
      a >= 24 && a % 8 == 0 && BlockOf(a) in live && Releasable(m, BlockOf(a))
      && (size == 0 || (size < UINT32 && ReallocSafe(m, live, BlockOf(a), size)))
    case Store(a, offset, _) =>
      a >= 24 && a % 8 == 0 && BlockOf(a) in live && offset < |Payload(m, BlockOf(a))|
  }

  function Serve(m: Memory, q: Request): Outcome {
    match q
    case Alloc(size) => if size < UINT32 then VMHeapAlloc(m, size) else Undefined
    case Free(a) => VMHeapFree(m, a)
    case Realloc(a, size) => if size < UINT32 then VMHeapRealloc(m, a, size) else Undefined
    case Store(a, offset, value) =>
      if a / 8 + offset < |m| then Done(m[a / 8 + offset := value], a) else Undefined
  }

  function LiveAfter(live: set<nat>, q: Request, address: nat): set<nat> {
    match q
    case Alloc(size) => if size == 0 then live else live + NatBlock(address)
    case Free(a) => live - NatBlock(a)
    case Realloc(a, size) => if size == 0 then live else live - NatBlock(a) + NatBlock(address)
    case Store(_, _, _) => live
  }

  function NatBlock(address: nat): set<nat> {
    if BlockOf(address) >= 0 then {BlockOf(address)} else {}
  }

  // Well formed, inside 4 GiB, and no live block is empty.
  ghost predicate Good(m: Memory, live: set<nat>) {
    WellFormed(m, live) && |m| <= MAX_WORDS && forall c :: c in live ==> |Payload(m, c)| > 0
  }

  lemma ServeAlloc(m: Memory, live: set<nat>, size: nat)
    requires Good(m, live) && Allowed(m, live, Alloc(size)) && size > 0
    ensures var r := Serve(m, Alloc(size));
            r.Done? && |r.m| == |m|
            && Good(r.m, LiveAfter(live, Alloc(size), r.address))
            && Promise(View(m, live), Alloc(size), r.address, View(r.m, LiveAfter(live, Alloc(size), r.address)))
  {
    hide Inv, RoundUp, FirstFit, Payload, ClaimFirstFit;
    var bs :| Inv(m, bs, live);
    var c := AllocSucceeds(m, bs, live, size);
    var r := VMHeapAlloc(m, size);
    var live' := LiveAfter(live, Alloc(size), r.address);
    assert live' == live + {c};
    var v, v' := View(m, live), View(r.m, live');
    assert v' == v[c := v'[c]];
  }

  lemma ServeFree(m: Memory, live: set<nat>, a: nat)
    requires Good(m, live) && Allowed(m, live, Free(a))
    ensures var r := Serve(m, Free(a));
            r.Done? && |r.m| == |m|
            && Good(r.m, LiveAfter(live, Free(a), r.address))
            && Promise(View(m, live), Free(a), r.address, View(r.m, LiveAfter(live, Free(a), r.address)))
  {
    hide Inv, Payload, Releasable, PrevJoinSafe, Release, WellFormed;
    var c: nat := BlockOf(a);
    assert a == Address(c);
    FreeExact(m, live, c);
    assert VMHeapFree(m, a) == Done(Release(m, c), a);
    var live' := live - {c};
    var v, v' := View(m, live), View(Release(m, c), live');
    assert v' == v - {c};
  }

  lemma ServeRealloc(m: Memory, live: set<nat>, a: nat, size: nat)
    requires Good(m, live) && Allowed(m, live, Realloc(a, size)) && size > 0
    ensures var r := Serve(m, Realloc(a, size));
            r.Done? && |r.m| == |m|
            && Good(r.m, LiveAfter(live, Realloc(a, size), r.address))
            && Promise(View(m, live), Realloc(a, size), r.address,
                       View(r.m, LiveAfter(live, Realloc(a, size), r.address)))
  {
    hide Inv, Payload, Releasable, ReallocSafe, VMHeapRealloc, WellFormed, RoundUp;
    var c: nat := BlockOf(a);
    assert a == Address(c);
    ReallocExact(m, live, c, size);
    var r := VMHeapRealloc(m, a, size);
    var c2 :| Reallocated(m, live, r, c, c2, size);
    var live' := live - {c} + {c2};
    assert LiveAfter(live, Realloc(a, size), r.address) == live';
    var v, v' := View(m, live), View(r.m, live');
    assert v' == (v - {c})[c2 := v'[c2]];
  }

  lemma StoreIsSafe(m: Memory, live: set<nat>, c: nat, offset: nat, value: nat)
    requires WellFormed(m, live) && c in live && offset < |Payload(m, c)|
    ensures c + HEADER + offset < |m|
    ensures var m' := m[c + HEADER + offset := value];
            && WellFormed(m', live) && Payload(m', c) == Stored(Payload(m, c), offset, value)
            && forall q :: q in live && q != c ==> Payload(m', q) == Payload(m, q)
  {
    var bs :| Inv(m, bs, live);
    PayloadStored(m, c, offset, value);
    StoreKeeps(m, bs, live, m[c + HEADER + offset := value], c);
  }

  lemma ServeStore(m: Memory, live: set<nat>, a: nat, offset: nat, value: nat)
    requires Good(m, live) && Allowed(m, live, Store(a, offset, value))
    ensures var r := Serve(m, Store(a, offset, value));
            r.Done? && |r.m| == |m|
            && Good(r.m, live)
            && Promise(View(m, live), Store(a, offset, value), r.address, View(r.m, live))
  {
    hide WellFormed, Payload;
    var c: nat := BlockOf(a);
    assert a == Address(c);
    StoreIsSafe(m, live, c, offset, value);
    var v, v' := View(m, live), View(m[a / 8 + offset := value], live);
    assert v' == v[c := Stored(v[c], offset, value)];
  }

  lemma PayloadStored(m: Memory, c: nat, offset: nat, value: nat)
    requires offset < |Payload(m, c)|
    ensures c + HEADER + offset < |m|
    ensures Payload(m[c + HEADER + offset := value], c) == Stored(Payload(m, c), offset, value)
  {
  }

  lemma ServeKeepsPromise(m: Memory, live: set<nat>, q: Request)
    requires Good(m, live) && Allowed(m, live, q)
    ensures var r := Serve(m, q);
            r.Done? && |r.m| == |m|
            && Good(r.m, LiveAfter(live, q, r.address))
            && Promise(View(m, live), q, r.address, View(r.m, LiveAfter(live, q, r.address)))
  {
    hide Good, Promise;
    match q
    case Alloc(size) => if size > 0 { ServeAlloc(m, live, size); } else { NothingAsked(m, live, q); }
    case Free(a) => ServeFree(m, live, a);
    case Realloc(a, size) => if size > 0 { ServeRealloc(m, live, a, size); } else { NothingAsked(m, live, q); }
    case Store(a, offset, value) => ServeStore(m, live, a, offset, value);
  }

  // The caller names a live block.
  ghost predicate NamesBlock(live: set<nat>, a: nat, c: nat) { a == Address(c) && c in live }

  // The call does what it promises, and harms no one else.
  ghost predicate Succeeds(m: Memory, live: set<nat>, q: Request) {
    match q
    case Alloc(size) => size == 0 || (size < UINT32 && exists c :: Allocated(m, live, VMHeapAlloc(m, size), c, size))
    case Free(a) => exists c :: NamesBlock(live, a, c) && Freed(m, live, VMHeapFree(m, a), c)
    case Realloc(a, size) =>
      exists c :: NamesBlock(live, a, c)
                  && (size == 0
                      || (size < UINT32 && exists c2 :: Reallocated(m, live, VMHeapRealloc(m, a, size), c, c2, size)))
    case Store(a, offset, _) => exists c :: NamesBlock(live, a, c) && offset < |Payload(m, c)|
  }

  // A request is allowed exactly when it would succeed.
  lemma AllowedExact(m: Memory, live: set<nat>, q: Request)
    requires Good(m, live)
    ensures Allowed(m, live, q) <==> Succeeds(m, live, q)
  {
    match q
    case Alloc(size) => if 0 < size < UINT32 { AllocExact(m, live, size); }
    case Free(a) => FreeAllowed(m, live, a);
    case Realloc(a, size) => ReallocAllowed(m, live, a, size);
    case Store(a, offset, value) => StoreAllowed(m, live, a, offset, value);
  }

  lemma NamesOne(live: set<nat>, a: nat)
    ensures (exists c :: NamesBlock(live, a, c)) <==> a >= 24 && a % 8 == 0 && BlockOf(a) in live
    ensures forall c :: NamesBlock(live, a, c) ==> c == BlockOf(a)
  {
    if a >= 24 && a % 8 == 0 && BlockOf(a) in live { assert NamesBlock(live, a, BlockOf(a)); }
  }

  lemma FreeAllowed(m: Memory, live: set<nat>, a: nat)
    requires Good(m, live)
    ensures Allowed(m, live, Free(a)) <==> Succeeds(m, live, Free(a))
  {
    NamesOne(live, a);
    hide NamesBlock, Freed, PrevJoinSafe, Releasable, Payload;
    if c :| NamesBlock(live, a, c) {
      assert a == Address(c) && c in live by { BlockNamed(live, a, c); }
      FreeExact(m, live, c);
    }
  }

  lemma BlockNamed(live: set<nat>, a: nat, c: nat)
    requires NamesBlock(live, a, c)
    ensures a == Address(c) && c in live && BlockOf(a) == c
  {
  }

  lemma ReallocAllowed(m: Memory, live: set<nat>, a: nat, size: nat)
    requires Good(m, live)
    ensures Allowed(m, live, Realloc(a, size)) <==> Succeeds(m, live, Realloc(a, size))
  {
    NamesOne(live, a);
    hide NamesBlock, ReallocSafe, Releasable, VMHeapRealloc, Reallocated, Payload, WellFormed;
    if c :| NamesBlock(live, a, c) {
      BlockNamed(live, a, c);
      FreeExact(m, live, c);
      if 0 < size < UINT32 { ReallocExact(m, live, c, size); }
    }
  }

  lemma StoreAllowed(m: Memory, live: set<nat>, a: nat, offset: nat, value: nat)
    requires Good(m, live)
    ensures Allowed(m, live, Store(a, offset, value)) <==> Succeeds(m, live, Store(a, offset, value))
  {
    NamesOne(live, a);
    hide NamesBlock, Payload;
  }

  lemma NothingAsked(m: Memory, live: set<nat>, q: Request)
    requires q == Alloc(0) || (q.Realloc? && q.size == 0)
    ensures Serve(m, q) == Done(m, 0) && LiveAfter(live, q, 0) == live
    ensures Promise(View(m, live), q, 0, View(m, live))
  {
  }

  //// Runs ////

  // The heap after a run in which every request was allowed, if there is one.
  ghost function Run(m: Memory, live: set<nat>, qs: seq<Request>): Option<(Memory, set<nat>)>
    decreases |qs|
  {
    if qs == [] then Some((m, live))
    else if !Allowed(m, live, qs[0]) || !Serve(m, qs[0]).Done? then None
    else Run(Serve(m, qs[0]).m, LiveAfter(live, qs[0], Serve(m, qs[0]).address), qs[1..])
  }

  // The same run seen as one on a map from blocks to contents.
  ghost predicate Refines(v: map<nat, Memory>, qs: seq<Request>, v': map<nat, Memory>)
    decreases |qs|
  {
    if qs == [] then v == v'
    else exists a, v1 :: Promise(v, qs[0], a, v1) && Refines(v1, qs[1..], v')
  }

  lemma {:induction false} RunRefines(m: Memory, live: set<nat>, qs: seq<Request>)
    requires Good(m, live) && Run(m, live, qs).Some?
    ensures var (m', live') := Run(m, live, qs).value;
            |m'| == |m| && Good(m', live') && Refines(View(m, live), qs, View(m', live'))
    decreases |qs|
  {
    hide Good, Allowed, Promise, Serve, LiveAfter, View;
    if qs != [] {
      ServeKeepsPromise(m, live, qs[0]);
      var r := Serve(m, qs[0]);
      RunRefines(r.m, LiveAfter(live, qs[0], r.address), qs[1..]);
    }
  }

  // Live payloads overlap neither each other nor the header of any block.
  ghost predicate Separate(m: Memory, bs: seq<nat>, live: set<nat>) {
    && (forall c, d :: c in live && d in live && c != d ==> PayloadEnd(m, c) <= d || PayloadEnd(m, d) <= c)
    && (forall c, i :: c in live && 0 <= i < |bs| - 1 ==> bs[i] <= c || PayloadEnd(m, c) <= bs[i])
  }

  // Starting from AllocateHeap: after any such run the blocks tile the buffer,
  // and live payloads overlap neither each other nor any header.
  lemma RunIsSafe(n: nat, qs: seq<Request>)
    requires HEADER <= n <= MAX_WORDS && Run(FreshMemory(n), {}, qs).Some?
    ensures var (m, live) := Run(FreshMemory(n), {}, qs).value;
            && Refines(map[], qs, View(m, live))
            && |m| == n && exists bs :: Tiles(m, bs) && Separate(m, bs, live)
  {
    FreshIsWellFormed(n);
    assert View(FreshMemory(n), {}) == map[];
    RunRefines(FreshMemory(n), {}, qs);
    var (m, live) := Run(FreshMemory(n), {}, qs).value;
    var bs :| Inv(m, bs, live);
    LiveIsSeparate(m, bs, live);
  }

  lemma LiveIsSeparate(m: Memory, bs: seq<nat>, live: set<nat>)
    requires Inv(m, bs, live)
    ensures Separate(m, bs, live)
  {
    forall c, i | c in live && 0 <= i < |bs| - 1
      ensures bs[i] <= c || PayloadEnd(m, c) <= bs[i]
    {
      var a := LiveBlock(m, bs, live, c);
      if a != i { Apart(m, bs, a, i); }
    }
    forall c, d | c in live && d in live && c != d
      ensures PayloadEnd(m, c) <= d || PayloadEnd(m, d) <= c
    {
      var a := LiveBlock(m, bs, live, c);
      var b := LiveBlock(m, bs, live, d);
      Apart(m, bs, a, b);
    }
  }

  // The word behind the payload of the block at c.
  ghost function PayloadEnd(m: Memory, c: nat): nat { c + HEADER + |Payload(m, c)| }
}
