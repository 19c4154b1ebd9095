/** Whole runs of the allocator: what holds after any sequence of calls and of writes by
    clients that stay inside their own blocks. */
module AllocRuns {
  import opened Wrappers
  import opened AllocModel
  import opened AllocInvariant
  import opened AllocSteps
  import opened AllocArena

  lemma StartOk(ps: nat)
    requires ps > 0 && ps % 8 == 0
    ensures Inv(Start(), ps)
  {
    assert forall i :: 0 <= i < N_SEGMENTS ==> Start().segs[i] == EMPTY;
    assert !EMPTY.Has(LIFO);
  }

  // ----- grn_ctx_realloc -----

  lemma CopyKeeps(w: World, ps: nat, src: Block, dst: Block, n: nat, past: int)
    requires Inv(w, ps) && src in w.live && dst in w.live && n + 8 <= dst.size
    ensures src.seg < |w.segs| && dst.seg < |w.segs|
    ensures Inv(Copy(w, src, dst, n, past), ps)
  {
    assert BlockOk(w, ps, src) && BlockOk(w, ps, dst);
    CopyStaysInside(w.segs[dst.seg].mem, dst, n, Payload(w, src, (n + 3) / 4, past));
    WriteKeeps(w, ps, dst, Copy(w, src, dst, n, past).segs[dst.seg].mem);
  }

  lemma CopyStaysInside(mem: seq<int>, b: Block, n: nat, source: seq<int>)
    requires b.off % 8 == 0 && b.size % 8 == 0 && n + 8 <= b.size && n <= 4 * |source|
    ensures forall k :: 0 <= k < |mem| && !InPayload(b, b.seg, k) ==>
              CopyMem(mem, b.off / 4 + 2, n, source)[k] == mem[k]
  {
    var off, size := b.off / 8, b.size / 8;
    assert b.off / 4 == 2 * off && (b.off + b.size) / 4 == 2 * off + 2 * size;
    forall k | 0 <= k < |mem| && !InPayload(b, b.seg, k)
      ensures k < b.off / 4 + 2 || 4 * (k - (b.off / 4 + 2)) >= n
    {
    }
  }

  /** Bytes copied by grn_ctx_realloc: the header's size, capped by the request. */
  function CopyLength(w: World, b: Block, request: nat): nat requires HeaderIntact(w, b) {
    if HeaderSize(w, b) > request then request else HeaderSize(w, b)
  }

  /** Copies block b to block c and frees b. */
  function Move(w: World, ps: nat, b: Block, c: Block, request: nat, past: int): World
    requires Inv(w, ps) && b in w.live && c in w.live && b != c && request + 8 <= c.size
  {
    SharedHasCount(w, ps, b);
    CopyKeeps(w, ps, b, c, CopyLength(w, b, request), past);
    var w2 := Copy(w, b, c, CopyLength(w, b, request), past);
    FreeKeeps(w2, ps, b);
    Free(w2, ps, b).0
  }

  /** grn_ctx_realloc; a null pointer is None. */
  function Realloc(w: World, ps: nat, p: Option<Block>, request: nat, mapOk: bool, past: int): (World, Option<Block>)
    requires Inv(w, ps) && request <= MAX_REQUEST && (p.Some? ==> p.value in w.live)
  {
    if request == 0 then
      if p.None? then (w, None) else FreeKeeps(w, ps, p.value); (Free(w, ps, p.value).0, None)
    else
      AllocKeeps(w, ps, request, false, mapOk);
      Refill(Alloc(w, ps, request, false, mapOk), ps, p, request, past)
  }

  /** The rest of grn_ctx_realloc, after the new block was asked for. */
  function Refill(a: (World, Option<Block>), ps: nat, p: Option<Block>, request: nat, past: int): (World, Option<Block>)
    requires Inv(a.0, ps) && (p.Some? ==> p.value in a.0.live)
    requires a.1.Some? ==> a.1.value in a.0.live && request + 8 <= a.1.value.size && p != a.1
  {
    if a.1.None? || p.None? then a else (Move(a.0, ps, p.value, a.1.value, request, past), a.1)
  }

  lemma MoveKeeps(w: World, ps: nat, b: Block, c: Block, request: nat, past: int)
    requires Inv(w, ps) && b in w.live && c in w.live && b != c && request + 8 <= c.size
    ensures var w' := Move(w, ps, b, c, request, past);
      && Inv(w', ps) && w'.live == w.live - {b} && w'.lifo == w.lifo
      && HeaderIntact(w, b) && c.seg < |w.segs| == |w'.segs|
      && w'.segs[c.seg].mem == Copy(w, b, c, CopyLength(w, b, request), past).segs[c.seg].mem
  {
    SharedHasCount(w, ps, b);
    var n := CopyLength(w, b, request);
    CopyKeeps(w, ps, b, c, n, past);
    var w2 := Copy(w, b, c, n, past);
    FreeKeeps(w2, ps, b);
    FreeLeaves(w2, ps, b, c);
  }

  lemma InsideMem(w: World, ps: nat, b: Block, j: nat)
    requires Sane(w, ps) && BlockOk(w, ps, b) && 4 * j + 12 <= b.size
    ensures b.off / 4 + 2 + j < |w.segs[b.seg].mem|
  {
    assert Shape(w.segs[b.seg], ps);
  }

  /** grn_ctx_realloc trades the old block for a new one that holds the request; when no
      block can be allocated nothing changes. */
  lemma ReallocKeeps(w: World, ps: nat, p: Option<Block>, request: nat, mapOk: bool, past: int)
    requires Inv(w, ps) && request <= MAX_REQUEST && (p.Some? ==> p.value in w.live)
    ensures var (w', r) := Realloc(w, ps, p, request, mapOk, past);
      && Inv(w', ps) && w'.lifo == w.lifo
      && (r.None? && request > 0 ==> w' == w)
      && (r.Some? ==> r.value !in w.live && r.value.size >= request + 8)
      && w'.live == (if r.None? && request > 0 then w.live
                     else w.live + (if r.Some? then {r.value} else {}) - (if p.Some? then {p.value} else {}))
  {
    if request == 0 {
      if p.Some? { FreeKeeps(w, ps, p.value); }
    } else {
      AllocKeeps(w, ps, request, false, mapOk);
      RefillKeeps(Alloc(w, ps, request, false, mapOk), ps, p, request, past);
    }
  }

  lemma RefillKeeps(a: (World, Option<Block>), ps: nat, p: Option<Block>, request: nat, past: int)
    requires Inv(a.0, ps) && (p.Some? ==> p.value in a.0.live)
    requires a.1.Some? ==> a.1.value in a.0.live && request + 8 <= a.1.value.size && p != a.1
    ensures var (w', r) := Refill(a, ps, p, request, past);
      && Inv(w', ps) && w'.lifo == a.0.lifo && r == a.1 && (r.None? ==> w' == a.0)
      && (r.Some? ==> w'.live == a.0.live - (if p.Some? then {p.value} else {}))
  {
    if a.1.Some? && p.Some? { MoveKeeps(a.0, ps, p.value, a.1.value, request, past); }
  }

  /** Freeing a block leaves the memory of another live block alone. */
  lemma FreeLeaves(w: World, ps: nat, b: Block, c: Block)
    requires Inv(w, ps) && b in w.live && c in w.live && b != c
    ensures HeaderIntact(w, b) && !w.segs[b.seg].Has(LIFO)
    ensures !w.segs[b.seg].Has(VLEN) ==> w.segs[b.seg].count > 0
    ensures c.seg < |w.segs| && Free(w, ps, b).0.segs[c.seg].mem == w.segs[c.seg].mem
  {
    FreeKeeps(w, ps, b);
    assert BlockOk(w, ps, c) && BlockOk(Free(w, ps, b).0, ps, c);
  }

  // ----- runs -----

  datatype Op =
    | Malloc(request: nat, clear: bool, mapOk: bool)
    | Resize(p: Option<Block>, request: nat, mapOk: bool, past: int)
    | Release(b: Block)
    | PushLifo(request: nat, mapOk: bool)
    | PopLifo(k: nat, seg: nat, off: nat)
    | Store(b: Block, word: nat, value: int)

  /** Word k of its segment belongs to the client of b, a live block of either kind. */
  predicate Owns(w: World, b: Block, k: nat) {
    (b in w.live && InPayload(b, b.seg, k)) || (b in w.lifo && b.off <= 4 * k < b.off + b.size)
  }

  /** What the allocator asks of its callers: pointers to live blocks, requests that do not
      overflow a size_t, writes inside the caller's own block. */
  ghost predicate Legal(w: World, op: Op) {
    match op
    case Malloc(request, _, _) => request <= MAX_REQUEST
    case Resize(p, request, _, _) => request <= MAX_REQUEST && (p.Some? ==> p.value in w.live)
    case Release(b) => b in w.live
    case PushLifo(request, _) => request <= MAX_REQUEST
    case PopLifo(k, seg, off) =>
      k < |w.lifo| && w.lifo[k].seg == seg < |w.segs| && w.lifo[k].off == off && Exact(w, k)
    case Store(b, word, _) => Owns(w, b, word)
  }

  lemma InsidePayload(w: World, ps: nat, b: Block, word: nat)
    requires Sane(w, ps) && BlockOk(w, ps, b) && InPayload(b, b.seg, word)
    ensures word < |w.segs[b.seg].mem|
  {
    InsideMem(w, ps, b, word - (b.off / 4 + 2));
  }

  lemma StoreKeeps(w: World, ps: nat, b: Block, word: nat, value: int)
    requires Inv(w, ps) && b in w.live && InPayload(b, b.seg, word)
    ensures b.seg < |w.segs| && word < |w.segs[b.seg].mem| && Inv(Poke(w, b.seg, word, value), ps)
  {
    assert BlockOk(w, ps, b);
    InsidePayload(w, ps, b, word);
    WriteKeeps(w, ps, b, w.segs[b.seg].mem[word := value]);
  }

  /** A live arena block lies inside its mapped segment. */
  lemma ArenaInside(w: World, ps: nat, b: Block)
    requires Inv(w, ps) && b in w.lifo
    ensures b.seg < |w.segs| && b.seg <= w.lifoseg && w.segs[b.seg].Has(LIFO) && w.segs[b.seg].Mapped()
    ensures b.off + b.size <= 4 * |w.segs[b.seg].mem|
  {
    var k :| 0 <= k < |w.lifo| && w.lifo[k] == b;
    assert LifoBlockOk(w, ps, k) && FlagOk(w, b.seg);
  }

  lemma ArenaStoreKeeps(w: World, ps: nat, i: nat, mem: seq<int>)
    requires Inv(w, ps) && i < |w.segs| && w.segs[i].Has(LIFO) && w.segs[i].Mapped() && |mem| == |w.segs[i].mem|
    ensures Inv(SetMem(w, i, mem), ps)
  {
    var w' := SetMem(w, i, mem);
    assert SameFlags(w.segs[i], w'.segs[i]);
    BlocksUntouched(w, w', ps, i);
    forall j | 0 <= j < N_SEGMENTS ensures CountOk(w', j) && CleanOk(w'.segs[j]) && FlagOk(w', j) {
      assert CountOk(w, j) && CleanOk(w.segs[j]) && FlagOk(w, j);
    }
    forall k | 0 <= k < |w.lifo| ensures LifoBlockOk(w', ps, k) { assert LifoBlockOk(w, ps, k); }
  }

  lemma OwnStoreKeeps(w: World, ps: nat, b: Block, word: nat, value: int)
    requires Inv(w, ps) && Owns(w, b, word)
    ensures b.seg < |w.segs| && word < |w.segs[b.seg].mem| && Inv(Poke(w, b.seg, word, value), ps)
  {
    if b in w.live && InPayload(b, b.seg, word) {
      StoreKeeps(w, ps, b, word, value);
    } else {
      ArenaInside(w, ps, b);
      ArenaStoreKeeps(w, ps, b.seg, w.segs[b.seg].mem[word := value]);
    }
  }

  ghost function Step(w: World, ps: nat, op: Op): (w': World)
    requires Inv(w, ps) && Legal(w, op)
    ensures Inv(w', ps)
  {
    match op
    case Malloc(request, clear, mapOk) =>
      AllocKeeps(w, ps, request, clear, mapOk); Alloc(w, ps, request, clear, mapOk).0
    case Resize(p, request, mapOk, past) =>
      ReallocKeeps(w, ps, p, request, mapOk, past); Realloc(w, ps, p, request, mapOk, past).0
    case Release(b) =>
      FreeKeeps(w, ps, b); Free(w, ps, b).0
    case PushLifo(request, mapOk) =>
      AllocLifoKeeps(w, ps, request, mapOk); AllocLifo(w, ps, request, mapOk).0
    case PopLifo(k, _, _) =>
      FreeLifoKeeps(w, ps, k); FreeLifo(w, ps, k)
    case Store(b, word, value) =>
      OwnStoreKeeps(w, ps, b, word, value); Poke(w, b.seg, word, value)
  }

  /** The states after a run of operations from w, each legal where it happens. */
  ghost predicate Runs(w: World, ps: nat, ops: seq<Op>, end: World)
    decreases |ops|
  {
    && Inv(w, ps)
    && (if ops == [] then end == w
        else Legal(w, ops[0]) && Runs(Step(w, ps, ops[0]), ps, ops[1..], end))
  }

  /** Live blocks of both kinds are pairwise disjoint and inside mapped memory; the counter
      of a shared segment is its number of live blocks and stays below the flag bits. */
  ghost predicate Safe(w: World, ps: nat) {
    && |w.segs| == N_SEGMENTS
    && (forall b :: b in w.live || b in w.lifo ==> b.seg < N_SEGMENTS && b.off + b.size <= 4 * |w.segs[b.seg].mem|)
    && (forall b :: b in w.live ==> w.segs[b.seg].Mapped())
    && (forall b, c :: b in w.live && c in w.live && b != c ==> Apart(b, c))
    && (forall b, c :: b in w.live && c in w.lifo ==> b.seg != c.seg)
    && (forall j, k :: 0 <= j < k < |w.lifo| ==> Apart(w.lifo[j], w.lifo[k]))
    && (forall i :: 0 <= i < N_SEGMENTS && w.segs[i].Shared() ==>
          w.segs[i].Low() == |LiveIn(w.live, i)| <= 0x8_0000)
  }

  lemma InvIsSafe(w: World, ps: nat)
    requires Inv(w, ps)
    ensures Safe(w, ps)
  {
    forall b | b in w.live ensures b.off + b.size <= 4 * |w.segs[b.seg].mem| {
      assert BlockOk(w, ps, b) && Shape(w.segs[b.seg], ps);
    }
    forall c | c in w.lifo
      ensures c.seg < N_SEGMENTS && c.off + c.size <= 4 * |w.segs[c.seg].mem| && w.segs[c.seg].Has(LIFO)
    {
      var k :| 0 <= k < |w.lifo| && w.lifo[k] == c;
      assert LifoBlockOk(w, ps, k) && FlagOk(w, c.seg);
    }
    forall b, c | b in w.live && c in w.lifo ensures b.seg != c.seg {
      assert BlockOk(w, ps, b);
    }
    forall j, k | 0 <= j < k < |w.lifo| ensures Apart(w.lifo[j], w.lifo[k]) {
      assert After(w.lifo[j], w.lifo[k]);
    }
    forall i | 0 <= i < N_SEGMENTS && w.segs[i].Shared()
      ensures w.segs[i].Low() == |LiveIn(w.live, i)| <= 0x8_0000
    {
      assert CountOk(w, i) && Shape(w.segs[i], ps);
    }
  }

  lemma {:induction false} RunKeeps(w: World, ps: nat, ops: seq<Op>, end: World)
    requires Runs(w, ps, ops, end)
    ensures Inv(end, ps)
    decreases |ops|
  {
    if ops != [] {
      RunKeeps(Step(w, ps, ops[0]), ps, ops[1..], end);
    }
  }

  lemma FirstPush() returns (w: World)
    ensures Inv(Start(), 4096) && Step(Start(), 4096, PushLifo(8, true)) == w && Inv(w, 4096)
    ensures w.lifo == [Block(0, 0, 8)] && w.lifoseg == 0 && |w.segs| == N_SEGMENTS
    ensures w.segs[0].nref == 8 && !w.segs[0].Has(VLEN)
  {
    StartOk(4096);
    assert Start().segs[0] == EMPTY && FirstFree(Start().segs, 0) == 0;
    w := Step(Start(), 4096, PushLifo(8, true));
    NewArenaFlags(w.segs[0].mem, 8);
  }

  /** An arena block of size zero behind the last bytes of its segment cannot be freed alone. */
  lemma ZeroSizeIsMissed() returns (w: World)
    ensures Runs(Start(), 4096, [PushLifo(8, true), PushLifo(0, true)], w)
    ensures w.lifo == [Block(0, 0, 8), Block(0, 8, 0)] && |w.segs| == N_SEGMENTS && !Exact(w, 1)
  {
    var ops := [PushLifo(8, true), PushLifo(0, true)];
    var w1 := FirstPush();
    w := Step(w1, 4096, ops[1]);
    assert ops[1..] == [ops[1]] && ops[1..][1..] == [];
    assert Runs(w, 4096, [], w);
    assert Runs(w1, 4096, ops[1..], w);
  }

  /** Every run of a new context is safe at its end, and therefore everywhere. */
  lemma EveryRunIsSafe(ps: nat)
    ensures forall ops, end :: Runs(Start(), ps, ops, end) ==> Inv(end, ps) && Safe(end, ps)
  {
    forall ops, end | Runs(Start(), ps, ops, end) ensures Inv(end, ps) && Safe(end, ps) {
      RunKeeps(Start(), ps, ops, end);
      InvIsSafe(end, ps);
    }
  }

  lemma WordInside(off: nat, size: nat, j: nat)
    requires off % 8 == 0 && size % 8 == 0 && 4 * j + 8 < size
    ensures off / 4 + 2 + j < (off + size) / 4
  {
    var a, b := off / 8, size / 8;
    assert off == 8 * a && size == 8 * b;
    assert off / 4 == 2 * a && (off + size) / 4 == 2 * a + 2 * b;
  }

  lemma ZeroWords(w: World, b: Block, request: nat)
    requires b.seg < |w.segs| && b.off % 8 == 0 && b.size % 8 == 0 && b.size >= request + 8
    requires ZeroPayload(w.segs[b.seg], b.off, b.size)
    ensures forall j :: 0 <= j && 4 * j < request ==> PayloadWord(w, b, j, 1) == 0
  {
    forall j | 0 <= j && 4 * j < request ensures PayloadWord(w, b, j, 1) == 0 {
      WordInside(b.off, b.size, j);
    }
  }

  /** In this state grn_ctx_calloc gives out zeros only. */
  ghost predicate CallocsZeros(w: World, ps: nat, request: nat, mapOk: bool) {
    Sane(w, ps) && request <= MAX_REQUEST &&
    var (w', r) := Alloc(w, ps, request, true, mapOk);
    r.Some? ==> r.value.seg < |w'.segs|
                && forall j :: 0 <= j && 4 * j < request ==> PayloadWord(w', r.value, j, 1) == 0
  }

  lemma CallocClears(w: World, ps: nat, request: nat, mapOk: bool)
    requires Inv(w, ps) && request <= MAX_REQUEST
    ensures CallocsZeros(w, ps, request, mapOk)
  {
    AllocKeeps(w, ps, request, true, mapOk);
    var (w', r) := Alloc(w, ps, request, true, mapOk);
    if r.Some? {
      assert BlockOk(w', ps, r.value);
      ZeroWords(w', r.value, request);
    }
  }

  /** At any point of any run, memory from grn_ctx_calloc is zero although only rewound
      segments are cleared. */
  lemma CallocIsZero(ps: nat, request: nat, mapOk: bool)
    requires request <= MAX_REQUEST
    ensures forall ops, end :: Runs(Start(), ps, ops, end) ==> CallocsZeros(end, ps, request, mapOk)
  {
    forall ops, end | Runs(Start(), ps, ops, end) ensures CallocsZeros(end, ps, request, mapOk) {
      RunKeeps(Start(), ps, ops, end);
      CallocClears(end, ps, request, mapOk);
    }
  }
}
