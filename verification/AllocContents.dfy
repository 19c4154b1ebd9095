/** What clients store stays: over every run, each word of a live block is the last value that
    its client stored there. */
module AllocContents {
  import opened Wrappers
  import opened AllocModel
  import opened AllocInvariant
  import opened AllocSteps
  import opened AllocArena
  import opened AllocRuns
  import opened AllocRealloc

  /** Word k of the segment of b. */
  function Word(w: World, b: Block, k: nat): int {
    if b.seg < |w.segs| && k < |w.segs[b.seg].mem| then w.segs[b.seg].mem[k] else 0
  }

  /** Two clients own different words. */
  lemma OwnersDiffer(w: World, ps: nat, b: Block, c: Block, k: nat)
    requires Inv(w, ps) && Owns(w, b, k) && Owns(w, c, k) && b.seg == c.seg
    ensures b == c
  {
    if b in w.live && InPayload(b, b.seg, k) {
      assert BlockOk(w, ps, b);
      if c in w.lifo { ArenaInside(w, ps, c); }
    } else if c in w.live && InPayload(c, c.seg, k) {
      assert BlockOk(w, ps, c);
      ArenaInside(w, ps, b);
    } else {
      var i :| 0 <= i < |w.lifo| && w.lifo[i] == b;
      var j :| 0 <= j < |w.lifo| && w.lifo[j] == c;
      assert i < j ==> After(b, c);
      assert j < i ==> After(c, b);
    }
  }

  // ----- one call -----

  lemma MallocLeaves(w: World, ps: nat, request: nat, clear: bool, mapOk: bool, b: Block, k: nat)
    requires Inv(w, ps) && request <= MAX_REQUEST && Owns(w, b, k)
    ensures Word(Alloc(w, ps, request, clear, mapOk).0, b, k) == Word(w, b, k)
  {
    if b in w.live && InPayload(b, b.seg, k) {
      AllocLeaves(w, ps, request, clear, mapOk, b);
    } else {
      ArenaInside(w, ps, b);
      AllocLeavesArena(w, ps, request, clear, mapOk, b.seg);
    }
  }

  lemma AllocLeavesArena(w: World, ps: nat, request: nat, clear: bool, mapOk: bool, i: nat)
    requires Inv(w, ps) && request <= MAX_REQUEST && i < |w.segs| && w.segs[i].Mapped() && w.segs[i].Has(LIFO)
    ensures |Alloc(w, ps, request, clear, mapOk).0.segs| == |w.segs|
    ensures Alloc(w, ps, request, clear, mapOk).0.segs[i] == w.segs[i]
  {
    RoundedFits(request);
  }

  lemma ReleaseLeaves(w: World, ps: nat, p: Block, b: Block, k: nat)
    requires Inv(w, ps) && p in w.live && Owns(w, b, k) && b != p
    ensures HeaderIntact(w, p) && !w.segs[p.seg].Has(LIFO) && (!w.segs[p.seg].Has(VLEN) ==> w.segs[p.seg].count > 0)
    ensures Word(Free(w, ps, p).0, b, k) == Word(w, b, k)
  {
    FreeKeeps(w, ps, p);
    if b in w.live { FreeLeaves(w, ps, p, b); } else { ArenaInside(w, ps, b); }
  }

  lemma CopyLeaves(w: World, ps: nat, src: Block, dst: Block, n: nat, past: int, b: Block, k: nat)
    requires Inv(w, ps) && src in w.live && dst in w.live && n + 8 <= dst.size && Owns(w, b, k) && b != dst
    ensures src.seg < |w.segs| && dst.seg < |w.segs| && Word(Copy(w, src, dst, n, past), b, k) == Word(w, b, k)
  {
    SharedHasCount(w, ps, src);
    SharedHasCount(w, ps, dst);
    assert BlockOk(w, ps, dst);
    if b.seg == dst.seg {
      if InPayload(dst, dst.seg, k) { OwnersDiffer(w, ps, b, dst, k); }
      CopyStaysInside(w.segs[dst.seg].mem, dst, n, Payload(w, src, (n + 3) / 4, past));
    }
  }

  lemma MoveLeaves(w: World, ps: nat, p: Block, c: Block, request: nat, past: int, b: Block, k: nat)
    requires Inv(w, ps) && p in w.live && c in w.live && p != c && request + 8 <= c.size
    requires Owns(w, b, k) && b != p && b != c
    ensures Word(AllocRuns.Move(w, ps, p, c, request, past), b, k) == Word(w, b, k)
  {
    SharedHasCount(w, ps, p);
    var n := CopyLength(w, p, request);
    CopyLeaves(w, ps, p, c, n, past, b, k);
    CopyKeeps(w, ps, p, c, n, past);
    ReleaseLeaves(Copy(w, p, c, n, past), ps, p, b, k);
  }

  lemma ResizeLeaves(w: World, ps: nat, p: Option<Block>, request: nat, mapOk: bool, past: int, b: Block, k: nat)
    requires Inv(w, ps) && request <= MAX_REQUEST && (p.Some? ==> p.value in w.live)
    requires Owns(w, b, k) && (request > 0 || p != Some(b))
    requires p == Some(b) ==> Alloc(w, ps, request, false, mapOk).1.None?
    ensures Word(Realloc(w, ps, p, request, mapOk, past).0, b, k) == Word(w, b, k)
  {
    if request == 0 {
      if p.Some? { ReleaseLeaves(w, ps, p.value, b, k); }
    } else {
      AllocKeeps(w, ps, request, false, mapOk);
      MallocLeaves(w, ps, request, false, mapOk, b, k);
      var (a, r) := Alloc(w, ps, request, false, mapOk);
      if r.Some? {
        AllocOwns(w, ps, a, r.value, b, k);
        RefillLeaves(a, r.value, ps, p, request, past, b, k);
      }
    }
  }

  lemma RefillLeaves(a: World, c: Block, ps: nat, p: Option<Block>, request: nat, past: int, b: Block, k: nat)
    requires Inv(a, ps) && c in a.live && request + 8 <= c.size && (p.Some? ==> p.value in a.live && p.value != c)
    requires Owns(a, b, k) && b != c && p != Some(b)
    ensures Word(Refill((a, Some(c)), ps, p, request, past).0, b, k) == Word(a, b, k)
  {
    if p.Some? { MoveLeaves(a, ps, p.value, c, request, past, b, k); }
  }

  /** After an allocation the old blocks own what they did, and c is none of them. */
  lemma AllocOwns(w: World, ps: nat, a: World, c: Block, b: Block, k: nat)
    requires Inv(w, ps) && Inv(a, ps) && a.live == w.live + {c} && c !in w.live && a.lifo == w.lifo && Owns(w, b, k)
    ensures Owns(a, b, k) && b != c
  {
    assert BlockOk(a, ps, c);
    if b in w.lifo { ArenaInside(a, ps, b); }
  }

  lemma PushLeaves(w: World, ps: nat, request: nat, mapOk: bool, b: Block, k: nat)
    requires Inv(w, ps) && request <= MAX_REQUEST && Owns(w, b, k)
    ensures Word(AllocLifo(w, ps, request, mapOk).0, b, k) == Word(w, b, k)
  {
    if b in w.live && InPayload(b, b.seg, k) { assert BlockOk(w, ps, b); } else { ArenaInside(w, ps, b); }
  }

  lemma PopLeaves(w: World, ps: nat, j: nat, b: Block, k: nat)
    requires Inv(w, ps) && j < |w.lifo| && w.lifo[j].seg < |w.segs| && Exact(w, j)
    requires LifoShaped(w.segs, w.lifoseg, ps) && Owns(w, b, k) && Owns(FreeLifo(w, ps, j), b, k)
    ensures Word(FreeLifo(w, ps, j), b, k) == Word(w, b, k)
  {
    FreeLifoKeeps(w, ps, j);
    if b in w.live && InPayload(b, b.seg, k) {
      assert BlockOk(w, ps, b);
    } else {
      ArenaInside(w, ps, b);
      ArenaInside(FreeLifo(w, ps, j), ps, b);
    }
  }

  /** The client of b stores into word k. */
  predicate Stores(op: Op, b: Block, k: nat) { op.Store? && op.b == b && op.word == k }

  lemma StoreLeaves(w: World, ps: nat, c: Block, word: nat, value: int, b: Block, k: nat)
    requires Inv(w, ps) && Owns(w, c, word) && Owns(w, b, k)
    ensures c.seg < |w.segs| && word < |w.segs[c.seg].mem|
    ensures Word(Poke(w, c.seg, word, value), b, k) == if c == b && word == k then value else Word(w, b, k)
  {
    OwnStoreKeeps(w, ps, c, word, value);
    if c.seg == b.seg && word == k { OwnersDiffer(w, ps, b, c, k); }
  }

  /** One call changes a word of a block that stays live only when its client stores there. */
  lemma StepLeaves(w: World, ps: nat, op: Op, b: Block, k: nat)
    requires Inv(w, ps) && Legal(w, op) && Owns(w, b, k) && Owns(Step(w, ps, op), b, k)
    ensures Word(Step(w, ps, op), b, k) == if Stores(op, b, k) then op.value else Word(w, b, k)
  {
    match op
    case Malloc(request, clear, mapOk) => MallocLeaves(w, ps, request, clear, mapOk, b, k);
    case Resize(p, request, mapOk, past) =>
      ReallocKeeps(w, ps, p, request, mapOk, past);
      StaysSomewhere(w, ps, p, request, mapOk, past, b, k);
      ResizeLeaves(w, ps, p, request, mapOk, past, b, k);
    case Release(p) =>
      FreeKeeps(w, ps, p);
      ReleasedOwns(w, ps, p, b, k);
      ReleaseLeaves(w, ps, p, b, k);
    case PushLifo(request, mapOk) => PushLeaves(w, ps, request, mapOk, b, k);
    case PopLifo(j, _, _) =>
      FreeLifoKeeps(w, ps, j);
      PopLeaves(w, ps, j, b, k);
    case Store(c, word, value) => StoreLeaves(w, ps, c, word, value, b, k);
  }

  /** An ordinary block is not an arena block, so one that is freed owns nothing. */
  lemma ReleasedOwns(w: World, ps: nat, p: Block, b: Block, k: nat)
    requires Inv(w, ps) && p in w.live
    requires HeaderIntact(w, p) && !w.segs[p.seg].Has(LIFO) && (!w.segs[p.seg].Has(VLEN) ==> w.segs[p.seg].count > 0)
    requires Free(w, ps, p).0.live == w.live - {p} && Free(w, ps, p).0.lifo == w.lifo && Owns(Free(w, ps, p).0, b, k)
    ensures b != p
  {
    if p in w.lifo { ArenaInside(w, ps, p); }
  }

  lemma StaysSomewhere(w: World, ps: nat, p: Option<Block>, request: nat, mapOk: bool, past: int, b: Block, k: nat)
    requires Inv(w, ps) && request <= MAX_REQUEST && (p.Some? ==> p.value in w.live)
    requires Inv(Realloc(w, ps, p, request, mapOk, past).0, ps)
    requires Owns(w, b, k) && Owns(Realloc(w, ps, p, request, mapOk, past).0, b, k)
    ensures request > 0 || p != Some(b)
    ensures p == Some(b) ==> Alloc(w, ps, request, false, mapOk).1.None?
  {
    ReallocKeeps(w, ps, p, request, mapOk, past);
    assert p.Some? ==> BlockOk(w, ps, p.value);
    if p.Some? && p.value in w.lifo { ArenaInside(w, ps, p.value); }
    if request > 0 { AllocKeeps(w, ps, request, false, mapOk); }
  }

  // ----- runs -----

  /** The block is live, and owns word k, all the time. */
  ghost predicate Lives(w: World, ps: nat, ops: seq<Op>, b: Block, k: nat)
    decreases |ops|
  {
    && Inv(w, ps) && Owns(w, b, k)
    && (ops == [] || (Legal(w, ops[0]) && Lives(Step(w, ps, ops[0]), ps, ops[1..], b, k)))
  }

  /** The last value stored into the word, or the first one it had. */
  function LastStored(ops: seq<Op>, b: Block, k: nat, first: int): int {
    if ops == [] then first
    else LastStored(ops[1..], b, k, if Stores(ops[0], b, k) then ops[0].value else first)
  }

  /** Over every run, whatever other calls do in between. */
  lemma {:induction false} ContentsAreKept(w: World, ps: nat, ops: seq<Op>, end: World, b: Block, k: nat)
    requires Runs(w, ps, ops, end) && Lives(w, ps, ops, b, k)
    ensures Word(end, b, k) == LastStored(ops, b, k, Word(w, b, k))
    decreases |ops|
  {
    if ops != [] {
      StepLeaves(w, ps, ops[0], b, k);
      ContentsAreKept(Step(w, ps, ops[0]), ps, ops[1..], end, b, k);
    }
  }

  lemma CallocWord(w: World, ps: nat, request: nat, mapOk: bool, a: World, c: Block, k: nat)
    requires Inv(w, ps) && request <= MAX_REQUEST && Alloc(w, ps, request, true, mapOk) == (a, Some(c)) && Owns(a, c, k)
    ensures Word(a, c, k) == 0
  {
    AllocKeeps(w, ps, request, true, mapOk);
    assert BlockOk(a, ps, c);
    if c in a.lifo { ArenaInside(a, ps, c); }
  }

  /** A block from grn_ctx_calloc holds zeros until its client stores something. */
  lemma CallocIsZeroUntilStored(w: World, ps: nat, request: nat, mapOk: bool, a: World, c: Block, ops: seq<Op>, end: World, k: nat)
    requires Inv(w, ps) && request <= MAX_REQUEST && Alloc(w, ps, request, true, mapOk) == (a, Some(c))
    requires Runs(a, ps, ops, end) && Lives(a, ps, ops, c, k)
    ensures Word(end, c, k) == LastStored(ops, c, k, 0)
  {
    ContentsAreKept(a, ps, ops, end, c, k);
    CallocWord(w, ps, request, mapOk, a, c, k);
  }
}
