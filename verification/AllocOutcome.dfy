/** Exactly when the allocator's calls succeed, and where they put a block (lib/alloc.c). */
module AllocOutcome {
  import opened Wrappers
  import opened AllocModel
  import opened AllocInvariant
  import opened AllocSteps
  import opened AllocArena
  import opened AllocRuns

  /** No segment from `from` on is free. */
  ghost predicate FullFrom(w: World, from: nat) {
    forall i :: from <= i < |w.segs| ==> w.segs[i].Mapped()
  }

  /** The lowest free segment from `from` on. */
  ghost predicate IsFirstFree(w: World, from: nat, i: nat) {
    from <= i < |w.segs| && !w.segs[i].Mapped() && forall j :: from <= j < i ==> w.segs[j].Mapped()
  }

  /** There is room for `size` bytes behind what is used of the current segment. */
  predicate Fits(w: World, size: nat) {
    0 <= w.currseg < |w.segs| && w.segs[w.currseg].nref + size <= SEGMENT_SIZE
  }

  predicate FitsArena(w: World, size: nat) {
    0 <= w.lifoseg < |w.segs| && !w.segs[w.lifoseg].Has(VLEN) && w.segs[w.lifoseg].nref + size <= SEGMENT_SIZE
  }

  /** The pages of so many bytes cannot be counted in 32 bits. */
  predicate TooManyPages(size: nat, ps: nat) { size > (MAX_PAGES - 1) * ps }

  lemma PagesExactly(size: nat, ps: nat)
    requires ps > 0
    ensures Pages(size, ps) >= MAX_PAGES <==> TooManyPages(size, ps)
  {
    var n := size + ps - 1;
    var q, r := n / ps, n % ps;
    assert n == ps * q + r;
    if q >= MAX_PAGES { Products(ps, MAX_PAGES, q); } else { Products(ps, q, MAX_PAGES - 1); }
  }

  lemma Products(a: nat, b: nat, c: nat)
    requires b <= c
    ensures a * b <= a * c
  {
  }

  // ----- ordinary blocks -----

  /** A request that fits behind the current segment's used part always succeeds; another one needs
      a free segment and its memory, and a large one a number of pages that fits 32 bits. */
  lemma AllocFailsExactly(w: World, ps: nat, request: nat, clear: bool, mapOk: bool)
    requires Sane(w, ps) && request <= MAX_REQUEST
    ensures Alloc(w, ps, request, clear, mapOk).1.None? <==>
      if Rounded(request) <= SEGMENT_SIZE then !Fits(w, Rounded(request)) && (!mapOk || FullFrom(w, 0))
      else !mapOk || FullFrom(w, 0) || TooManyPages(Rounded(request), ps)
  {
    RoundedFits(request);
    PagesExactly(Rounded(request), ps);
  }

  /** Where a block goes, and what becomes of the current segment. */
  lemma AllocPlaces(w: World, ps: nat, request: nat, clear: bool, mapOk: bool, b: Block)
    requires Sane(w, ps) && request <= MAX_REQUEST && Alloc(w, ps, request, clear, mapOk).1 == Some(b)
    ensures b.size == Rounded(request)
    ensures var w' := Alloc(w, ps, request, clear, mapOk).0;
      && b.seg < |w.segs| == |w'.segs| && w'.lifo == w.lifo && w'.lifoseg == w.lifoseg
      && (forall i :: 0 <= i < |w.segs| && i != b.seg ==> w'.segs[i] == w.segs[i])
      && (if b.size <= SEGMENT_SIZE && Fits(w, b.size)
          then b.seg == w.currseg == w'.currseg && b.off == w.segs[b.seg].nref
          else IsFirstFree(w, 0, b.seg) && b.off == 0 && w'.currseg == if b.size > SEGMENT_SIZE then -1 else b.seg)
      && (b.size <= SEGMENT_SIZE ==> w'.segs[b.seg].nref == b.off + b.size)
  {
    RoundedFits(request);
  }

  /** How much is mapped: a segment of the fixed size, or what a large block needs in whole pages. */
  lemma AllocExtent(w: World, ps: nat, request: nat, clear: bool, mapOk: bool, b: Block)
    requires Sane(w, ps) && request <= MAX_REQUEST && Alloc(w, ps, request, clear, mapOk).1 == Some(b)
    ensures b.seg < |Alloc(w, ps, request, clear, mapOk).0.segs|
    ensures var mapped := 4 * |Alloc(w, ps, request, clear, mapOk).0.segs[b.seg].mem|;
      if b.size <= SEGMENT_SIZE then mapped == SEGMENT_SIZE else b.size <= mapped < b.size + ps
  {
    RoundedFits(request);
    var size := Rounded(request);
    if size > SEGMENT_SIZE {
      PagesCover(size, ps);
      OwnExtent(PageBytes(Pages(size, ps), ps));
    } else if 0 <= w.currseg {
      assert Shape(w.segs[w.currseg], ps);
    }
  }

  lemma OwnExtent(bytes: nat)
    requires bytes % 8 == 0
    ensures 4 * (bytes / 4) == bytes
  {
  }

  /** grn_ctx_realloc fails exactly when the allocation of the new block does. */
  lemma ReallocFailsExactly(w: World, ps: nat, p: Option<Block>, request: nat, mapOk: bool, past: int)
    requires Inv(w, ps) && 0 < request <= MAX_REQUEST && (p.Some? ==> p.value in w.live)
    ensures Realloc(w, ps, p, request, mapOk, past).1.None? <==>
      if Rounded(request) <= SEGMENT_SIZE then !Fits(w, Rounded(request)) && (!mapOk || FullFrom(w, 0))
      else !mapOk || FullFrom(w, 0) || TooManyPages(Rounded(request), ps)
  {
    AllocFailsExactly(w, ps, request, false, mapOk);
    AllocKeeps(w, ps, request, false, mapOk);
  }

  /** A segment without a live block is rewound when it is current and unmapped otherwise; one
      that still has live blocks keeps its extent. */
  lemma FreeExactly(w: World, ps: nat, b: Block)
    requires Inv(w, ps) && b in w.live
    ensures b.seg < |w.segs| && HeaderIntact(w, b) && !w.segs[b.seg].Has(LIFO)
    ensures !w.segs[b.seg].Has(VLEN) ==> w.segs[b.seg].count > 0
    ensures var w' := Free(w, ps, b).0;
      && |w'.segs| == |w.segs| && w'.currseg == w.currseg && w'.lifoseg == w.lifoseg
      && (if LiveIn(w.live - {b}, b.seg) != {} then w'.segs[b.seg].mem == w.segs[b.seg].mem && w'.segs[b.seg].nref == w.segs[b.seg].nref
          else if b.seg == w.currseg then w'.segs[b.seg].mem == w.segs[b.seg].mem && w'.segs[b.seg].nref == 0
          else !w'.segs[b.seg].Mapped())
  {
    FreeKeeps(w, ps, b);
  }

  // ----- the arena -----

  lemma AllocLifoFailsExactly(w: World, ps: nat, request: nat, mapOk: bool)
    requires Sane(w, ps) && request <= MAX_REQUEST
    ensures AllocLifo(w, ps, request, mapOk).1.None? <==>
      if request <= SEGMENT_SIZE then !FitsArena(w, Align(request)) && (!mapOk || FullFrom(w, w.lifoseg + 1))
      else !mapOk || FullFrom(w, w.lifoseg + 1) || TooManyPages(request, ps)
  {
    PagesExactly(request, ps);
  }

  /** Where an arena block goes: behind the last one, or into the first free segment above. */
  lemma AllocLifoPlaces(w: World, ps: nat, request: nat, mapOk: bool, b: Block)
    requires Sane(w, ps) && request <= MAX_REQUEST && AllocLifo(w, ps, request, mapOk).1 == Some(b)
    ensures b.size == if request <= SEGMENT_SIZE then Align(request) else request
    ensures var w' := AllocLifo(w, ps, request, mapOk).0;
      && b.seg < |w.segs| == |w'.segs| && w'.live == w.live && w'.currseg == w.currseg && w'.lifoseg == b.seg
      && (forall i :: 0 <= i < |w.segs| && i != b.seg ==> w'.segs[i] == w.segs[i])
      && (if request <= SEGMENT_SIZE && FitsArena(w, b.size)
          then b.seg == w.lifoseg && b.off == w.segs[b.seg].nref
          else IsFirstFree(w, w.lifoseg + 1, b.seg) && b.off == 0)
      && (request <= SEGMENT_SIZE ==> w'.segs[b.seg].nref == b.off + b.size)
  {
  }

  lemma AllocLifoExtent(w: World, ps: nat, request: nat, mapOk: bool, b: Block)
    requires Sane(w, ps) && request <= MAX_REQUEST && AllocLifo(w, ps, request, mapOk).1 == Some(b)
    ensures b.seg < |AllocLifo(w, ps, request, mapOk).0.segs|
    ensures var mapped := 4 * |AllocLifo(w, ps, request, mapOk).0.segs[b.seg].mem|;
      if request <= SEGMENT_SIZE then mapped == SEGMENT_SIZE else request <= mapped < request + ps
  {
    if request > SEGMENT_SIZE {
      PagesCover(request, ps);
      OwnExtent(PageBytes(Pages(request, ps), ps));
    } else if 0 <= w.lifoseg {
      assert Shape(w.segs[w.lifoseg], ps);
    }
  }
}
