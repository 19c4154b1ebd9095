/** Every allocator call keeps the invariant, and what else it guarantees. */
module AllocSteps {
  import opened Wrappers
  import opened AllocModel
  import opened AllocInvariant

  predicate ZeroPayload(s: Seg, off: nat, size: nat) {
    (off + size) / 4 <= |s.mem| && forall k :: off / 4 + 2 <= k < (off + size) / 4 ==> s.mem[k] == 0
  }

  // ----- allocation of ordinary blocks -----

  /** Segment t is shared segment s with one more block, of `size` bytes, at its end. */
  predicate Carved(s: Seg, t: Seg, i: nat, size: nat) {
    && FixedShape(t) && t.Shared() && CleanOk(t)
    && t.nref == s.nref + size && t.Low() == s.Low() + 1
    && |t.mem| == |s.mem| && s.nref / 4 + 2 <= |t.mem|
    && t.mem[s.nref / 4] == i && t.mem[s.nref / 4 + 1] == Int32(size)
    && (forall k :: 0 <= k < s.nref / 4 ==> t.mem[k] == s.mem[k])
  }

  lemma CarveFacts(s: Seg, i: nat, size: nat, clear: bool)
    requires FixedShape(s) && s.Shared() && CleanOk(s) && 8 * s.Low() <= s.nref
    requires size % 8 == 0 && 8 <= size && s.nref + size <= SEGMENT_SIZE
    ensures var t := Carve(s, i, size, clear);
            Carved(s, t, i, size) && (clear ==> ZeroPayload(t, s.nref, size))
  {
    var t := Carve(s, i, size, clear);
    CountUp(s, t);
    assert Seg(PutHeader(s.mem, s.nref / 4, i, size), s.nref + size, s.count + 1).Has(DIRTY) == t.Has(DIRTY);
  }

  lemma OneMore(live: set<Block>, b: Block, i: nat)
    requires b !in live
    ensures |LiveIn(live + {b}, i)| == |LiveIn(live, i)| + (if b.seg == i then 1 else 0)
  {
    if b.seg == i {
      assert LiveIn(live + {b}, i) == LiveIn(live, i) + {b};
    } else {
      assert LiveIn(live + {b}, i) == LiveIn(live, i);
    }
  }

  lemma OneLess(live: set<Block>, b: Block, i: nat)
    requires b in live
    ensures |LiveIn(live - {b}, i)| == |LiveIn(live, i)| - (if b.seg == i then 1 else 0)
  {
    OneMore(live - {b}, b, i);
    assert live - {b} + {b} == live;
  }

  lemma NoneIn(w: World, ps: nat, i: nat)
    requires BlocksOk(w, ps) && i < |w.segs| && !w.segs[i].Ordinary()
    ensures LiveIn(w.live, i) == {}
  {
    assert forall b :: b in w.live && b.seg == i ==> !BlockOk(w, ps, b);
  }

  lemma FreshFacts()
    ensures FixedShape(FRESH) && FRESH.Shared() && CleanOk(FRESH) && FRESH.Low() == 0
  {
    FlagsOfNew();
    assert Seg([], 0, WORD).Has(VLEN) == FRESH.Has(VLEN);
    assert Seg([], 0, WORD).Has(LIFO) == FRESH.Has(LIFO);
  }

  lemma CarvedBlocks(w: World, ps: nat, i: nat, s: Seg, t: Seg, size: nat)
    requires BlocksOk(w, ps) && i < |w.segs| && size % 8 == 0 && size >= 8 && s.nref % 8 == 0
    requires (s == w.segs[i] && s.Shared()) || !w.segs[i].Mapped()
    requires Carved(s, t, i, size)
    ensures var b := Block(i, s.nref, size);
            BlocksOk(Place(w, i, t, b, i), ps) && b !in w.live
  {
    var b := Block(i, s.nref, size);
    var w' := Place(w, i, t, b, i);
    forall c | c in w.live
      ensures BlockOk(w', ps, c) && Apart(b, c) && Apart(c, b) && c != b
    {
      assert BlockOk(w, ps, c);
    }
    assert BlockOk(w', ps, b);
  }

  lemma CarvedTable(w: World, ps: nat, i: nat, s: Seg, t: Seg, size: nat)
    requires TableOk(w, ps) && i < N_SEGMENTS && size >= 8
    requires (s == w.segs[i] && s.Shared()) || (!w.segs[i].Mapped() && s.Low() == |LiveIn(w.live, i)| == 0)
    requires Carved(s, t, i, size) && Block(i, s.nref, size) !in w.live
    ensures TableOk(Place(w, i, t, Block(i, s.nref, size), i), ps)
  {
    var b := Block(i, s.nref, size);
    var w' := Place(w, i, t, b, i);
    forall j | 0 <= j < N_SEGMENTS ensures CountOk(w', j) && CleanOk(w'.segs[j]) && FlagOk(w', j) {
      assert CountOk(w, j) && CleanOk(w.segs[j]) && FlagOk(w, j);
      OneMore(w.live, b, j);
    }
  }

  /** Carving a block off segment s, which is segment i or about to become it. */
  lemma CarveKeeps(w: World, ps: nat, i: nat, s: Seg, size: nat, clear: bool)
    requires Inv(w, ps) && i < N_SEGMENTS
    requires (s == w.segs[i] && s.Shared()) || (s == FRESH && !w.segs[i].Mapped())
    requires size % 8 == 0 && 8 <= size && s.nref + size <= SEGMENT_SIZE
    requires FixedShape(s)
    ensures var b := Block(i, s.nref, size);
            var w' := Place(w, i, Carve(s, i, size, clear), b, i);
            Inv(w', ps) && b !in w.live && (clear ==> ZeroPayload(w'.segs[i], b.off, b.size))
  {
    if s == FRESH { FreshFacts(); }
    if !w.segs[i].Mapped() { NoneIn(w, ps, i); }
    assert CountOk(w, i) && CleanOk(w.segs[i]) && FlagOk(w, i);
    CarveFacts(s, i, size, clear);
    var t := Carve(s, i, size, clear);
    CarvedBlocks(w, ps, i, s, t, size);
    CarvedTable(w, ps, i, s, t, size);
    ArenaUntouched(w, Place(w, i, t, Block(i, s.nref, size), i), ps, i);
  }

  /** Changing a segment outside the arena leaves the arena as it was. */
  lemma ArenaUntouched(w: World, w': World, ps: nat, i: nat)
    requires LifoOk(w, ps) && i < |w.segs| && !(w.segs[i].Has(LIFO) && i <= w.lifoseg)
    requires w'.lifo == w.lifo && w'.lifoseg == w.lifoseg
    requires |w'.segs| == |w.segs| && !w'.segs[i].Has(LIFO)
    requires forall j :: 0 <= j < |w.segs| && j != i ==> w'.segs[j] == w.segs[j]
    ensures LifoOk(w', ps)
  {
    forall k | 0 <= k < |w.lifo| ensures LifoBlockOk(w', ps, k) {
      assert LifoBlockOk(w, ps, k);
    }
  }

  lemma OwnSegmentFacts(i: nat, size: nat, ps: nat)
    requires ps > 0 && ps % 8 == 0 && size >= 8 && size % 8 == 0
    ensures var s := OwnSegment(i, size, ps);
      && s.Has(VLEN) && !s.Has(LIFO) && s.Mapped() && Shape(s, ps) && size <= PageBytes(s.nref, ps)
      && 2 <= |s.mem| && s.mem[0] == i && s.mem[1] == Int32(size) && ZeroPayload(s, 0, size)
  {
    PagesCover(size, ps);
    var s := OwnSegment(i, size, ps);
    NewOwnFlags(s.mem, s.nref);
    OwnMemory(PageBytes(Pages(size, ps), ps), i, size);
  }

  lemma OwnMemory(bytes: nat, i: nat, size: nat)
    requires bytes % 8 == 0 && bytes >= size >= 8
    ensures var m := PutHeader(Zeros(bytes / 4), 0, i, size);
      4 * |m| == bytes && size / 4 <= |m| && forall k :: 2 <= k < size / 4 ==> m[k] == 0
  {
  }

  lemma NewOwnFlags(mem: seq<int>, nref: nat)
    ensures Seg(mem, nref, VLEN).Has(VLEN) && !Seg(mem, nref, VLEN).Has(LIFO)
  {
    FlagsOfNew();
    assert Seg([], 0, VLEN).Has(VLEN) == Seg(mem, nref, VLEN).Has(VLEN);
    assert Seg([], 0, VLEN).Has(LIFO) == Seg(mem, nref, VLEN).Has(LIFO);
  }

  /** A block with a segment of its own. */
  lemma LargeKeeps(w: World, ps: nat, i: nat, size: nat)
    requires Inv(w, ps) && i < N_SEGMENTS && !w.segs[i].Mapped() && 8 <= size < SIZE_T && size % 8 == 0
    ensures var b := Block(i, 0, size);
            var s := OwnSegment(i, size, ps);
            Inv(Place(w, i, s, b, -1), ps) && b !in w.live && ZeroPayload(s, 0, size)
  {
    var b := Block(i, 0, size);
    var s := OwnSegment(i, size, ps);
    OwnSegmentFacts(i, size, ps);
    NoneIn(w, ps, i);
    LargeBlocks(w, ps, i, s, b);
    LargeTable(w, ps, i, s, b);
    assert FlagOk(w, i);
    ArenaUntouched(w, Place(w, i, s, b, -1), ps, i);
  }

  lemma LargeBlocks(w: World, ps: nat, i: nat, s: Seg, b: Block)
    requires BlocksOk(w, ps) && i < |w.segs| && LiveIn(w.live, i) == {}
    requires b.seg == i && BlockOk(w.(segs := w.segs[i := s]), ps, b)
    ensures BlocksOk(Place(w, i, s, b, -1), ps) && b !in w.live
  {
    var w' := Place(w, i, s, b, -1);
    forall c | c in w.live ensures BlockOk(w', ps, c) && c.seg != i {
      assert BlockOk(w, ps, c);
      assert c.seg == i ==> c in LiveIn(w.live, i);
    }
  }

  lemma LargeTable(w: World, ps: nat, i: nat, s: Seg, b: Block)
    requires TableOk(w, ps) && i < N_SEGMENTS && !w.segs[i].Mapped()
    requires s.Has(VLEN) && !s.Has(LIFO) && Shape(s, ps) && b !in w.live && b.seg == i
    ensures TableOk(Place(w, i, s, b, -1), ps)
  {
    var w' := Place(w, i, s, b, -1);
    forall j | 0 <= j < N_SEGMENTS ensures CountOk(w', j) && CleanOk(w'.segs[j]) && FlagOk(w', j) {
      assert CountOk(w, j) && CleanOk(w.segs[j]) && FlagOk(w, j);
      OneMore(w.live, b, j);
    }
  }

  /** grn_ctx_alloc: a new block, apart from every live one, large enough for the request,
      and zero when asked for; a failure changes nothing. */
  lemma AllocKeeps(w: World, ps: nat, request: nat, clear: bool, mapOk: bool)
    requires Inv(w, ps) && request <= MAX_REQUEST
    ensures var (w', r) := Alloc(w, ps, request, clear, mapOk);
      && Inv(w', ps)
      && (r.None? ==> w' == w)
      && (r.Some? ==>
            var b := r.value;
            && b !in w.live && w'.live == w.live + {b} && w'.lifo == w.lifo
            && b.size >= request + 8
            && (clear ==> ZeroPayload(w'.segs[b.seg], b.off, b.size)))
  {
    RoundedFits(request);
    var size := Rounded(request);
    var i := FirstFree(w.segs, 0);
    if size > SEGMENT_SIZE {
      if i < N_SEGMENTS {
        LargeKeeps(w, ps, i, size);
      }
    } else if w.currseg >= 0 && size + w.segs[w.currseg].nref <= SEGMENT_SIZE {
      CarveKeeps(w, ps, w.currseg, w.segs[w.currseg], size, clear);
    } else if i < N_SEGMENTS {
      FreshFacts();
      CarveKeeps(w, ps, i, FRESH, size, clear);
    }
  }

  // ----- freeing an ordinary block -----

  /** Segment t is shared segment s with one block fewer. */
  predicate Lighter(s: Seg, t: Seg, isCurrent: bool) {
    if s.Low() > 1 then
      t.mem == s.mem && t.nref == s.nref && t.Shared() && SameFlags(s, t) && t.Low() == s.Low() - 1
    else if isCurrent then
      t.mem == s.mem && t.nref == 0 && t.Shared() && t.Has(DIRTY) && t.Low() == 0
    else
      t.mem == [] && !t.Has(LIFO)
  }

  lemma ReleasedFacts(s: Seg, isCurrent: bool)
    requires FixedShape(s) && s.Shared() && s.Low() > 0 && s.count > 0
    ensures Lighter(s, Released(s, isCurrent), isCurrent)
  {
    var t := s.(count := s.count - 1);
    CountUp(t, s);
    if !t.Has(DIRTY) {
      SetDirty(t, t.(count := t.count + DIRTY));
    }
    var r := Released(s, isCurrent);
    assert r.Has(LIFO) == r.(nref := 0).Has(LIFO);
  }

  lemma SharedHasCount(w: World, ps: nat, b: Block)
    requires TableOk(w, ps) && BlocksOk(w, ps) && b in w.live
    ensures b.seg < N_SEGMENTS && HeaderIntact(w, b) && !w.segs[b.seg].Has(LIFO)
    ensures !w.segs[b.seg].Has(VLEN) ==> w.segs[b.seg].Shared() && w.segs[b.seg].Low() > 0 && w.segs[b.seg].count > 0
  {
    assert BlockOk(w, ps, b) && CountOk(w, b.seg);
    assert b in LiveIn(w.live, b.seg);
  }

  lemma FreeSharedBlocks(w: World, ps: nat, b: Block, t: Seg)
    requires TableOk(w, ps) && BlocksOk(w, ps) && b in w.live && b.seg < N_SEGMENTS && w.segs[b.seg].Shared()
    requires Lighter(w.segs[b.seg], t, b.seg == w.currseg)
    ensures BlocksOk(w.(segs := w.segs[b.seg := t], live := w.live - {b}), ps)
  {
    var w' := w.(segs := w.segs[b.seg := t], live := w.live - {b});
    forall c | c in w'.live ensures BlockOk(w', ps, c) {
      assert BlockOk(w, ps, c) && CountOk(w, b.seg);
      if c.seg == b.seg {
        OneLess(w.live, b, b.seg);
        assert c in LiveIn(w'.live, b.seg);
      }
    }
  }

  lemma FreeSharedTable(w: World, ps: nat, b: Block, t: Seg)
    requires TableOk(w, ps) && BlocksOk(w, ps) && b in w.live && b.seg < N_SEGMENTS && w.segs[b.seg].Shared()
    requires Lighter(w.segs[b.seg], t, b.seg == w.currseg)
    ensures TableOk(w.(segs := w.segs[b.seg := t], live := w.live - {b}), ps)
  {
    var i := b.seg;
    var w' := w.(segs := w.segs[i := t], live := w.live - {b});
    assert BlockOk(w, ps, b);
    OneLess(w.live, b, i);
    assert Shape(w.segs[i], ps) && CountOk(w, i);
    forall j | 0 <= j < N_SEGMENTS ensures CountOk(w', j) && CleanOk(w'.segs[j]) && FlagOk(w', j) {
      assert CountOk(w, j) && CleanOk(w.segs[j]) && FlagOk(w, j);
      OneLess(w.live, b, j);
    }
  }

  lemma FreeOwnSegment(w: World, ps: nat, b: Block)
    requires Inv(w, ps) && b in w.live && b.seg < N_SEGMENTS
    requires w.segs[b.seg].Has(VLEN) && !w.segs[b.seg].Has(LIFO)
    ensures Inv(w.(segs := w.segs[b.seg := w.segs[b.seg].(mem := [])], live := w.live - {b}), ps)
  {
    var i := b.seg;
    var w' := w.(segs := w.segs[i := w.segs[i].(mem := [])], live := w.live - {b});
    assert BlockOk(w, ps, b);
    forall c | c in w'.live ensures BlockOk(w', ps, c) {
      assert BlockOk(w, ps, c) && Apart(b, c);
    }
    forall j | 0 <= j < N_SEGMENTS ensures CountOk(w', j) && CleanOk(w'.segs[j]) && FlagOk(w', j) {
      assert CountOk(w, j) && CleanOk(w.segs[j]) && FlagOk(w, j);
      OneLess(w.live, b, j);
    }
    ArenaUntouched(w, w', ps, i);
  }

  /** grn_ctx_free on a live block never reports an error, and reclaims the block's segment
      (rewinds it when current, unmaps it otherwise) exactly when no live block is left in it. */
  lemma FreeKeeps(w: World, ps: nat, b: Block)
    requires Inv(w, ps) && b in w.live
    ensures b.seg < N_SEGMENTS && HeaderIntact(w, b) && !w.segs[b.seg].Has(LIFO)
    ensures !w.segs[b.seg].Has(VLEN) ==> w.segs[b.seg].count > 0
    ensures var (w', ok) := Free(w, ps, b);
      && ok && Inv(w', ps) && w'.live == w.live - {b} && w'.lifo == w.lifo
      && (forall i :: 0 <= i < N_SEGMENTS && i != b.seg ==> w'.segs[i] == w.segs[i])
      && (w'.segs[b.seg].mem == w.segs[b.seg].mem || w'.segs[b.seg].mem == [])
      && (LiveIn(w'.live, b.seg) == {} <==> !w'.segs[b.seg].Mapped() || w'.segs[b.seg].nref == 0)
      && (LiveIn(w'.live, b.seg) == {} && b.seg == w.currseg ==> w'.segs[b.seg].Mapped())
  {
    SharedHasCount(w, ps, b);
    assert BlockOk(w, ps, b);
    var s := w.segs[b.seg];
    OneLess(w.live, b, b.seg);
    var w' := Free(w, ps, b).0;
    if s.Has(VLEN) {
      FreeOwnSegment(w, ps, b);
      NoneIn(w', ps, b.seg);
    } else {
      ReleasedFacts(s, b.seg == w.currseg);
      var t := Released(s, b.seg == w.currseg);
      FreeSharedBlocks(w, ps, b, t);
      FreeSharedTable(w, ps, b, t);
      ArenaUntouched(w, w', ps, b.seg);
      assert CountOk(w, b.seg);
    }
  }

  // ----- writing inside a block -----

  /** Word k of segment `seg` belongs to the payload of live block b. */
  predicate InPayload(b: Block, seg: nat, k: int) {
    seg == b.seg && b.off / 4 + 2 <= k < (b.off + b.size) / 4
  }

  /** Rewriting the payload of a live block keeps the invariant. */
  lemma WriteKeeps(w: World, ps: nat, b: Block, mem: seq<int>)
    requires Inv(w, ps) && b in w.live && b.seg < |w.segs| && |mem| == |w.segs[b.seg].mem|
    requires forall k :: 0 <= k < |mem| && !InPayload(b, b.seg, k) ==> mem[k] == w.segs[b.seg].mem[k]
    ensures Inv(SetMem(w, b.seg, mem), ps)
  {
    var w' := SetMem(w, b.seg, mem);
    assert BlockOk(w, ps, b);
    assert SameFlags(w.segs[b.seg], w'.segs[b.seg]);
    forall c | c in w'.live ensures BlockOk(w', ps, c) {
      assert BlockOk(w, ps, c) && (c == b || Apart(b, c));
    }
    forall j | 0 <= j < N_SEGMENTS ensures CountOk(w', j) && CleanOk(w'.segs[j]) && FlagOk(w', j) {
      assert CountOk(w, j) && CleanOk(w.segs[j]) && FlagOk(w, j);
    }
    ArenaUntouched(w, w', ps, b.seg);
  }
}
