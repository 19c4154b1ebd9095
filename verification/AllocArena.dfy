/** The LIFO arena: allocation at the top, and freeing down to a block. */
module AllocArena {
  import opened Wrappers
  import opened AllocModel
  import opened AllocInvariant
  import opened AllocSteps

  // ----- allocation -----

  /** Ordinary blocks do not notice a change of an arena segment. */
  lemma BlocksUntouched(w: World, w': World, ps: nat, i: nat)
    requires BlocksOk(w, ps) && i < |w.segs| && !w.segs[i].Ordinary()
    requires w'.live == w.live && |w'.segs| == |w.segs|
    requires forall j :: 0 <= j < |w.segs| && j != i ==> w'.segs[j] == w.segs[j]
    ensures BlocksOk(w', ps)
  {
    forall b | b in w'.live ensures BlockOk(w', ps, b) {
      assert BlockOk(w, ps, b);
    }
  }

  lemma PushTable(w: World, ps: nat, i: nat, s: Seg, b: Block)
    requires TableOk(w, ps) && w.lifoseg <= i < N_SEGMENTS && !w.segs[i].Ordinary()
    requires forall j :: w.lifoseg < j < i ==> w.segs[j].Mapped()
    requires s.Mapped() && s.Has(LIFO) && Shape(s, ps)
    ensures TableOk(PlaceLifo(w, i, s, b), ps)
  {
    var w' := PlaceLifo(w, i, s, b);
    forall j | 0 <= j < N_SEGMENTS ensures CountOk(w', j) && CleanOk(w'.segs[j]) && FlagOk(w', j) {
      assert CountOk(w, j) && CleanOk(w.segs[j]) && FlagOk(w, j);
    }
  }

  lemma PushArena(w: World, w': World, i: nat, b: Block)
    requires b.seg == i && w'.lifo == w.lifo + [b] && w.lifoseg <= i < |w.segs| == |w'.segs|
    requires forall j :: 0 <= j < i && w'.segs[j].Has(LIFO) ==> j <= w.lifoseg && w.segs[j].Has(LIFO)
    requires forall j :: 0 <= j <= w.lifoseg && w.segs[j].Has(LIFO) ==> InArena(w.lifo, j)
    ensures forall j :: 0 <= j <= i && w'.segs[j].Has(LIFO) ==> InArena(w'.lifo, j)
  {
    forall j | 0 <= j <= i && w'.segs[j].Has(LIFO) ensures InArena(w'.lifo, j) {
      if j == i {
        assert w'.lifo[|w.lifo|].seg == j;
      } else {
        var k :| 0 <= k < |w.lifo| && w.lifo[k].seg == j;
        assert w'.lifo[k].seg == j;
      }
    }
  }

  /** A new arena segment s at i, the first free index above the arena, with block b. */
  lemma PushSegment(w: World, ps: nat, i: nat, s: Seg, b: Block)
    requires Inv(w, ps) && i == FirstFree(w.segs, w.lifoseg + 1) < N_SEGMENTS
    requires s.Mapped() && s.Has(LIFO) && Shape(s, ps)
    requires b.seg == i && b.off == 0 && Inside(b, s, ps)
    requires !s.Has(VLEN) ==> s.nref == b.size
    ensures Inv(PlaceLifo(w, i, s, b), ps)
  {
    var w' := PlaceLifo(w, i, s, b);
    BlocksUntouched(w, w', ps, i);
    PushTable(w, ps, i, s, b);
    assert forall j :: 0 <= j < N_SEGMENTS ==> FlagOk(w, j);
    PushChain(w, w', ps, i, s, b);
    PushOrder(w, ps, b);
    PushArena(w, w', i, b);
  }

  lemma PushChain(w: World, w': World, ps: nat, i: nat, s: Seg, b: Block)
    requires LifoOk(w, ps) && w.lifoseg < i < |w.segs| && w' == PlaceLifo(w, i, s, b)
    requires s.Has(LIFO) && b.seg == i && b.off == 0 && Inside(b, s, ps)
    requires !s.Has(VLEN) ==> s.nref == b.size
    ensures forall k :: 0 <= k < |w'.lifo| ==> LifoBlockOk(w', ps, k)
  {
    forall k | 0 <= k < |w'.lifo| ensures LifoBlockOk(w', ps, k) {
      if k < |w.lifo| {
        assert LifoBlockOk(w, ps, k);
        BlockBelow(w, w', ps, i, b, k);
      } else {
        BlockOnTop(w, w', ps, i, s, b);
      }
    }
  }

  lemma PushOrder(w: World, ps: nat, b: Block)
    requires LifoOk(w, ps) && w.lifoseg < b.seg
    ensures forall j, k :: 0 <= j < k < |w.lifo| + 1 ==> After((w.lifo + [b])[j], (w.lifo + [b])[k])
  {
    forall k | 0 <= k < |w.lifo| ensures After(w.lifo[k], b) { assert LifoBlockOk(w, ps, k); }
  }

  lemma BlockOnTop(w: World, w': World, ps: nat, i: nat, s: Seg, b: Block)
    requires i < |w'.segs| && w'.segs[i] == s && w'.lifo == w.lifo + [b] && w'.lifoseg == i
    requires s.Has(LIFO) && b.seg == i && b.off == 0 && Inside(b, s, ps)
    requires !s.Has(VLEN) ==> s.nref == b.size
    requires w.lifo != [] ==> w.lifo[|w.lifo| - 1].seg < i
    ensures LifoBlockOk(w', ps, |w.lifo|)
  {
  }

  /** A block below a new arena segment stays as it was. */
  lemma BlockBelow(w: World, w': World, ps: nat, i: nat, b: Block, k: nat)
    requires k < |w.lifo| && LifoBlockOk(w, ps, k) && w.lifoseg < i < |w.segs| == |w'.segs| && b.seg == i
    requires w'.lifo == w.lifo + [b] && w'.lifoseg == i
    requires w'.segs[w.lifo[k].seg] == w.segs[w.lifo[k].seg]
    ensures LifoBlockOk(w', ps, k)
  {
    assert Last(w'.lifo, k) == Last(w.lifo, k);
  }

  /** One more block in the top segment of the arena. */
  lemma PushBlock(w: World, ps: nat, s: Seg, t: Seg, size: nat)
    requires Inv(w, ps) && w.lifoseg >= 0 && size % 8 == 0 && s == w.segs[w.lifoseg]
    requires !s.Has(VLEN) && size + s.nref <= SEGMENT_SIZE
    requires t == s.(nref := s.nref + size) && SameFlags(s, t)
    ensures Inv(PlaceLifo(w, w.lifoseg, t, Block(w.lifoseg, s.nref, size)), ps)
  {
    var l := w.lifoseg;
    var b := Block(l, s.nref, size);
    var w' := PlaceLifo(w, l, t, b);
    BlocksUntouched(w, w', ps, l);
    assert Shape(s, ps);
    PushTable(w, ps, l, t, b);
    forall k | 0 <= k < |w'.lifo| ensures LifoBlockOk(w', ps, k) {
      PushedBlock(w, w', ps, k, size);
    }
    PushArena(w, w', l, b);
    assert LifoBlockOk(w, ps, |w.lifo| - 1);
  }

  lemma PushedBlock(w: World, w': World, ps: nat, k: nat, size: nat)
    requires LifoOk(w, ps) && 0 <= w.lifoseg < |w.segs| == |w'.segs| && k <= |w.lifo|
    requires !w.segs[w.lifoseg].Has(VLEN) && SameFlags(w.segs[w.lifoseg], w'.segs[w.lifoseg])
    requires size % 8 == 0 && w'.segs[w.lifoseg].nref == w.segs[w.lifoseg].nref + size
    requires w'.lifo == w.lifo + [Block(w.lifoseg, w.segs[w.lifoseg].nref, size)]
    requires forall j :: 0 <= j < |w.segs| && j != w.lifoseg ==> w'.segs[j] == w.segs[j]
    requires w'.lifoseg == w.lifoseg && w.segs[w.lifoseg].nref % 8 == 0
    ensures LifoBlockOk(w', ps, k)
  {
    var n := |w.lifo|;
    assert LifoBlockOk(w, ps, n - 1);
    if k < n {
      assert LifoBlockOk(w, ps, k);
      if k + 1 < n {
        assert Last(w'.lifo, k) == Last(w.lifo, k);
        assert After(w.lifo[k], w.lifo[k + 1]);
        if k + 1 < n - 1 { assert After(w.lifo[k + 1], w.lifo[n - 1]); }
      }
    }
  }

  lemma NewArenaFlags(mem: seq<int>, nref: nat)
    ensures Seg(mem, nref, VLEN + LIFO).Has(VLEN) && Seg(mem, nref, VLEN + LIFO).Has(LIFO)
    ensures !Seg(mem, nref, WORD + LIFO).Has(VLEN) && Seg(mem, nref, WORD + LIFO).Has(LIFO)
  {
    FlagsOfNew();
    assert Seg([], 0, VLEN + LIFO).Has(VLEN) == Seg(mem, nref, VLEN + LIFO).Has(VLEN);
    assert Seg([], 0, VLEN + LIFO).Has(LIFO) == Seg(mem, nref, VLEN + LIFO).Has(LIFO);
    assert Seg([], 0, WORD + LIFO).Has(VLEN) == Seg(mem, nref, WORD + LIFO).Has(VLEN);
    assert Seg([], 0, WORD + LIFO).Has(LIFO) == Seg(mem, nref, WORD + LIFO).Has(LIFO);
  }

  lemma OwnArenaSegmentFacts(request: nat, ps: nat)
    requires ps > 0 && ps % 8 == 0 && request > 0
    ensures var s := OwnArenaSegment(request, ps);
            s.Mapped() && s.Has(LIFO) && s.Has(VLEN) && Shape(s, ps) && request <= PageBytes(s.nref, ps)
  {
    PagesCover(request, ps);
    var s := OwnArenaSegment(request, ps);
    NewArenaFlags(s.mem, s.nref);
  }

  lemma AlignFits(request: nat)
    requires request <= SEGMENT_SIZE
    ensures request <= Align(request) <= SEGMENT_SIZE && Align(request) % 8 == 0 && Align(request) < request + 8
  {
  }

  /** grn_ctx_alloc_lifo: one more block on top of the arena, or nothing changes. */
  lemma AllocLifoKeeps(w: World, ps: nat, request: nat, mapOk: bool)
    requires Inv(w, ps) && request <= MAX_REQUEST
    ensures var (w', r) := AllocLifo(w, ps, request, mapOk);
      && Inv(w', ps) && w'.live == w.live
      && (r.None? ==> w' == w)
      && (r.Some? ==> w'.lifo == w.lifo + [r.value] && r.value.size >= request)
  {
    var i := FirstFree(w.segs, w.lifoseg + 1);
    if request > SEGMENT_SIZE {
      if i < N_SEGMENTS {
        OwnArenaSegmentFacts(request, ps);
        PushSegment(w, ps, i, OwnArenaSegment(request, ps), Block(i, 0, request));
      }
    } else {
      var size := Align(request);
      AlignFits(request);
      if w.lifoseg >= 0 && !w.segs[w.lifoseg].Has(VLEN) && size + w.segs[w.lifoseg].nref <= SEGMENT_SIZE {
        var s := w.segs[w.lifoseg];
        PushBlock(w, ps, s, s.(nref := s.nref + size), size);
      } else if i < N_SEGMENTS {
        NewArenaFlags(Zeros(SEGMENT_SIZE / 4), size);
        PushSegment(w, ps, i, Seg(Zeros(SEGMENT_SIZE / 4), size, WORD + LIFO), Block(i, 0, size));
      }
    }
  }

  // ----- freeing -----

  lemma {:induction false} UnwindAbove(segs: seq<Seg>, i: int, done: bool, seg: nat, off: nat, ps: nat)
    requires -1 <= i && LifoShaped(segs, i, ps)
    ensures forall j :: i < j < |segs| ==> Unwind(segs, i, done, seg, off, ps).0[j] == segs[j]
    decreases i + 1
  {
    if i >= 0 && !segs[i].Has(LIFO) {
      UnwindAbove(segs, i - 1, done, seg, off, ps);
    } else if i >= 0 && !done {
      var next := segs[i := segs[i].(mem := [])];
      UnwindAbove(next, i - 1, i == seg && off == 0, seg, off, ps);
    }
  }

  lemma {:induction false} UnwindDone(segs: seq<Seg>, i: int, seg: nat, off: nat, ps: nat)
    requires -1 <= i && LifoShaped(segs, i, ps)
    ensures var (segs', l) := Unwind(segs, i, true, seg, off, ps);
      && segs' == segs
      && (l >= 0 ==> segs[l].Has(LIFO))
      && (forall j :: l < j <= i ==> !segs[j].Has(LIFO))
    decreases i + 1
  {
    if i >= 0 && !segs[i].Has(LIFO) {
      UnwindDone(segs, i - 1, seg, off, ps);
    }
  }

  /** Segment j after the arena above (seg, off), up to segment i, is given back. */
  function CutAt(s: Seg, j: nat, i: int, seg: nat, off: nat): Seg {
    if j > i || j < seg || !s.Has(LIFO) then s
    else if j == seg && off > 0 then s.(nref := off)
    else s.(mem := [])
  }

  /** The pointer is the start of arena segment `seg` or strictly inside its used part. */
  predicate Hits(segs: seq<Seg>, seg: nat, off: nat) requires seg < |segs| {
    segs[seg].Has(LIFO) && (off == 0 || (!segs[seg].Has(VLEN) && off < segs[seg].nref))
  }

  lemma {:induction false} UnwindHit(segs: seq<Seg>, i: int, seg: nat, off: nat, ps: nat)
    requires seg <= i && LifoShaped(segs, i, ps) && Hits(segs, seg, off)
    ensures var (segs', l) := Unwind(segs, i, false, seg, off, ps);
      && (forall j :: 0 <= j < |segs| ==> segs'[j] == CutAt(segs[j], j, i, seg, off))
      && (off > 0 ==> l == seg)
      && (off == 0 ==> l < seg && (l >= 0 ==> segs[l].Has(LIFO)) && forall j :: l < j < seg ==> !segs[j].Has(LIFO))
    decreases i
  {
    if i > seg {
      if segs[i].Has(LIFO) {
        var next := segs[i := segs[i].(mem := [])];
        assert next[i].Has(LIFO) == segs[i].Has(LIFO);
        UnwindHit(next, i - 1, seg, off, ps);
      } else {
        UnwindHit(segs, i - 1, seg, off, ps);
      }
    } else {
      UnwindHere(segs, i, off, ps);
    }
  }

  lemma UnwindHere(segs: seq<Seg>, seg: nat, off: nat, ps: nat)
    requires LifoShaped(segs, seg, ps) && Hits(segs, seg, off)
    ensures var (segs', l) := Unwind(segs, seg, false, seg, off, ps);
      && (forall j :: 0 <= j < |segs| ==> segs'[j] == CutAt(segs[j], j, seg, seg, off))
      && (off > 0 ==> l == seg)
      && (off == 0 ==> l < seg && (l >= 0 ==> segs[l].Has(LIFO)) && forall j :: l < j < seg ==> !segs[j].Has(LIFO))
  {
    if off == 0 { UnwindDone(segs[seg := segs[seg].(mem := [])], seg - 1, seg, off, ps); }
  }

  lemma {:induction false} UnwindMiss(segs: seq<Seg>, i: int, seg: nat, off: nat, ps: nat)
    requires seg <= i && LifoShaped(segs, i, ps) && segs[seg].Has(LIFO) && !Hits(segs, seg, off)
    ensures !Unwind(segs, i, false, seg, off, ps).0[seg].Mapped()
    decreases i
  {
    var next := segs[i := segs[i].(mem := [])];
    assert next[i].Has(LIFO) == segs[i].Has(LIFO);
    if i > seg {
      if segs[i].Has(LIFO) {
        UnwindMiss(next, i - 1, seg, off, ps);
      } else {
        UnwindMiss(segs, i - 1, seg, off, ps);
      }
    } else {
      UnwindAbove(next, i - 1, false, seg, off, ps);
    }
  }

  /** Block k is the first of its segment, or starts strictly inside the used part.
      Every block of positive size behaves so. */
  predicate Exact(w: World, k: nat) requires k < |w.lifo| && w.lifo[k].seg < |w.segs| {
    if w.lifo[k].off == 0 then k == 0 || w.lifo[k - 1].seg < w.lifo[k].seg
    else w.lifo[k].off < w.segs[w.lifo[k].seg].nref
  }

  ghost predicate EarlierKept(w: World, w': World, ps: nat, k: nat) requires k <= |w.lifo| {
    forall j :: 0 <= j < k ==>
      var b := w.lifo[j];
      b.seg < |w'.segs| && w'.segs[b.seg].Mapped() && Inside(b, w'.segs[b.seg], ps)
  }

  lemma PositiveIsExact(w: World, ps: nat, k: nat)
    requires Inv(w, ps) && k < |w.lifo|
    requires forall j :: 0 <= j < |w.lifo| ==> w.lifo[j].size > 0
    ensures w.lifo[k].seg < |w.segs| && Exact(w, k)
  {
    assert LifoBlockOk(w, ps, k);
    if k > 0 { assert After(w.lifo[k - 1], w.lifo[k]); }
  }

  lemma ArenaShaped(w: World, ps: nat)
    requires TableOk(w, ps)
    ensures LifoShaped(w.segs, w.lifoseg, ps)
  {
    forall j | 0 <= j <= w.lifoseg && w.segs[j].Has(LIFO) ensures w.segs[j].Mapped() && Shape(w.segs[j], ps) {
      assert FlagOk(w, j);
    }
  }

  /** The arena segment just below the segment of block k, when k is the first there. */
  lemma BelowIsTop(w: World, ps: nat, k: nat, l: int)
    requires LifoOk(w, ps) && k < |w.lifo| && w.lifo[k].seg <= |w.segs| && -1 <= l < w.lifo[k].seg
    requires k == 0 || w.lifo[k - 1].seg < w.lifo[k].seg
    requires l >= 0 ==> w.segs[l].Has(LIFO)
    requires forall j :: l < j < w.lifo[k].seg ==> !w.segs[j].Has(LIFO)
    ensures l == TopSeg(w.lifo[..k])
  {
    assert LifoBlockOk(w, ps, k);
    if k > 0 { assert LifoBlockOk(w, ps, k - 1); }
    if l >= 0 {
      var m :| 0 <= m < |w.lifo| && w.lifo[m].seg == l;
      assert m > k ==> After(w.lifo[k], w.lifo[m]);
      assert m < k - 1 ==> After(w.lifo[m], w.lifo[k - 1]);
    }
  }

  lemma FreedTable(w: World, w': World, ps: nat, seg: nat, off: nat)
    requires TableOk(w, ps) && seg <= w.lifoseg && Hits(w.segs, seg, off) && off % 8 == 0
    requires w'.live == w.live && w'.currseg == w.currseg && |w'.segs| == |w.segs|
    requires forall j :: 0 <= j < N_SEGMENTS ==> w'.segs[j] == CutAt(w.segs[j], j, w.lifoseg, seg, off)
    requires -1 <= w'.lifoseg <= seg && (off > 0 ==> w'.lifoseg == seg)
    requires off == 0 ==> w'.lifoseg < seg && (w'.lifoseg >= 0 ==> w.segs[w'.lifoseg].Has(LIFO))
    requires off == 0 ==> forall j :: w'.lifoseg < j < seg ==> !w.segs[j].Has(LIFO)
    ensures TableOk(w', ps)
  {
    forall j | 0 <= j < N_SEGMENTS
      ensures CountOk(w', j) && CleanOk(w'.segs[j]) && FlagOk(w', j) && SameFlags(w.segs[j], w'.segs[j])
      ensures w'.segs[j].Mapped() ==> Shape(w'.segs[j], ps)
    {
      assert CountOk(w, j) && CleanOk(w.segs[j]) && FlagOk(w, j);
      assert SameFlags(w.segs[j], w'.segs[j]);
    }
    if w.currseg >= 0 { assert w'.segs[w.currseg] == w.segs[w.currseg]; }
    if w'.lifoseg >= 0 { assert FlagOk(w', w'.lifoseg); }
  }

  lemma FreedArena(w: World, w': World, ps: nat, k: nat)
    requires LifoOk(w, ps) && k < |w.lifo| && w.lifo[k].seg < |w.segs| == |w'.segs| && Exact(w, k)
    requires w'.lifo == w.lifo[..k] && w'.lifoseg == TopSeg(w'.lifo)
    requires forall j :: 0 <= j < |w.segs| ==>
               w'.segs[j] == CutAt(w.segs[j], j, w.lifoseg, w.lifo[k].seg, w.lifo[k].off)
    ensures LifoOk(w', ps)
  {
    assert LifoBlockOk(w, ps, k);
    forall j | 0 <= j < k ensures LifoBlockOk(w', ps, j) {
      assert LifoBlockOk(w, ps, j) && After(w.lifo[j], w.lifo[k]);
      assert SameFlags(w.segs[w.lifo[j].seg], w'.segs[w.lifo[j].seg]);
      assert j + 1 < k ==> Last(w'.lifo, j) == Last(w.lifo, j);
      assert j < k - 1 ==> After(w.lifo[j], w.lifo[k - 1]);
    }
    forall i | 0 <= i <= w'.lifoseg && w'.segs[i].Has(LIFO) ensures InArena(w'.lifo, i) {
      assert SameFlags(w.segs[i], w'.segs[i]);
      var m :| 0 <= m < |w.lifo| && w.lifo[m].seg == i;
      if m < k {
        assert w'.lifo[m].seg == i;
      } else {
        assert m > k ==> After(w.lifo[k], w.lifo[m]);
        assert w'.lifo[k - 1].seg == i;
      }
    }
  }

  /** grn_ctx_free_lifo on block k gives back exactly block k and every later one: those
      before it stay where they are and no ordinary segment changes. */
  lemma FreeLifoKeeps(w: World, ps: nat, k: nat)
    requires Inv(w, ps) && k < |w.lifo|
    requires w.lifo[k].seg < |w.segs| && Exact(w, k)
    ensures LifoShaped(w.segs, w.lifoseg, ps)
    ensures var w' := FreeLifo(w, ps, k);
      && Inv(w', ps) && w'.live == w.live && w'.lifo == w.lifo[..k]
      && (forall j :: 0 <= j < N_SEGMENTS ==>
            w'.segs[j] == CutAt(w.segs[j], j, w.lifoseg, w.lifo[k].seg, w.lifo[k].off))
  {
    ArenaShaped(w, ps);
    assert LifoBlockOk(w, ps, k);
    var seg, off := w.lifo[k].seg, w.lifo[k].off;
    var w' := FreeLifo(w, ps, k);
    UnwindHit(w.segs, w.lifoseg, seg, off, ps);
    FreedTable(w, w', ps, seg, off);
    if off == 0 { BelowIsTop(w, ps, k, w'.lifoseg); }
    FreedArena(w, w', ps, k);
    forall b | b in w'.live ensures BlockOk(w', ps, b) {
      assert BlockOk(w, ps, b);
    }
  }

  /** Exactly when freeing a LIFO block leaves the earlier ones mapped and in place. */
  lemma FreeLifoExactly(w: World, ps: nat, k: nat)
    requires Inv(w, ps) && k < |w.lifo|
    ensures w.lifo[k].seg < |w.segs| && LifoShaped(w.segs, w.lifoseg, ps)
    ensures EarlierKept(w, FreeLifo(w, ps, k), ps, k) <==> Exact(w, k)
  {
    ArenaShaped(w, ps);
    assert LifoBlockOk(w, ps, k);
    var b := w.lifo[k];
    var w' := FreeLifo(w, ps, k);
    if Exact(w, k) {
      FreeLifoKeeps(w, ps, k);
      forall j | 0 <= j < k ensures w'.segs[w.lifo[j].seg].Mapped() && Inside(w.lifo[j], w'.segs[w.lifo[j].seg], ps) {
        assert LifoBlockOk(w', ps, j) && FlagOk(w', w.lifo[j].seg);
      }
    } else {
      if b.off == 0 { UnwindHit(w.segs, w.lifoseg, b.seg, b.off, ps); }
      else { UnwindMiss(w.segs, w.lifoseg, b.seg, b.off, ps); }
      if k > 0 { assert After(w.lifo[k - 1], b); }
      assert !w'.segs[w.lifo[k - 1].seg].Mapped();
    }
  }
}
