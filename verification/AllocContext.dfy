/** The allocator as it runs: a context object that updates its segment table in place. */
module AllocContext {
  import opened Wrappers
  import opened AllocModel
  import opened AllocInvariant
  import opened AllocSteps
  import opened AllocArena
  import opened AllocRuns

  class Context {
    const pageSize: nat
    const segs: array<Seg>
    var currseg: int
    var lifoseg: int
    ghost var live: set<Block>
    ghost var lifo: seq<Block>

    ghost function View(): World
      reads this, segs
    {
      World(segs[..], currseg, lifoseg, live, lifo)
    }

    /** Every mapped segment's recorded extent is the extent of its mapping. */
    ghost predicate Valid()
      reads this, segs
    {
      segs.Length == N_SEGMENTS && Sane(View(), pageSize)
    }

    constructor (pageSize: nat)
      requires pageSize > 0 && pageSize % 8 == 0
      ensures Valid() && Inv(View(), pageSize) && fresh(segs) && View() == Start() && this.pageSize == pageSize
    {
      this.pageSize := pageSize;
      segs := new Seg[N_SEGMENTS](_ => EMPTY);
      currseg, lifoseg := -1, -1;
      live, lifo := {}, [];
      new;
      assert segs[..] == Start().segs;
      StartOk(pageSize);
    }

    /** The first unmapped segment at or after `from`. */
    method FindFree(from: nat) returns (i: nat)
      requires from <= segs.Length
      ensures i == FirstFree(segs[..], from)
    {
      i := from;
      while i < segs.Length && segs[i].Mapped()
        invariant from <= i <= segs.Length
        invariant FirstFree(segs[..], i) == FirstFree(segs[..], from)
      {
        i := i + 1;
      }
    }

    /** grn_ctx_alloc */
    method Malloc(request: nat, clear: bool, mapOk: bool) returns (r: Option<Block>)
      requires Valid() && request <= MAX_REQUEST
      modifies this, segs
      ensures (View(), r) == Alloc(old(View()), pageSize, request, clear, mapOk)
    {
      ghost var w := View();
      var size := Rounded(request);
      RoundedFits(request);
      r := None;
      if size > SEGMENT_SIZE {
        var npages := Pages(size, pageSize);
        if npages >= MAX_PAGES { return; }
        var i := FindFree(0);
        if i >= N_SEGMENTS || !mapOk { return; }
        segs[i] := OwnSegment(i, size, pageSize);
        currseg := -1;
        r := Some(Block(i, 0, size));
      } else {
        var i := currseg;
        if i < 0 || size + segs[i].nref > SEGMENT_SIZE {
          i := FindFree(0);
          if i >= N_SEGMENTS || !mapOk { return; }
          segs[i] := FRESH;
          currseg := i;
        }
        var s := segs[i];
        r := Some(Block(i, s.nref, size));
        FreshFacts();
        segs[i] := Carve(s, i, size, clear);
      }
      live := live + {r.value};
      assert segs[..] == Alloc(w, pageSize, request, clear, mapOk).0.segs;
    }

    /** grn_ctx_free on the pointer of block b. */
    method Release(b: Block) returns (ok: bool)
      requires Valid() && HeaderIntact(View(), b) && segs[b.seg].Ordinary()
      requires !segs[b.seg].Has(VLEN) ==> segs[b.seg].count > 0
      modifies this, segs
      ensures (View(), ok) == Free(old(View()), pageSize, b)
    {
      ok := true;
      var i := segs[b.seg].mem[b.off / 4];
      if i >= N_SEGMENTS { ok := false; return; }
      var s := segs[i];
      if s.Has(VLEN) {
        if b.off != 0 { ok := false; return; }
        segs[i] := Unmapped(s, PageBytes(s.nref, pageSize));
      } else {
        if !s.Mapped() { ok := false; return; }
        var t := s.(count := s.count - 1);
        if t.Low() == 0 {
          if i == currseg {
            t := t.(count := if t.Has(DIRTY) then t.count else t.count + DIRTY, nref := 0);
          } else {
            t := Unmapped(t, SEGMENT_SIZE);
          }
        }
        segs[i] := t;
      }
      live := live - {b};
    }

    /** grn_ctx_realloc; a null pointer is None. */
    method Resize(p: Option<Block>, request: nat, mapOk: bool, past: int) returns (r: Option<Block>)
      requires Valid() && Inv(View(), pageSize) && request <= MAX_REQUEST && (p.Some? ==> p.value in live)
      modifies this, segs
      ensures (View(), r) == Realloc(old(View()), pageSize, p, request, mapOk, past)
    {
      ghost var w := View();
      r := None;
      if request == 0 {
        if p.Some? {
          FreeKeeps(w, pageSize, p.value);
          assert BlockOk(w, pageSize, p.value);
          var _ := Release(p.value);
        }
        return;
      }
      AllocKeeps(w, pageSize, request, false, mapOk);
      r := Malloc(request, false, mapOk);
      if r.None? || p.None? { return; }
      Move(p.value, r.value, request, past);
    }

    /** memcpy between the payloads of two blocks. */
    method CopyPayload(b: Block, c: Block, n: nat, past: int)
      requires segs.Length == N_SEGMENTS && b.seg < N_SEGMENTS && c.seg < N_SEGMENTS
      modifies segs
      ensures View() == Copy(old(View()), b, c, n, past)
    {
      var mem := segs[b.seg].mem;
      var from := b.off / 4 + 2;
      var source := seq((n + 3) / 4, j requires 0 <= j => if from + j < |mem| then mem[from + j] else past);
      assert source == Payload(View(), b, (n + 3) / 4, past);
      ghost var w := View();
      segs[c.seg] := segs[c.seg].(mem := CopyMem(segs[c.seg].mem, c.off / 4 + 2, n, source));
      assert segs[..] == Copy(w, b, c, n, past).segs;
    }

    /** The copy and the free of grn_ctx_realloc. */
    method Move(b: Block, c: Block, request: nat, past: int)
      requires Valid() && Inv(View(), pageSize) && b in live && c in live && b != c && request + 8 <= c.size
      modifies this, segs
      ensures View() == AllocRuns.Move(old(View()), pageSize, b, c, request, past)
    {
      ghost var w := View();
      SharedHasCount(w, pageSize, b);
      var size := segs[b.seg].mem[b.off / 4 + 1] % SIZE_T;
      var n := if size > request then request else size;
      CopyKeeps(w, pageSize, b, c, n, past);
      CopyPayload(b, c, n, past);
      FreeKeeps(View(), pageSize, b);
      assert BlockOk(View(), pageSize, b);
      var _ := Release(b);
    }

    /** grn_ctx_alloc_lifo */
    method PushLifo(request: nat, mapOk: bool) returns (r: Option<Block>)
      requires Valid() && request <= MAX_REQUEST
      modifies this, segs
      ensures (View(), r) == AllocLifo(old(View()), pageSize, request, mapOk)
    {
      ghost var w := View();
      r := None;
      if request > SEGMENT_SIZE {
        var npages := Pages(request, pageSize);
        if npages >= MAX_PAGES { return; }
        var i := FindFree(lifoseg + 1);
        if i >= N_SEGMENTS || !mapOk { return; }
        segs[i] := OwnArenaSegment(request, pageSize);
        lifoseg := i;
        r := Some(Block(i, 0, request));
      } else {
        var size := Align(request);
        if lifoseg < 0 || segs[lifoseg].Has(VLEN) || size + segs[lifoseg].nref > SEGMENT_SIZE {
          var i := FindFree(lifoseg + 1);
          if i >= N_SEGMENTS || !mapOk { return; }
          segs[i] := Seg(Zeros(SEGMENT_SIZE / 4), 0, WORD + LIFO);
          lifoseg := i;
        }
        r := Some(Block(lifoseg, segs[lifoseg].nref, size));
        segs[lifoseg] := segs[lifoseg].(nref := segs[lifoseg].nref + size);
      }
      lifo := lifo + [r.value];
      assert segs[..] == AllocLifo(w, pageSize, request, mapOk).0.segs;
    }

    /** grn_ctx_free_lifo on the pointer (seg, off) of LIFO block k. */
    method PopLifo(seg: nat, off: nat, ghost k: nat)
      requires Valid() && k < |lifo| && lifo[k].seg == seg && lifo[k].off == off
      requires LifoShaped(segs[..], lifoseg, pageSize)
      modifies this, segs
      ensures View() == FreeLifo(old(View()), pageSize, k)
    {
      ghost var w := View();
      var i, done := lifoseg, false;
      while i >= 0
        invariant -1 <= i < N_SEGMENTS && LifoShaped(segs[..], i, pageSize)
        invariant currseg == w.currseg && live == w.live && lifo == w.lifo
        invariant Unwind(segs[..], i, done, seg, off, pageSize) == Unwind(w.segs, w.lifoseg, false, seg, off, pageSize)
        decreases i
      {
        ghost var now := segs[..];
        if segs[i].Has(LIFO) {
          if done { break; }
          var s := segs[i];
          if s.Has(VLEN) {
            done := i == seg && off == 0;
            segs[i] := Unmapped(s, PageBytes(s.nref, pageSize));
          } else {
            if i == seg && off == 0 {
              done := true;
            } else if i == seg && 0 < off < s.nref {
              segs[i] := s.(nref := off);
              assert segs[..] == now[i := s.(nref := off)];
              assert (segs[..], i) == Unwind(w.segs, w.lifoseg, false, seg, off, pageSize);
              break;
            }
            segs[i] := Unmapped(s, SEGMENT_SIZE);
          }
          assert segs[..] == now[i := s.(mem := [])];
        }
        i := i - 1;
      }
      lifoseg := i;
      lifo := lifo[..k];
    }

    /** grn_alloc_fin_ctx_impl: every mapped segment is unmapped once, with its whole extent. */
    method Finish() returns (unmaps: seq<(nat, nat)>)
      requires Valid()
      ensures forall i: nat, bytes: nat ::
                (i, bytes) in unmaps <==> i < N_SEGMENTS && segs[i].Mapped() && bytes == 4 * |segs[i].mem|
      ensures forall j, k :: 0 <= j < k < |unmaps| ==> unmaps[j].0 < unmaps[k].0
    {
      unmaps := [];
      for i := 0 to segs.Length
        invariant forall j: nat, bytes: nat ::
                    (j, bytes) in unmaps <==> j < i && segs[j].Mapped() && bytes == 4 * |segs[j].mem|
        invariant forall j, k :: 0 <= j < k < |unmaps| ==> unmaps[j].0 < unmaps[k].0
        invariant forall k :: 0 <= k < |unmaps| ==> unmaps[k].0 < i
      {
        var s := segs[i];
        if s.Mapped() {
          assert Shape(View().segs[i], pageSize);
          unmaps := unmaps + [(i, if s.Has(VLEN) then PageBytes(s.nref, pageSize) else SEGMENT_SIZE)];
        }
      }
    }

    /** Any legal operation, carried out in place: the run model's step and its invariant. */
    method Perform(op: Op)
      requires Valid() && Inv(View(), pageSize) && Legal(View(), op)
      modifies this, segs
      ensures Valid() && Inv(View(), pageSize)
      ensures View() == Step(old(View()), pageSize, op)
    {
      ghost var w := View();
      match op
      case Malloc(request, clear, mapOk) =>
        AllocKeeps(w, pageSize, request, clear, mapOk);
        var _ := Malloc(request, clear, mapOk);
      case Resize(p, request, mapOk, past) =>
        ReallocKeeps(w, pageSize, p, request, mapOk, past);
        var _ := Resize(p, request, mapOk, past);
      case Release(b) =>
        FreeKeeps(w, pageSize, b);
        assert BlockOk(w, pageSize, b);
        var _ := Release(b);
      case PushLifo(request, mapOk) =>
        AllocLifoKeeps(w, pageSize, request, mapOk);
        var _ := PushLifo(request, mapOk);
      case PopLifo(k, seg, off) =>
        FreeLifoKeeps(w, pageSize, k);
        PopLifo(seg, off, k);
      case Store(b, word, value) =>
        OwnStoreKeeps(w, pageSize, b, word, value);
        segs[b.seg] := segs[b.seg].(mem := segs[b.seg].mem[word := value]);
        assert segs[..] == Poke(w, b.seg, word, value).segs;
    }
  }
}
