/** What every allocator call keeps true, and one lemma per call. */
module AllocInvariant {
  import opened AllocModel

  function LiveIn(live: set<Block>, i: nat): set<Block> { set b | b in live && b.seg == i }

  predicate Apart(b: Block, c: Block) {
    b.seg == c.seg ==> b.off + b.size <= c.off || c.off + c.size <= b.off
  }

  /** Inside segment s of a table whose pages have ps bytes. */
  predicate Inside(b: Block, s: Seg, ps: nat) {
    if s.Has(VLEN) then b.off == 0 && b.size <= PageBytes(s.nref, ps) else b.off + b.size <= s.nref
  }

  predicate BlockOk(w: World, ps: nat, b: Block) {
    && b.seg < |w.segs| && w.segs[b.seg].Ordinary()
    && b.off % 8 == 0 && b.size % 8 == 0 && 8 <= b.size < SIZE_T
    && Inside(b, w.segs[b.seg], ps)
    && HeaderIntact(w, b)
  }

  /** Live ordinary blocks lie in ordinary segments, apart from each other. */
  ghost predicate BlocksOk(w: World, ps: nat) {
    && (forall b :: b in w.live ==> BlockOk(w, ps, b))
    && (forall b, c :: b in w.live && c in w.live && b != c ==> Apart(b, c))
  }

  /** The low bits of a shared segment count its live blocks, of 8 bytes or more each. */
  predicate CountOk(w: World, i: nat) requires i < |w.segs| {
    w.segs[i].Shared() ==>
      && w.segs[i].Low() == |LiveIn(w.live, i)|
      && 8 * w.segs[i].Low() <= w.segs[i].nref
  }

  /** Until it is rewound, a shared segment is zero beyond its used part. */
  predicate CleanOk(s: Seg) {
    s.Shared() && !s.Has(DIRTY) ==> forall k :: 0 <= k < |s.mem| && s.nref <= 4 * k ==> s.mem[k] == 0
  }

  /** A LIFO-flagged segment is mapped exactly when it is not above `lifoseg`. */
  predicate FlagOk(w: World, i: nat) requires i < |w.segs| {
    w.segs[i].Has(LIFO) ==> (w.segs[i].Mapped() <==> i <= w.lifoseg)
  }

  ghost predicate TableOk(w: World, ps: nat) {
    && Sane(w, ps)
    && (forall i :: 0 <= i < N_SEGMENTS ==> CountOk(w, i) && CleanOk(w.segs[i]) && FlagOk(w, i))
  }

  // ----- the LIFO arena -----

  predicate InArena(lifo: seq<Block>, i: nat) {
    exists k :: 0 <= k < |lifo| && lifo[k].seg == i
  }

  predicate After(a: Block, b: Block) {
    a.seg < b.seg || (a.seg == b.seg && a.off + a.size <= b.off)
  }

  predicate Last(lifo: seq<Block>, k: nat) requires k < |lifo| {
    k + 1 == |lifo| || lifo[k + 1].seg != lifo[k].seg
  }

  /** Block k starts its segment or where the block before it ends, and the last block
      of a segment ends where the segment's used part ends. */
  predicate LifoBlockOk(w: World, ps: nat, k: nat) requires k < |w.lifo| {
    var b := w.lifo[k];
    && b.seg < |w.segs| && b.seg <= w.lifoseg && w.segs[b.seg].Has(LIFO)
    && Inside(b, w.segs[b.seg], ps)
    && b.off % 8 == 0
    && (if k > 0 && w.lifo[k - 1].seg == b.seg
        then !w.segs[b.seg].Has(VLEN) && b.off == w.lifo[k - 1].off + w.lifo[k - 1].size
        else b.off == 0)
    && (Last(w.lifo, k) && !w.segs[b.seg].Has(VLEN) ==> b.off + b.size == w.segs[b.seg].nref)
  }

  function TopSeg(lifo: seq<Block>): int { if lifo == [] then -1 else lifo[|lifo| - 1].seg }

  ghost predicate LifoOk(w: World, ps: nat) {
    && w.lifoseg == TopSeg(w.lifo)
    && (forall k :: 0 <= k < |w.lifo| ==> LifoBlockOk(w, ps, k))
    && (forall j, k :: 0 <= j < k < |w.lifo| ==> After(w.lifo[j], w.lifo[k]))
    && (forall i :: 0 <= i <= w.lifoseg && i < |w.segs| && w.segs[i].Has(LIFO) ==> InArena(w.lifo, i))
  }

  ghost predicate Inv(w: World, ps: nat) {
    TableOk(w, ps) && BlocksOk(w, ps) && LifoOk(w, ps)
  }

  const EMPTY: Seg := Seg([], 0, 0)

  function Start(): World { World(seq(N_SEGMENTS, _ => EMPTY), -1, -1, {}, []) }

  // ----- flag bits and the counter share one word -----

  lemma HighPart(n: nat, g: nat)
    requires g == 2 || g == 4
    ensures n / (DIRTY * g) == n / DIRTY / g
  {
    var q, r := n / DIRTY, n % DIRTY;
    var q', r' := q / g, q % g;
    assert n == (DIRTY * g) * q' + (DIRTY * r' + r);
    assert 0 <= DIRTY * r' + r < DIRTY * g;
  }

  lemma LowPart(n: nat)
    ensures n / DIRTY == n / SEGMENT_SIZE / 64
  {
    var q, r := n / SEGMENT_SIZE, n % SEGMENT_SIZE;
    var q', r' := q / 64, q % 64;
    assert n == DIRTY * q' + (SEGMENT_SIZE * r' + r);
    assert 0 <= SEGMENT_SIZE * r' + r < DIRTY;
  }

  /** The three flags as the digits of `count` above the counter. */
  lemma Flags(s: Seg)
    ensures s.Has(LIFO) <==> s.count / DIRTY / 2 % 2 == 1
    ensures s.Has(VLEN) <==> s.count / DIRTY / 4 % 2 == 1
  {
    HighPart(s.count, 2);
    HighPart(s.count, 4);
  }

  predicate SameFlags(s: Seg, t: Seg) {
    t.Has(VLEN) == s.Has(VLEN) && t.Has(LIFO) == s.Has(LIFO) && t.Has(DIRTY) == s.Has(DIRTY)
  }

  lemma CountUp(s: Seg, t: Seg)
    requires s.Low() + 1 < SEGMENT_SIZE && t.count == s.count + 1
    ensures t.Low() == s.Low() + 1 && SameFlags(s, t)
  {
    assert t.count / SEGMENT_SIZE == s.count / SEGMENT_SIZE && t.Low() == s.Low() + 1;
    LowPart(s.count);
    LowPart(t.count);
    Flags(s);
    Flags(t);
  }

  lemma AddDigit(d: nat)
    requires d % 2 == 0
    ensures (d + 1) / 2 == d / 2 && (d + 1) / 4 == d / 4
  {
  }

  lemma SetDirty(s: Seg, t: Seg)
    requires !s.Has(DIRTY) && t.count == s.count + DIRTY
    ensures t.Low() == s.Low() && t.Has(VLEN) == s.Has(VLEN) && t.Has(LIFO) == s.Has(LIFO) && t.Has(DIRTY)
  {
    assert t.count / DIRTY == s.count / DIRTY + 1;
    assert t.count == s.count + 64 * SEGMENT_SIZE;
    Flags(s);
    Flags(t);
    AddDigit(s.count / DIRTY);
  }

  lemma FlagsOfNew()
    ensures var s := Seg([], 0, WORD); !s.Has(VLEN) && !s.Has(LIFO) && !s.Has(DIRTY) && s.Low() == 0
    ensures var s := Seg([], 0, VLEN); s.Has(VLEN) && !s.Has(LIFO) && s.Low() == 0
    ensures var s := Seg([], 0, WORD + LIFO); !s.Has(VLEN) && s.Has(LIFO)
    ensures var s := Seg([], 0, VLEN + LIFO); s.Has(VLEN) && s.Has(LIFO)
  {
  }
}
