/** The segment table of a context and what each allocator call does to it
    (lib/alloc.c).  A segment's `mem` is its mapped memory as 32-bit words and is
    empty when the segment is not mapped; a pointer is a segment and a byte offset.
    Next to the table the model keeps which blocks are live. */
module AllocModel {
  import opened Wrappers

  const N_SEGMENTS: nat := 512
  const SEGMENT_SIZE: nat := 0x40_0000
  const WORD: nat := 0x8000_0000
  const VLEN: nat := 0x4000_0000
  const LIFO: nat := 0x2000_0000
  const DIRTY: nat := 0x1000_0000
  const SIZE_T: nat := 0x1_0000_0000_0000_0000
  const MAX_PAGES: nat := 0x1_0000_0000
  /** The largest request whose rounding does not wrap around in a size_t. */
  const MAX_REQUEST: nat := SIZE_T - 16

  datatype Seg = Seg(mem: seq<int>, nref: nat, count: nat) {
    predicate Mapped() { mem != [] }
    predicate Has(flag: nat) requires flag > 0 { count / flag % 2 == 1 }
    function Low(): nat { count % SEGMENT_SIZE }
    predicate Ordinary() { Mapped() && !Has(LIFO) }
    /** An ordinary segment shared by many small blocks. */
    predicate Shared() { Mapped() && !Has(LIFO) && !Has(VLEN) }
  }

  /** `off` is the first byte of the block and `size` its length in bytes; for an
      ordinary block both include the 8-byte header. */
  datatype Block = Block(seg: nat, off: nat, size: nat)

  datatype World = World(segs: seq<Seg>, currseg: int, lifoseg: int,
                         live: set<Block>, lifo: seq<Block>)

  function Int32(n: nat): int {
    var m := n % 0x1_0000_0000;
    if m >= 0x8000_0000 then m - 0x1_0000_0000 else m
  }

  function Align(size: nat): nat { (size + 7) % SIZE_T / 8 * 8 }

  /** The block size for a request: aligned to 8 bytes, plus the header. */
  function Rounded(request: nat): nat { (Align(request) + 8) % SIZE_T }

  function Zeros(n: nat): (z: seq<int>)
    ensures |z| == n && forall k :: 0 <= k < n ==> z[k] == 0
  {
    seq(n, _ => 0)
  }

  function Pages(size: nat, ps: nat): nat requires ps > 0 { (size + ps - 1) / ps }

  function PageBytes(npages: nat, ps: nat): nat { npages * ps }

  /** A segment of the fixed size, used up to `nref`. */
  predicate FixedShape(s: Seg) {
    !s.Has(VLEN) && 4 * |s.mem| == SEGMENT_SIZE && s.nref <= SEGMENT_SIZE && s.nref % 8 == 0
  }

  /** A mapped segment whose recorded extent is the extent of its mapping. */
  predicate Shape(s: Seg, ps: nat) {
    if s.Has(VLEN) then 4 * |s.mem| == PageBytes(s.nref, ps) else FixedShape(s)
  }

  /** Unmapping needs the length that was mapped; `nref` and `count` go stale. */
  function Unmapped(s: Seg, bytes: nat): Seg
    requires bytes == 4 * |s.mem|
  {
    s.(mem := [])
  }

  /** Index of the first unmapped segment at or after `from`. */
  function FirstFree(segs: seq<Seg>, from: nat): (i: nat)
    requires from <= |segs|
    ensures from <= i <= |segs|
    ensures forall j :: from <= j < i ==> segs[j].Mapped()
    ensures i < |segs| ==> !segs[i].Mapped()
    decreases |segs| - from
  {
    if from == |segs| || !segs[from].Mapped() then from else FirstFree(segs, from + 1)
  }

  function PutHeader(mem: seq<int>, at: nat, i: nat, size: nat): (m: seq<int>)
    requires at + 2 <= |mem|
    ensures |m| == |mem|
    ensures m[at] == i && m[at + 1] == Int32(size)
    ensures forall k :: 0 <= k < |m| && k != at && k != at + 1 ==> m[k] == mem[k]
  {
    mem[at := i][at + 1 := Int32(size)]
  }

  function Clear(mem: seq<int>, from: nat, to: nat): (m: seq<int>)
    requires from <= to <= |mem|
    ensures |m| == |mem|
    ensures forall k :: from <= k < to ==> m[k] == 0
    ensures forall k :: 0 <= k < from || to <= k < |m| ==> m[k] == mem[k]
  {
    mem[..from] + Zeros(to - from) + mem[to..]
  }

  // ----- grn_ctx_alloc -----

  /** Takes `size` bytes off segment s, which becomes segment i. */
  function Carve(s: Seg, i: nat, size: nat, clear: bool): Seg
    requires FixedShape(s)
    requires size % 8 == 0 && 8 <= size && s.nref + size <= SEGMENT_SIZE
  {
    var c := Seg(PutHeader(s.mem, s.nref / 4, i, size), s.nref + size, s.count + 1);
    if clear && c.Has(DIRTY) && size > 8
    then c.(mem := Clear(c.mem, s.nref / 4 + 2, (s.nref + size) / 4))
    else c
  }

  const FRESH: Seg := Seg(Zeros(SEGMENT_SIZE / 4), 0, WORD)

  predicate Sane(w: World, ps: nat) {
    && ps > 0 && ps % 8 == 0
    && |w.segs| == N_SEGMENTS
    && -1 <= w.currseg < N_SEGMENTS && -1 <= w.lifoseg < N_SEGMENTS
    && (forall i :: 0 <= i < N_SEGMENTS && w.segs[i].Mapped() ==> Shape(w.segs[i], ps))
    && (w.currseg >= 0 ==> w.segs[w.currseg].Shared())
    && (w.lifoseg >= 0 ==> w.segs[w.lifoseg].Mapped() && w.segs[w.lifoseg].Has(LIFO))
  }

  function Place(w: World, i: nat, s: Seg, b: Block, currseg: int): World
    requires i < |w.segs|
  {
    w.(segs := w.segs[i := s], currseg := currseg, live := w.live + {b})
  }

  /** A segment for one block of its own. */
  function OwnSegment(i: nat, size: nat, ps: nat): Seg
    requires ps > 0 && ps % 8 == 0 && size >= 8
  {
    PagesCover(size, ps);
    Seg(PutHeader(Zeros(PageBytes(Pages(size, ps), ps) / 4), 0, i, size), Pages(size, ps), VLEN)
  }

  function AllocLarge(w: World, ps: nat, size: nat, mapOk: bool): (World, Option<Block>)
    requires Sane(w, ps) && size > SEGMENT_SIZE
  {
    var npages := Pages(size, ps);
    var i := FirstFree(w.segs, 0);
    if npages >= MAX_PAGES || i >= N_SEGMENTS || !mapOk then (w, None)
    else
      (Place(w, i, OwnSegment(i, size, ps), Block(i, 0, size), -1), Some(Block(i, 0, size)))
  }

  function AllocSmall(w: World, ps: nat, size: nat, clear: bool, mapOk: bool): (World, Option<Block>)
    requires Sane(w, ps) && 8 <= size <= SEGMENT_SIZE && size % 8 == 0
  {
    var c := w.currseg;
    if c >= 0 && size + w.segs[c].nref <= SEGMENT_SIZE then
      var s := w.segs[c];
      var b := Block(c, s.nref, size);
      (Place(w, c, Carve(s, c, size, clear), b, c), Some(b))
    else
      var i := FirstFree(w.segs, 0);
      if i >= N_SEGMENTS || !mapOk then (w, None)
      else (Place(w, i, Carve(FRESH, i, size, clear), Block(i, 0, size), i), Some(Block(i, 0, size)))
  }

  function Alloc(w: World, ps: nat, request: nat, clear: bool, mapOk: bool): (World, Option<Block>)
    requires Sane(w, ps) && request <= MAX_REQUEST
  {
    var size := Rounded(request);
    RoundedFits(request);
    if size > SEGMENT_SIZE then AllocLarge(w, ps, size, mapOk)
    else AllocSmall(w, ps, size, clear, mapOk)
  }

  // ----- grn_ctx_free -----

  /** The block's header, as left in memory by the allocation, names its segment. */
  predicate HeaderIntact(w: World, b: Block) {
    && b.seg < |w.segs|
    && b.off / 4 + 2 <= |w.segs[b.seg].mem|
    && w.segs[b.seg].mem[b.off / 4] == b.seg
    && w.segs[b.seg].mem[b.off / 4 + 1] == Int32(b.size)
  }

  /** A shared segment after one of its blocks is freed. */
  function Released(s: Seg, isCurrent: bool): Seg
    requires FixedShape(s) && s.Shared() && s.count > 0
  {
    var t := s.(count := s.count - 1);
    if t.Low() != 0 then t
    else if isCurrent then t.(count := if t.Has(DIRTY) then t.count else t.count + DIRTY, nref := 0)
    else t.(mem := [])
  }

  /** Frees the block at the given pointer; false when the source reports an
      invalid pointer. */
  function Free(w: World, ps: nat, b: Block): (World, bool)
    requires Sane(w, ps) && HeaderIntact(w, b)
    requires !w.segs[b.seg].Has(LIFO)
    requires !w.segs[b.seg].Has(VLEN) ==> w.segs[b.seg].count > 0
  {
    var i := w.segs[b.seg].mem[b.off / 4];
    if i >= N_SEGMENTS then (w, false)
    else
      var s := w.segs[i];
      if s.Has(VLEN) then
        if b.off != 0 then (w, false)
        else (w.(segs := w.segs[i := Unmapped(s, PageBytes(s.nref, ps))], live := w.live - {b}), true)
      else
        (w.(segs := w.segs[i := Released(s, i == w.currseg)], live := w.live - {b}), true)
  }

  // ----- grn_ctx_alloc_lifo -----

  function PlaceLifo(w: World, i: nat, s: Seg, b: Block): World
    requires i < |w.segs|
  {
    w.(segs := w.segs[i := s], lifoseg := i, lifo := w.lifo + [b])
  }

  function OwnArenaSegment(request: nat, ps: nat): Seg requires ps > 0 {
    Seg(Zeros(PageBytes(Pages(request, ps), ps) / 4), Pages(request, ps), VLEN + LIFO)
  }

  function AllocLifo(w: World, ps: nat, request: nat, mapOk: bool): (World, Option<Block>)
    requires Sane(w, ps) && request <= MAX_REQUEST
  {
    var l := w.lifoseg;
    var i := FirstFree(w.segs, l + 1);
    if request > SEGMENT_SIZE then
      var npages := Pages(request, ps);
      if npages >= MAX_PAGES || i >= N_SEGMENTS || !mapOk then (w, None)
      else
        var b := Block(i, 0, request);
        (PlaceLifo(w, i, OwnArenaSegment(request, ps), b), Some(b))
    else
      var size := Align(request);
      if l >= 0 && !w.segs[l].Has(VLEN) && size + w.segs[l].nref <= SEGMENT_SIZE then
        var s := w.segs[l];
        var b := Block(l, s.nref, size);
        (PlaceLifo(w, l, s.(nref := s.nref + size), b), Some(b))
      else if i >= N_SEGMENTS || !mapOk then (w, None)
      else
        var b := Block(i, 0, size);
        (PlaceLifo(w, i, Seg(Zeros(SEGMENT_SIZE / 4), size, WORD + LIFO), b), Some(b))
  }

  // ----- grn_ctx_free_lifo -----

  /** Segments that a LIFO unwinding may meet are mapped with the recorded extent. */
  predicate LifoShaped(segs: seq<Seg>, i: int, ps: nat) {
    i < |segs| && forall j :: 0 <= j <= i && segs[j].Has(LIFO) ==> segs[j].Mapped() && Shape(segs[j], ps)
  }

  /** The unwinding loop from segment i downwards, for the pointer (seg, off). */
  function Unwind(segs: seq<Seg>, i: int, done: bool, seg: nat, off: nat, ps: nat): (r: (seq<Seg>, int))
    requires -1 <= i && LifoShaped(segs, i, ps)
    ensures |r.0| == |segs| && -1 <= r.1 <= i
    decreases i + 1
  {
    if i < 0 then (segs, i)
    else if !segs[i].Has(LIFO) then Unwind(segs, i - 1, done, seg, off, ps)
    else if done then (segs, i)
    else
      var s := segs[i];
      var here := i == seg && off == 0;
      if s.Has(VLEN) then
        Unwind(segs[i := Unmapped(s, PageBytes(s.nref, ps))], i - 1, here, seg, off, ps)
      else if !here && i == seg && 0 < off < s.nref then
        (segs[i := s.(nref := off)], i)
      else
        Unwind(segs[i := Unmapped(s, SEGMENT_SIZE)], i - 1, here, seg, off, ps)
  }

  /** Frees the LIFO block with index k.  The table is unwound by the pointer alone;
      the block list drops block k and every later one. */
  function FreeLifo(w: World, ps: nat, k: nat): World
    requires Sane(w, ps) && LifoShaped(w.segs, w.lifoseg, ps) && k < |w.lifo|
  {
    var (segs, l) := Unwind(w.segs, w.lifoseg, false, w.lifo[k].seg, w.lifo[k].off, ps);
    w.(segs := segs, lifoseg := l, lifo := w.lifo[..k])
  }

  // ----- writing inside a block -----

  function SetMem(w: World, seg: nat, mem: seq<int>): World
    requires seg < |w.segs|
  {
    w.(segs := w.segs[seg := w.segs[seg].(mem := mem)])
  }

  /** A client stores one word. */
  function Poke(w: World, seg: nat, word: nat, value: int): World
    requires seg < |w.segs| && word < |w.segs[seg].mem|
  {
    SetMem(w, seg, w.segs[seg].mem[word := value])
  }

  // ----- grn_ctx_realloc -----

  /** Word j after the header of block b; `past` stands for memory past the mapping. */
  function PayloadWord(w: World, b: Block, j: nat, past: int): int
    requires b.seg < |w.segs|
  {
    var at := b.off / 4 + 2 + j;
    if at < |w.segs[b.seg].mem| then w.segs[b.seg].mem[at] else past
  }

  /** A word whose low n bytes are replaced. */
  function Merge(was: int, becomes: int, n: nat): int requires n < 4 {
    var m := if n == 0 then 1 else if n == 1 then 0x100 else if n == 2 then 0x1_0000 else 0x100_0000;
    was - was % m + becomes % m
  }

  /** Memory after the first n bytes of `source` are stored from word `at` on. */
  function CopyMem(mem: seq<int>, at: nat, n: nat, source: seq<int>): (m: seq<int>)
    requires n <= 4 * |source|
    ensures |m| == |mem|
    ensures forall k :: 0 <= k < |mem| && (k < at || 4 * (k - at) >= n) ==> m[k] == mem[k]
    ensures forall k :: at <= k < |mem| && 4 * (k - at) + 4 <= n ==> m[k] == source[k - at]
  {
    seq(|mem|, k requires 0 <= k < |mem| =>
      if k < at || 4 * (k - at) >= n then mem[k]
      else if 4 * (k - at) + 4 <= n then source[k - at]
      else Merge(mem[k], source[k - at], n % 4))
  }

  function Payload(w: World, b: Block, count: nat, past: int): (p: seq<int>)
    requires b.seg < |w.segs|
    ensures |p| == count && forall j :: 0 <= j < count ==> p[j] == PayloadWord(w, b, j, past)
  {
    seq(count, j requires 0 <= j < count => PayloadWord(w, b, j, past))
  }

  /** memcpy of n bytes from the payload of `src` to the payload of `dst`. */
  function Copy(w: World, src: Block, dst: Block, n: nat, past: int): World
    requires src.seg < |w.segs| && dst.seg < |w.segs|
  {
    SetMem(w, dst.seg, CopyMem(w.segs[dst.seg].mem, dst.off / 4 + 2, n, Payload(w, src, (n + 3) / 4, past)))
  }

  /** The header's int32 size read back as a size_t. */
  function HeaderSize(w: World, b: Block): nat requires HeaderIntact(w, b) {
    w.segs[b.seg].mem[b.off / 4 + 1] % SIZE_T
  }

  // ----- arithmetic -----

  lemma PagesCover(size: nat, ps: nat)
    requires ps > 0 && ps % 8 == 0
    ensures size <= PageBytes(Pages(size, ps), ps) < size + ps
    ensures PageBytes(Pages(size, ps), ps) % 8 == 0
  {
    var n := size + ps - 1;
    assert n == n / ps * ps + n % ps && n % ps < ps;
    var q := ps / 8;
    assert Pages(size, ps) * ps == 8 * (Pages(size, ps) * q) by { assert ps == 8 * q; }
  }

  /** A block can hold its request exactly when the rounding does not wrap. */
  lemma RoundedFits(request: nat)
    requires request < SIZE_T
    ensures Rounded(request) >= request + 8 <==> request <= MAX_REQUEST
    ensures Rounded(request) % 8 == 0
    ensures request <= MAX_REQUEST ==> Rounded(request) < request + 16
  {
  }
}
