/** What grn_ctx_realloc does to the bytes of a block (lib/alloc.c:513-548).  The length it
    copies is the header's: an int32 that holds the block's size with the header's own 8 bytes,
    modulo 2^32. */
module AllocRealloc {
  import opened Wrappers
  import opened AllocModel
  import opened AllocInvariant
  import opened AllocSteps
  import opened AllocArena
  import opened AllocRuns

  // ----- bytes -----

  function Scale(k: nat): (d: int) requires k < 4 ensures d > 0 {
    if k == 0 then 1 else if k == 1 then 0x100 else if k == 2 then 0x1_0000 else 0x100_0000
  }

  /** Byte k of a word, the lowest first. */
  function Byte(word: int, k: nat): nat requires k < 4 { word / Scale(k) % 0x100 }

  /** Byte i of the payload of b. */
  function PayloadByte(w: World, b: Block, i: nat, past: int): nat requires b.seg < |w.segs| {
    Byte(PayloadWord(w, b, i / 4, past), i % 4)
  }

  lemma DivideOnce(a: int, d: int, q: int, r: int)
    requires d > 0 && 0 <= r < d && a == d * q + r
    ensures a / d == q
  {
    var z := a / d - q;
    assert d * z == r - a % d;
    assert z > 0 ==> d * z >= d;
    assert z < 0 ==> d * z <= -d;
  }

  lemma LowByte(q: int, r: int, d: int, f: int)
    requires d > 0
    ensures (d * (0x100 * f) * q + r) / d % 0x100 == r / d % 0x100
  {
    var y, h := 0x100 * (f * q), r / d;
    Regroup(d, 0x100 * f, q, y);
    Together(d, y, h);
    DivideOnce(d * y + r, d, y + h, r % d);
    assert (0x100 * (f * q) + h) % 0x100 == h % 0x100;
  }

  lemma Regroup(d: int, e: int, q: int, y: int)
    requires y == e * q
    ensures d * e * q == d * y
  {
  }

  lemma Together(d: int, y: int, h: int)
    ensures d * y + d * h == d * (y + h)
  {
  }

  lemma HighByte(q: int, r: int, m: int, g: int)
    requires m > 0 && g > 0 && 0 <= r < m
    ensures m * g > 0 && (m * q + r) / (m * g) == q / g
  {
    var h, l := q / g, q % g;
    assert m * q == m * g * h + m * l;
    assert 0 <= m * l <= m * (g - 1);
    assert m * (g - 1) == m * g - m;
    DivideOnce(m * q + r, m * g, h, m * l + r);
  }

  lemma Scales(n: nat, k: nat)
    requires n < 4 && k < 4
    ensures k < n ==> Scale(n) == Scale(k) * (0x100 * Scale(n - k - 1))
    ensures k >= n ==> Scale(k) == Scale(n) * Scale(k - n)
  {
  }

  lemma MergedByte(was: int, becomes: int, n: nat, k: nat)
    requires n < 4 && k < 4
    ensures Byte(Merge(was, becomes, n), k) == if k < n then Byte(becomes, k) else Byte(was, k)
  {
    var m := Scale(n);
    var q, r := was / m, becomes % m;
    assert Merge(was, becomes, n) == m * q + r;
    Scales(n, k);
    if k < n {
      LowByte(q, r, Scale(k), Scale(n - k - 1));
      LowByte(becomes / m, r, Scale(k), Scale(n - k - 1));
      assert becomes == m * (becomes / m) + r;
    } else {
      HighByte(q, r, m, Scale(k - n));
      HighByte(q, was % m, m, Scale(k - n));
      assert was == m * q + was % m;
    }
  }

  lemma CopiedWord(mem: seq<int>, at: nat, n: nat, source: seq<int>, i: nat)
    requires n <= 4 * |source| && at + i / 4 < |mem|
    ensures i < n ==> i / 4 < |source|
    ensures Byte(CopyMem(mem, at, n, source)[at + i / 4], i % 4) ==
      Byte(if i < n then source[i / 4] else mem[at + i / 4], i % 4)
  {
    var j, k := i / 4, i % 4;
    assert i == 4 * j + k;
    if 4 * j < n < 4 * j + 4 {
      assert n % 4 == n - 4 * j;
      MergedByte(mem[at + j], source[j], n - 4 * j, k);
    }
  }

  lemma WordOf(i: nat, size: nat)
    requires size % 8 == 0 && i + 8 < size
    ensures 4 * (i / 4) + 12 <= size && 4 * (i / 4) <= i
  {
  }

  /** The word of a payload byte lies in the payload. */
  lemma InsideByte(w: World, ps: nat, b: Block, i: nat)
    requires Sane(w, ps) && BlockOk(w, ps, b) && i + 8 < b.size
    ensures b.off / 4 + 2 + i / 4 < |w.segs[b.seg].mem| && InPayload(b, b.seg, b.off / 4 + 2 + i / 4)
  {
    WordOf(i, b.size);
    InsideMem(w, ps, b, i / 4);
    WordInside(b.off, b.size, i / 4);
  }

  /** A copy of n payload bytes stores those and leaves the others. */
  lemma CopiedByte(w: World, src: Block, dst: Block, n: nat, past: int, i: nat)
    requires src.seg < |w.segs| && dst.seg < |w.segs| && dst.off / 4 + 2 + i / 4 < |w.segs[dst.seg].mem|
    ensures PayloadByte(Copy(w, src, dst, n, past), dst, i, past) ==
      if i < n then PayloadByte(w, src, i, past) else PayloadByte(w, dst, i, past)
  {
    CopiedWord(w.segs[dst.seg].mem, dst.off / 4 + 2, n, Payload(w, src, (n + 3) / 4, past), i);
  }

  // ----- the header's size -----

  /** The int32 in the header of a block of this size, read back as a size_t. */
  function HeaderValue(size: nat): nat {
    var m := size % 0x1_0000_0000;
    if m < 0x8000_0000 then m else SIZE_T - 0x1_0000_0000 + m
  }

  lemma HeaderOf(w: World, b: Block)
    requires HeaderIntact(w, b)
    ensures HeaderSize(w, b) == HeaderValue(b.size)
  {
    var m := b.size % 0x1_0000_0000;
    if m >= 0x8000_0000 { assert (m - 0x1_0000_0000) % SIZE_T == SIZE_T + m - 0x1_0000_0000; }
  }

  function Min(a: int, b: int): int { if a < b then a else b }

  /** The header of such a block tells enough for this request. */
  predicate Enough(size: nat, request: nat) {
    size < 0x1_0000_0000 || size % 0x1_0000_0000 >= 0x8000_0000 || request <= size % 0x1_0000_0000
  }

  /** Exactly then the copied length covers the payload as far as the request goes. */
  lemma EnoughExactly(size: nat, request: nat)
    requires 8 <= size < SIZE_T
    ensures Min(request, HeaderValue(size)) >= Min(request, size - 8) <==> Enough(size, request)
  {
    var m := size % 0x1_0000_0000;
    if m >= 0x8000_0000 { assert size <= HeaderValue(size); }
  }

  // ----- reallocation, byte by byte -----

  /** An allocation leaves the payload of a live block, and the extent of its segment. */
  lemma AllocLeaves(w: World, ps: nat, request: nat, clear: bool, mapOk: bool, b: Block)
    requires Inv(w, ps) && request <= MAX_REQUEST && b in w.live
    ensures b.seg < |w.segs| == |Alloc(w, ps, request, clear, mapOk).0.segs|
    ensures var mem := Alloc(w, ps, request, clear, mapOk).0.segs[b.seg].mem;
      |mem| == |w.segs[b.seg].mem| && forall k :: 0 <= k < |mem| && InPayload(b, b.seg, k) ==> mem[k] == w.segs[b.seg].mem[k]
  {
    RoundedFits(request);
    assert BlockOk(w, ps, b);
  }

  lemma AllocLeavesByte(w: World, ps: nat, request: nat, mapOk: bool, b: Block, i: nat, past: int)
    requires Inv(w, ps) && request <= MAX_REQUEST && b in w.live && i + 8 < b.size
    ensures b.seg < |w.segs| == |Alloc(w, ps, request, false, mapOk).0.segs|
    ensures PayloadByte(Alloc(w, ps, request, false, mapOk).0, b, i, past) == PayloadByte(w, b, i, past)
  {
    AllocLeaves(w, ps, request, false, mapOk, b);
    assert BlockOk(w, ps, b);
    InsideByte(w, ps, b, i);
  }

  lemma MovedByte(w: World, ps: nat, b: Block, c: Block, request: nat, past: int, i: nat)
    requires Inv(w, ps) && b in w.live && c in w.live && b != c && request + 8 <= c.size && i < request
    ensures HeaderIntact(w, b) && c.seg < |w.segs| == |Move(w, ps, b, c, request, past).segs|
    ensures PayloadByte(Move(w, ps, b, c, request, past), c, i, past) ==
      if i < CopyLength(w, b, request) then PayloadByte(w, b, i, past) else PayloadByte(w, c, i, past)
  {
    MoveKeeps(w, ps, b, c, request, past);
    assert BlockOk(w, ps, b) && BlockOk(w, ps, c);
    InsideByte(w, ps, c, i);
    CopiedByte(w, b, c, CopyLength(w, b, request), past, i);
  }

  /** The state in which grn_ctx_realloc copies, and the block that it copies to. */
  ghost predicate Copies(w: World, ps: nat, b: Block, request: nat, mapOk: bool, a: World, c: Block) {
    && Inv(w, ps) && 0 < request <= MAX_REQUEST && b in w.live
    && Alloc(w, ps, request, false, mapOk) == (a, Some(c))
  }

  lemma CopiesFacts(w: World, ps: nat, b: Block, request: nat, mapOk: bool, a: World, c: Block)
    requires Copies(w, ps, b, request, mapOk, a, c)
    ensures Inv(a, ps) && b in a.live && c in a.live && b != c && request + 8 <= c.size
    ensures HeaderIntact(w, b) && HeaderIntact(a, b) && c.seg < |a.segs|
    ensures CopyLength(a, b, request) == CopyLength(w, b, request) == Min(request, HeaderValue(b.size))
    ensures |a.segs[b.seg].mem| == |w.segs[b.seg].mem|
  {
    AllocKeeps(w, ps, request, false, mapOk);
    AllocLeaves(w, ps, request, false, mapOk, b);
    assert BlockOk(w, ps, b) && BlockOk(a, ps, b) && BlockOk(a, ps, c);
    HeaderOf(w, b);
    HeaderOf(a, b);
  }

  /** Every byte of a reallocated block, for blocks of any size: it comes from the old block up
      to the copied length, and is what the allocation left there beyond. */
  lemma ReallocBytes(w: World, ps: nat, b: Block, request: nat, mapOk: bool, past: int, a: World, c: Block, i: nat)
    requires Copies(w, ps, b, request, mapOk, a, c) && i < request
    ensures HeaderIntact(w, b) && b.seg < |a.segs| && c.seg < |a.segs|
    ensures var (w', r) := Realloc(w, ps, Some(b), request, mapOk, past);
      && r == Some(c) && c.seg < |w'.segs|
      && PayloadByte(w', c, i, past) ==
           if i < CopyLength(w, b, request) then PayloadByte(a, b, i, past) else PayloadByte(a, c, i, past)
    ensures i + 8 < b.size ==> PayloadByte(a, b, i, past) == PayloadByte(w, b, i, past)
  {
    CopiesFacts(w, ps, b, request, mapOk, a, c);
    MovedByte(a, ps, b, c, request, past, i);
    if i + 8 < b.size { AllocLeavesByte(w, ps, request, mapOk, b, i, past); }
  }

  // ----- exactly when the payload is kept -----

  /** A successful reallocation keeps the payload as far as the new size goes. */
  ghost predicate Keeps(w: World, ps: nat, b: Block, request: nat, mapOk: bool, past: int) {
    Inv(w, ps) && request <= MAX_REQUEST && b in w.live && b.seg < |w.segs| &&
    var (w', r) := Realloc(w, ps, Some(b), request, mapOk, past);
    r.Some? ==>
      forall i :: 0 <= i < Min(request, b.size - 8) ==> SameByte(w, b, w', r.value, i, past)
  }

  predicate SameByte(w: World, b: Block, w': World, c: Block, i: nat, past: int) {
    b.seg < |w.segs| && c.seg < |w'.segs| && PayloadByte(w', c, i, past) == PayloadByte(w, b, i, past)
  }

  /** Whatever the client keeps in one of the block's words. */
  ghost predicate AlwaysKeeps(w: World, ps: nat, b: Block, request: nat, mapOk: bool, past: int) {
    b.seg < |w.segs| && forall word: nat, value :: word < |w.segs[b.seg].mem| && InPayload(b, b.seg, word) ==>
      Keeps(Poke(w, b.seg, word, value), ps, b, request, mapOk, past)
  }

  lemma ReallocKeepsPayload(w: World, ps: nat, b: Block, request: nat, mapOk: bool, past: int)
    requires Inv(w, ps) && 0 < request <= MAX_REQUEST && b in w.live && Enough(b.size, request)
    ensures Keeps(w, ps, b, request, mapOk, past)
  {
    assert BlockOk(w, ps, b);
    var (a, r) := Alloc(w, ps, request, false, mapOk);
    AllocKeeps(w, ps, request, false, mapOk);
    if r.Some? {
      CopiesFacts(w, ps, b, request, mapOk, a, r.value);
      EnoughExactly(b.size, request);
      var (w', c) := Realloc(w, ps, Some(b), request, mapOk, past);
      forall i | 0 <= i < Min(request, b.size - 8) ensures c == r && SameByte(w, b, w', r.value, i, past) {
        ReallocBytes(w, ps, b, request, mapOk, past, a, r.value, i);
      }
    }
  }

  lemma {:induction false} SameFree(segs: seq<Seg>, other: seq<Seg>, from: nat)
    requires from <= |segs| == |other|
    requires forall j :: 0 <= j < |segs| ==> segs[j].Mapped() == other[j].Mapped()
    ensures FirstFree(segs, from) == FirstFree(other, from)
    decreases |segs| - from
  {
    if from < |segs| { SameFree(segs, other, from + 1); }
  }

  /** An allocation does not look at a segment that belongs to one block. */
  lemma AllocIsBlind(w: World, ps: nat, request: nat, mapOk: bool, i: nat, mem: seq<int>)
    requires Sane(w, ps) && request <= MAX_REQUEST && i < |w.segs| && w.segs[i].Mapped() && w.segs[i].Has(VLEN)
    requires |mem| == |w.segs[i].mem| && Sane(SetMem(w, i, mem), ps)
    ensures var (a, r) := Alloc(w, ps, request, false, mapOk);
      var (a', r') := Alloc(SetMem(w, i, mem), ps, request, false, mapOk);
      r' == r && |a'.segs| == |a.segs| && forall j :: 0 <= j < |a.segs| && j != i ==> a'.segs[j] == a.segs[j]
  {
    RoundedFits(request);
    SameFree(w.segs, SetMem(w, i, mem).segs, 0);
  }

  /** Beyond 4 GiB the first payload byte past the copied ones is lost: what ends up in the new
      block does not depend on it. */
  lemma ReallocLoses(w: World, ps: nat, b: Block, request: nat, mapOk: bool, past: int)
    requires Inv(w, ps) && 0 < request <= MAX_REQUEST && b in w.live && !Enough(b.size, request)
    requires Alloc(w, ps, request, false, mapOk).1.Some?
    ensures !AlwaysKeeps(w, ps, b, request, mapOk, past)
  {
    assert BlockOk(w, ps, b);
    var n := b.size % 0x1_0000_0000;
    Below(b.size);
    LargeIsAlone(w, ps, b);
    InsideByte(w, ps, b, n);
    var word := b.off / 4 + 2 + n / 4;
    var (a, r) := Alloc(w, ps, request, false, mapOk);
    CopiesFacts(w, ps, b, request, mapOk, a, r.value);
    if AlwaysKeeps(w, ps, b, request, mapOk, past) {
      LostByte(w, ps, b, request, mapOk, past, word, 0, a, r.value);
      LostByte(w, ps, b, request, mapOk, past, word, 1, a, r.value);
    }
  }

  lemma Below(size: nat)
    requires size % 8 == 0
    ensures size % 0x1_0000_0000 % 4 == 0
    ensures size >= 0x1_0000_0000 ==> size % 0x1_0000_0000 + 8 < size
  {
    var q, m, e := size / 0x1_0000_0000, size % 0x1_0000_0000, size / 8;
    assert m == 8 * (e - 0x2000_0000 * q);
    EightIsFour(e - 0x2000_0000 * q);
  }

  lemma EightIsFour(x: int)
    ensures 8 * x % 4 == 0
  {
  }

  lemma LargeIsAlone(w: World, ps: nat, b: Block)
    requires Inv(w, ps) && b in w.live && b.size > SEGMENT_SIZE
    ensures b.seg < |w.segs| && w.segs[b.seg].Mapped() && w.segs[b.seg].Has(VLEN) && b.off == 0
  {
    assert BlockOk(w, ps, b) && Shape(w.segs[b.seg], ps);
  }

  /** A store into a large block changes nothing for the new block. */
  lemma CopiesAlike(w: World, ps: nat, b: Block, request: nat, mapOk: bool, word: nat, value: int, a: World, c: Block)
      returns (a': World)
    requires Copies(w, ps, b, request, mapOk, a, c) && b.size > SEGMENT_SIZE && b.seg < |w.segs|
    requires word < |w.segs[b.seg].mem| && InPayload(b, b.seg, word)
    ensures Copies(Poke(w, b.seg, word, value), ps, b, request, mapOk, a', c)
    ensures c.seg < |a.segs| == |a'.segs| && a'.segs[c.seg] == a.segs[c.seg]
  {
    LargeIsAlone(w, ps, b);
    StoreKeeps(w, ps, b, word, value);
    AllocIsBlind(w, ps, request, mapOk, b.seg, w.segs[b.seg].mem[word := value]);
    a' := Alloc(Poke(w, b.seg, word, value), ps, request, false, mapOk).0;
    CopiesFacts(w, ps, b, request, mapOk, a, c);
    NotInside(a, ps, b, c);
  }

  /** After the client stored `value` (0 or 1) at byte n of the old block, the new one can only
      show what the allocation left there. */
  lemma LostByte(w: World, ps: nat, b: Block, request: nat, mapOk: bool, past: int, word: nat, value: int, a: World, c: Block)
    requires Copies(w, ps, b, request, mapOk, a, c) && b.size > SEGMENT_SIZE && b.seg < |w.segs| && c.seg < |a.segs|
    requires HeaderValue(b.size) < request && HeaderValue(b.size) + 8 < b.size && HeaderValue(b.size) % 4 == 0
    requires word == b.off / 4 + 2 + HeaderValue(b.size) / 4 < |w.segs[b.seg].mem| && InPayload(b, b.seg, word) && 0 <= value <= 1
    requires Keeps(Poke(w, b.seg, word, value), ps, b, request, mapOk, past)
    ensures PayloadByte(a, c, HeaderValue(b.size), past) == value
  {
    var p, n := Poke(w, b.seg, word, value), HeaderValue(b.size);
    var a' := CopiesAlike(w, ps, b, request, mapOk, word, value, a, c);
    CopiesFacts(p, ps, b, request, mapOk, a', c);
    ReallocBytes(p, ps, b, request, mapOk, past, a', c, n);
    assert SameByte(p, b, Realloc(p, ps, Some(b), request, mapOk, past).0, c, n, past);
    Poked(w, b, word, value, n, past);
  }

  lemma Poked(w: World, b: Block, word: nat, value: int, n: nat, past: int)
    requires b.seg < |w.segs| && word == b.off / 4 + 2 + n / 4 < |w.segs[b.seg].mem| && n % 4 == 0 && 0 <= value <= 1
    ensures PayloadByte(Poke(w, b.seg, word, value), b, n, past) == value
  {
  }

  lemma NotInside(w: World, ps: nat, b: Block, c: Block)
    requires Inv(w, ps) && b in w.live && c in w.live && b != c && b.size > SEGMENT_SIZE
    ensures b.seg != c.seg
  {
    LargeIsAlone(w, ps, b);
    assert BlockOk(w, ps, c) && Apart(b, c);
  }

  /** Exactly when a reallocation that gets its memory keeps whatever the client has stored. */
  lemma ReallocExactly(w: World, ps: nat, b: Block, request: nat, mapOk: bool, past: int)
    requires Inv(w, ps) && 0 < request <= MAX_REQUEST && b in w.live
    requires Alloc(w, ps, request, false, mapOk).1.Some?
    ensures AlwaysKeeps(w, ps, b, request, mapOk, past) <==> Enough(b.size, request)
  {
    if Enough(b.size, request) {
      assert BlockOk(w, ps, b);
      forall word: nat, value | word < |w.segs[b.seg].mem| && InPayload(b, b.seg, word)
        ensures Keeps(Poke(w, b.seg, word, value), ps, b, request, mapOk, past)
      {
        StoreKeeps(w, ps, b, word, value);
        ReallocKeepsPayload(Poke(w, b.seg, word, value), ps, b, request, mapOk, past);
      }
    } else {
      ReallocLoses(w, ps, b, request, mapOk, past);
    }
  }

  // ----- exactly when memory past the mapping is read -----

  /** One of the copied bytes lies past the mapping of the block's segment. */
  ghost predicate ReadsPast(w: World, b: Block, request: nat) requires HeaderIntact(w, b) {
    exists i :: 0 <= i < CopyLength(w, b, request) && b.off / 4 + 2 + i / 4 >= |w.segs[b.seg].mem|
  }

  /** Bytes from the payload's start to the end of the mapping. */
  function Room(w: World, b: Block): int requires b.seg < |w.segs| { 4 * |w.segs[b.seg].mem| - b.off - 8 }

  lemma ReadsPastExactly(w: World, ps: nat, b: Block, request: nat)
    requires Inv(w, ps) && b in w.live
    ensures HeaderIntact(w, b)
    ensures ReadsPast(w, b, request) <==> request > Room(w, b) && HeaderValue(b.size) > Room(w, b)
  {
    assert BlockOk(w, ps, b);
    HeaderOf(w, b);
    RoomHolds(w, ps, b);
    var mem := |w.segs[b.seg].mem|;
    PastWord(mem, b.off, Room(w, b));
    forall i: nat ensures b.off / 4 + 2 + i / 4 >= mem <==> i >= Room(w, b) { PastWord(mem, b.off, i); }
  }

  lemma PastWord(mem: nat, off: nat, i: nat)
    requires off % 8 == 0
    ensures off / 4 + 2 + i / 4 >= mem <==> i >= 4 * mem - off - 8
  {
  }

  lemma RoomHolds(w: World, ps: nat, b: Block)
    requires Sane(w, ps) && BlockOk(w, ps, b)
    ensures Room(w, b) >= b.size - 8 && Room(w, b) % 8 == 0
  {
    var s := w.segs[b.seg];
    assert Shape(s, ps);
    if s.Has(VLEN) { PagesOfEight(s.nref, ps); }
    LessEights(4 * |s.mem|, b.off);
  }

  lemma LessEights(bytes: int, off: int)
    requires bytes % 8 == 0 && off % 8 == 0
    ensures (bytes - off - 8) % 8 == 0
  {
  }

  lemma PagesOfEight(npages: nat, ps: nat)
    requires ps % 8 == 0
    ensures PageBytes(npages, ps) % 8 == 0
  {
    var q := ps / 8;
    assert npages * ps == 8 * (npages * q);
  }

  /** Below 2 GiB: when the block ends where its mapping ends, and grows. */
  lemma ReadsPastBelowTwoGiB(w: World, ps: nat, b: Block, request: nat)
    requires Inv(w, ps) && b in w.live && b.size < 0x8000_0000
    ensures HeaderIntact(w, b)
    ensures ReadsPast(w, b, request) <==> b.off + b.size == 4 * |w.segs[b.seg].mem| && request > b.size - 8
  {
    assert BlockOk(w, ps, b);
    ReadsPastExactly(w, ps, b, request);
    RoomHolds(w, ps, b);
    SmallHeader(b.size);
    if Room(w, b) < b.size { Eights(Room(w, b), b.size); }
  }

  lemma SmallHeader(size: nat)
    requires size < 0x8000_0000
    ensures HeaderValue(size) == size
  {
  }

  lemma Eights(r: int, s: int)
    requires r % 8 == 0 && s % 8 == 0 && s - 8 <= r < s
    ensures r == s - 8
  {
  }

  /** Only then does the outcome depend on what lies past the mapping. */
  lemma PastMatters(w: World, ps: nat, b: Block, request: nat, mapOk: bool, past: int, other: int)
    requires Inv(w, ps) && request <= MAX_REQUEST && b in w.live && HeaderIntact(w, b) && !ReadsPast(w, b, request)
    ensures Realloc(w, ps, Some(b), request, mapOk, past) == Realloc(w, ps, Some(b), request, mapOk, other)
  {
    var (a, r) := Alloc(w, ps, request, false, mapOk);
    if request > 0 && r.Some? {
      CopiesFacts(w, ps, b, request, mapOk, a, r.value);
      SamePayload(a, b, CopyLength(a, b, request), past, other);
      SameMove(a, ps, b, r.value, request, past, other);
    }
  }

  lemma SameMove(w: World, ps: nat, b: Block, c: Block, request: nat, past: int, other: int)
    requires Inv(w, ps) && b in w.live && c in w.live && b != c && request + 8 <= c.size && HeaderIntact(w, b)
    requires b.seg < |w.segs|
    requires var n := (CopyLength(w, b, request) + 3) / 4; Payload(w, b, n, past) == Payload(w, b, n, other)
    ensures Move(w, ps, b, c, request, past) == Move(w, ps, b, c, request, other)
  {
  }

  lemma SamePayload(w: World, b: Block, n: nat, past: int, other: int)
    requires b.seg < |w.segs| && forall i :: 0 <= i < n ==> b.off / 4 + 2 + i / 4 < |w.segs[b.seg].mem|
    ensures Payload(w, b, (n + 3) / 4, past) == Payload(w, b, (n + 3) / 4, other)
  {
    forall j | 0 <= j < (n + 3) / 4 ensures PayloadWord(w, b, j, past) == PayloadWord(w, b, j, other) {
      assert 4 * j < n && 4 * j / 4 == j;
    }
  }

  // ----- blocks that a first call gives out -----

  /** The first allocation of a context, with pages of 4096 bytes. */
  lemma FirstBlock(request: nat) returns (w: World)
    requires 0 < request < 0x100_0000_0000
    ensures Inv(w, 4096) && Runs(Start(), 4096, [Malloc(request, false, true)], w)
    ensures Block(0, 0, Rounded(request)) in w.live && |w.segs| == N_SEGMENTS
    ensures Rounded(request) <= SEGMENT_SIZE ==> 4 * |w.segs[0].mem| == SEGMENT_SIZE
  {
    StartOk(4096);
    var op := Malloc(request, false, true);
    w := Step(Start(), 4096, op);
    assert Runs(w, 4096, [op][1..], w);
    RoundedFits(request);
    assert Start().segs[0] == EMPTY;
    assert FirstFree(Start().segs, 0) == 0;
  }

  /** A block of 2^32 + 16 bytes: whatever the new size, 16 bytes arrive. */
  lemma HugeBlockIsLost(request: nat) returns (w: World)
    requires request > 16
    ensures Runs(Start(), 4096, [Malloc(0x1_0000_0008, false, true)], w)
    ensures var b := Block(0, 0, 0x1_0000_0010);
      b in w.live && HeaderIntact(w, b) && CopyLength(w, b, request) == 16 && !Enough(b.size, request)
  {
    w := FirstBlock(0x1_0000_0008);
    HugeBlock(w, 4096, Block(0, 0, 0x1_0000_0010), request);
  }

  lemma HugeBlock(w: World, ps: nat, b: Block, request: nat)
    requires Inv(w, ps) && b in w.live && b.size == 0x1_0000_0010 && request > 16
    ensures HeaderIntact(w, b) && CopyLength(w, b, request) == 16 && !Enough(b.size, request)
  {
    SharedHasCount(w, ps, b);
    HeaderOf(w, b);
    SixteenOnly();
  }

  lemma SixteenOnly()
    ensures HeaderValue(0x1_0000_0010) == 16 && 0x1_0000_0010 % 0x1_0000_0000 == 16
  {
  }

  /** A block that fills its segment, grown by one byte. */
  lemma FullSegmentIsReadPast() returns (w: World)
    ensures Runs(Start(), 4096, [Malloc(SEGMENT_SIZE - 8, false, true)], w)
    ensures var b := Block(0, 0, SEGMENT_SIZE);
      b in w.live && HeaderIntact(w, b) && ReadsPast(w, b, SEGMENT_SIZE - 7)
  {
    w := FirstBlock(SEGMENT_SIZE - 8);
    FullSegment(w, 4096, Block(0, 0, SEGMENT_SIZE));
  }

  lemma FullSegment(w: World, ps: nat, b: Block)
    requires Inv(w, ps) && b in w.live && b.size == SEGMENT_SIZE && b.off == 0
    requires b.seg < |w.segs| && 4 * |w.segs[b.seg].mem| == SEGMENT_SIZE
    ensures HeaderIntact(w, b) && ReadsPast(w, b, SEGMENT_SIZE - 7)
  {
    ReadsPastBelowTwoGiB(w, ps, b, SEGMENT_SIZE - 7);
  }
}
