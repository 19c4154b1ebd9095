/** Finding table keys in a normalized text (the normalizing branch of grn_dat_scan in
    lib/dat.cpp).  `checks[i]` is zero when byte i continues a character, and otherwise the
    number of bytes of the original text that the character starting at i stands for, or
    negative when those were counted for an earlier character. */
module DatScan {
  type Bytes = seq<int>

  datatype Hit = Hit(id: nat, offset: nat, length: nat)

  /** Bytes pos .. pos + len of the normalized text. */
  datatype Cut = Cut(pos: nat, len: nat)

  /** Trie::lcp_search: the length of the longest key that is a prefix of s, or 0.  Keys are
      never empty: adding or renaming to an empty key is refused. */
  function Longest(keys: map<Bytes, nat>, s: Bytes): (l: nat)
    ensures l <= |s|
    ensures l > 0 ==> s[..l] in keys
    ensures forall m :: l < m <= |s| ==> s[..m] !in keys
  {
    LongestUpTo(keys, s, |s|)
  }

  function LongestUpTo(keys: map<Bytes, nat>, s: Bytes, n: nat): (l: nat)
    requires n <= |s|
    ensures l <= n
    ensures l > 0 ==> s[..l] in keys
    ensures forall m :: l < m <= n ==> s[..m] !in keys
  {
    if n == 0 || s[..n] in keys then n else LongestUpTo(keys, s, n - 1)
  }

  /** Original bytes that a run of normalized bytes stands for. */
  function Width(checks: seq<int>): nat {
    if checks == [] then 0
    else Width(checks[..|checks| - 1]) + (if checks[|checks| - 1] > 0 then checks[|checks| - 1] else 0)
  }

  lemma {:induction false} WidthConcat(a: seq<int>, b: seq<int>)
    ensures Width(a + b) == Width(a) + Width(b)
  {
    if b == [] {
      assert a + b == a;
    } else {
      WidthConcat(a, b[..|b| - 1]);
      assert (a + b)[..|a + b| - 1] == a + b[..|b| - 1];
    }
  }

  /** One byte stands for as many original bytes as its check says, and for none if that is not
      positive; runs of bytes add up (WidthConcat). */
  lemma WidthOfOne(check: int)
    ensures Width([]) == 0
    ensures Width([check]) == if check > 0 then check else 0
  {
    assert [check][..0] == [];
  }

  /** A table's keys with their ids, and a normalized text with its checks. */
  datatype Input = Input(keys: map<Bytes, nat>, str: Bytes, checks: seq<int>) {
    predicate Valid() { |checks| == |str| }

    /** A key is taken at p: p starts a character, and so does whatever follows the longest
        matching key. */
    predicate HitAt(p: nat) requires Valid() {
      p < |str| && checks[p] != 0 &&
      var l := Longest(keys, str[p..]);
      l > 0 && (p + l == |str| || checks[p + l] != 0)
    }

    predicate CutOk(c: Cut) requires Valid() {
      HitAt(c.pos) && c.len == Longest(keys, str[c.pos..])
    }
  }

  /** By the keys alone: a key of positive length matches at a character start and ends where the
      text does or another character starts, and no longer prefix is a key. */
  lemma HitExactly(t: Input, p: nat)
    requires t.Valid()
    ensures t.HitAt(p) <==>
      p < |t.str| && t.checks[p] != 0 && exists l: nat ::
        && 0 < l <= |t.str| - p && t.str[p..][..l] in t.keys
        && (forall m :: l < m <= |t.str| - p ==> t.str[p..][..m] !in t.keys)
        && (p + l < |t.str| ==> t.checks[p + l] != 0)
  {
    if p < |t.str| {
      var s := t.str[p..];
      var l := Longest(t.keys, s);
      assert forall k: nat :: 0 < k <= |s| && s[..k] in t.keys && (forall m :: k < m <= |s| ==> s[..m] !in t.keys) ==> k == l;
    }
  }

  function From(cuts: seq<Cut>, k: nat): nat requires k <= |cuts| {
    if k == 0 then 0 else cuts[k - 1].pos + cuts[k - 1].len
  }

  function To(cuts: seq<Cut>, end: nat, k: nat): nat requires k <= |cuts| {
    if k < |cuts| then cuts[k].pos else end
  }

  /** Nothing is taken between cut k and the one before it. */
  ghost predicate GapOk(t: Input, cuts: seq<Cut>, end: nat, k: nat)
    requires t.Valid() && k <= |cuts|
  {
    && From(cuts, k) <= To(cuts, end, k)
    && forall p :: From(cuts, k) <= p < To(cuts, end, k) ==> !t.HitAt(p)
  }

  /** The cuts are all the places before `end` where a key is taken, from left to right and
      without overlap. */
  ghost predicate Cuts(t: Input, cuts: seq<Cut>, end: nat) requires t.Valid() {
    && (forall k :: 0 <= k < |cuts| ==> t.CutOk(cuts[k]))
    && (forall k :: 0 <= k <= |cuts| ==> GapOk(t, cuts, end, k))
  }

  /** A scan for at most `max` hits ends with the text, or after the last wanted hit. */
  ghost predicate IsScan(t: Input, max: nat, cuts: seq<Cut>, end: nat) requires t.Valid() {
    && Cuts(t, cuts, end) && |cuts| <= max
    && end == if |cuts| == max then From(cuts, max) else |t.str|
  }

  /** Two scans agree from cut to cut. */
  lemma {:induction false} SameCut(t: Input, max: nat, c: seq<Cut>, e: nat, d: seq<Cut>, f: nat, k: nat)
    requires t.Valid() && IsScan(t, max, c, e) && IsScan(t, max, d, f) && k <= |c| && k <= |d|
    ensures c[..k] == d[..k]
    ensures k < |c| ==> k < |d| && c[k].pos == d[k].pos
  {
    if k > 0 {
      SameCut(t, max, c, e, d, f, k - 1);
      assert t.CutOk(c[k - 1]) && t.CutOk(d[k - 1]);
      assert c[..k] == c[..k - 1] + [c[k - 1]] && d[..k] == d[..k - 1] + [d[k - 1]];
      assert From(c, k) == From(d, k);
    }
    assert GapOk(t, c, e, k) && GapOk(t, d, f, k);
    assert k < |c| ==> t.CutOk(c[k]);
    assert k < |d| ==> t.CutOk(d[k]);
  }

  /** There is only one scan of a text. */
  lemma ScanIsUnique(t: Input, max: nat, c: seq<Cut>, e: nat, d: seq<Cut>, f: nat)
    requires t.Valid() && IsScan(t, max, c, e) && IsScan(t, max, d, f)
    ensures c == d && e == f
  {
    var n := if |c| < |d| then |c| else |d|;
    SameCut(t, max, c, e, d, f, n);
    SameCut(t, max, d, f, c, e, n);
    assert c == c[..n] && d == d[..n];
  }

  /** A hit reports the key's id and its place and length in the original text. */
  predicate Reports(t: Input, c: Cut, h: Hit) {
    && c.pos + c.len <= |t.str| == |t.checks| && t.str[c.pos..c.pos + c.len] in t.keys
    && h.id == t.keys[t.str[c.pos..c.pos + c.len]]
    && h.offset == Width(t.checks[..c.pos]) && h.length == Width(t.checks[c.pos..c.pos + c.len])
  }

  lemma {:induction false} AddCut(t: Input, cuts: seq<Cut>, pos: nat, l: nat)
    requires t.Valid() && Cuts(t, cuts, pos) && t.CutOk(Cut(pos, l))
    ensures Cuts(t, cuts + [Cut(pos, l)], pos + l)
  {
    var cuts', end := cuts + [Cut(pos, l)], pos + l;
    forall k | 0 <= k <= |cuts'| ensures GapOk(t, cuts', end, k) {
      if k <= |cuts| {
        assert GapOk(t, cuts, pos, k);
        assert From(cuts', k) == From(cuts, k) && To(cuts', end, k) == To(cuts, pos, k);
      }
    }
  }

  lemma Skip(t: Input, cuts: seq<Cut>, pos: nat, end: nat)
    requires t.Valid() && Cuts(t, cuts, pos) && !t.HitAt(pos) && end == pos + 1
    ensures Cuts(t, cuts, end)
  {
    forall k | 0 <= k <= |cuts| ensures GapOk(t, cuts, end, k) {
      assert GapOk(t, cuts, pos, k);
    }
  }

  /** The inner loop: original bytes behind n normalized ones from pos. */
  method Measure(checks: seq<int>, pos: nat, n: nat) returns (length: nat)
    requires pos + n <= |checks|
    ensures length == Width(checks[pos..pos + n])
  {
    length := 0;
    for i := 0 to n
      invariant length == Width(checks[pos..pos + i])
    {
      assert checks[pos..pos + i + 1][..i] == checks[pos..pos + i];
      if checks[pos + i] > 0 { length := length + checks[pos + i]; }
    }
  }

  lemma Widen(checks: seq<int>, pos: nat, n: nat)
    requires pos + n <= |checks|
    ensures Width(checks[..pos + n]) == Width(checks[..pos]) + Width(checks[pos..pos + n])
  {
    assert checks[..pos + n] == checks[..pos] + checks[pos..pos + n];
    WidthConcat(checks[..pos], checks[pos..pos + n]);
  }

  /** The longest key at pos, if it may be taken there; length 0 if not. */
  method Match(t: Input, pos: nat, offset: nat) returns (l: nat, hit: Hit)
    requires t.Valid() && pos < |t.str| && offset == Width(t.checks[..pos])
    ensures l == 0 <==> !t.HitAt(pos)
    ensures l > 0 ==> t.CutOk(Cut(pos, l)) && Reports(t, Cut(pos, l), hit)
    ensures l > 0 ==> pos + l <= |t.str| && offset + hit.length == Width(t.checks[..pos + l])
  {
    l, hit := 0, Hit(0, 0, 0);
    if t.checks[pos] != 0 {
      var n := Longest(t.keys, t.str[pos..]);
      if n > 0 && (pos + n == |t.str| || t.checks[pos + n] != 0) {
        var length := Measure(t.checks, pos, n);
        assert t.str[pos..][..n] == t.str[pos..pos + n];
        Widen(t.checks, pos, n);
        l, hit := n, Hit(t.keys[t.str[pos..pos + n]], offset, length);
      }
    }
  }

  ghost predicate AllReport(t: Input, cuts: seq<Cut>, hits: seq<Hit>) {
    |hits| == |cuts| && forall k :: 0 <= k < |hits| ==> Reports(t, cuts[k], hits[k])
  }

  lemma AddReport(t: Input, cuts: seq<Cut>, hits: seq<Hit>, c: Cut, h: Hit)
    requires AllReport(t, cuts, hits) && Reports(t, c, h)
    ensures AllReport(t, cuts + [c], hits + [h])
  {
    forall k | 0 <= k < |hits| + 1 ensures Reports(t, (cuts + [c])[k], (hits + [h])[k]) {
      if k < |hits| { assert Reports(t, cuts[k], hits[k]); }
    }
  }

  function EndOf(c: Cut): nat { c.pos + c.len }

  lemma EndsThere(t: Input, max: nat, cuts: seq<Cut>, end: nat)
    requires t.Valid() && Cuts(t, cuts, end) && |cuts| <= max
    requires if |cuts| < max then end == |t.str| else cuts != [] && end == EndOf(cuts[|cuts| - 1])
    ensures IsScan(t, max, cuts, end)
  {
  }

  /** One byte on. */
  lemma WidenOne(checks: seq<int>, pos: nat)
    requires pos < |checks|
    ensures Width(checks[..pos + 1]) == Width(checks[..pos]) + if checks[pos] > 0 then checks[pos] else 0
  {
    assert checks[..pos + 1][..pos] == checks[..pos];
  }

  /** The scan up to position pos of the text. */
  ghost predicate SoFar(t: Input, pos: nat, rest: nat, hits: seq<Hit>, cuts: seq<Cut>) requires t.Valid() {
    pos <= |t.str| && Cuts(t, cuts, pos) && AllReport(t, cuts, hits) && rest == Width(t.checks[..pos])
  }

  /** One round of the loop: a hit, or one byte on. */
  method Advance(t: Input, pos: nat, rest: nat, hits: seq<Hit>, ghost cuts: seq<Cut>)
    returns (pos': nat, rest': nat, hits': seq<Hit>, ghost cuts': seq<Cut>)
    requires t.Valid() && pos < |t.str| && SoFar(t, pos, rest, hits, cuts)
    ensures pos < pos' && SoFar(t, pos', rest', hits', cuts') && |hits| <= |hits'| <= |hits| + 1
    ensures |hits'| > |hits| ==> |cuts'| == |hits'| && EndOf(cuts'[|cuts'| - 1]) == pos'
  {
    var l, hit := Match(t, pos, rest);
    if l > 0 {
      AddCut(t, cuts, pos, l);
      AddReport(t, cuts, hits, Cut(pos, l), hit);
      pos', rest', hits', cuts' := pos + l, rest + hit.length, hits + [hit], cuts + [Cut(pos, l)];
    } else {
      Skip(t, cuts, pos, pos + 1);
      WidenOne(t.checks, pos);
      pos', rest', hits', cuts' := pos + 1, rest, hits, cuts;
      if t.checks[pos] > 0 { rest' := rest' + t.checks[pos]; }
    }
  }

  /** These hits, with the unread original text starting at `rest`, are what a scan gives; the
      cuts are the hits' places in the normalized text. */
  ghost predicate Gives(t: Input, max: nat, hits: seq<Hit>, rest: nat, cuts: seq<Cut>, end: nat) requires t.Valid() {
    end <= |t.str| && IsScan(t, max, cuts, end) && AllReport(t, cuts, hits) && rest == Width(t.checks[..end])
  }

  ghost predicate IsResult(t: Input, max: nat, hits: seq<Hit>, rest: nat) requires t.Valid() {
    exists cuts, end :: Gives(t, max, hits, rest, cuts, end)
  }

  /** grn_dat_scan with normalizers. */
  method Scan(t: Input, max: nat) returns (hits: seq<Hit>, rest: nat)
    requires t.Valid()
    ensures IsResult(t, max, hits, rest)
  {
    hits, rest := [], 0;
    ghost var cuts := [];
    if max == 0 {
      assert Gives(t, max, hits, rest, cuts, 0);
      return;
    }
    var pos := 0;
    while pos < |t.str|
      invariant pos <= |t.str| && |hits| < max && SoFar(t, pos, rest, hits, cuts)
    {
      pos, rest, hits, cuts := Advance(t, pos, rest, hits, cuts);
      if |hits| >= max { break; }
    }
    EndsThere(t, max, cuts, pos);
    assert Gives(t, max, hits, rest, cuts, pos);
  }

  /** A text has one result only. */
  lemma ResultIsUnique(t: Input, max: nat, hits: seq<Hit>, rest: nat, hits': seq<Hit>, rest': nat)
    requires t.Valid() && IsResult(t, max, hits, rest) && IsResult(t, max, hits', rest')
    ensures hits == hits' && rest == rest'
  {
    var c, e :| Gives(t, max, hits, rest, c, e);
    var d, f :| Gives(t, max, hits', rest', d, f);
    ScanIsUnique(t, max, c, e, d, f);
    forall k | 0 <= k < |c| ensures hits[k] == hits'[k] {
      assert Reports(t, c[k], hits[k]) && Reports(t, c[k], hits'[k]);
    }
  }

  lemma {:induction false} CutsInOrder(t: Input, cuts: seq<Cut>, end: nat, j: nat, k: nat)
    requires t.Valid() && Cuts(t, cuts, end) && j < k <= |cuts|
    ensures cuts[j].pos + cuts[j].len <= To(cuts, end, k)
  {
    assert GapOk(t, cuts, end, k);
    if j + 1 < k { CutsInOrder(t, cuts, end, j, k - 1); }
  }

  /** Hits do not overlap in the original text either, and what is left starts after them. */
  lemma HitsInOrder(t: Input, max: nat, hits: seq<Hit>, rest: nat, j: nat, k: nat)
    requires t.Valid() && IsResult(t, max, hits, rest) && j < k <= |hits|
    ensures hits[j].offset + hits[j].length <= if k < |hits| then hits[k].offset else rest
  {
    var cuts, end :| Gives(t, max, hits, rest, cuts, end);
    CutsInOrder(t, cuts, end, j, k);
    assert Reports(t, cuts[j], hits[j]) && (k < |hits| ==> Reports(t, cuts[k], hits[k]));
    NotBefore(t, cuts[j], hits[j], To(cuts, end, k));
  }

  lemma NotBefore(t: Input, c: Cut, h: Hit, b: nat)
    requires Reports(t, c, h) && c.pos + c.len <= b <= |t.checks|
    ensures h.offset + h.length <= Width(t.checks[..b])
  {
    Widen(t.checks, c.pos, c.len);
    Widen(t.checks, c.pos + c.len, b - (c.pos + c.len));
  }
}
