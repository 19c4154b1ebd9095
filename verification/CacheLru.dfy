/** What the query cache promises (lib/cache.c), as a sequence of entries from the most to
    the least recently used one.  `reserved` is the number of hash entries that are not
    cached answers: none in memory, two in the persistent form.  `flagged` says that values
    are stored behind a flag byte. */
module CacheLru {
  import opened Wrappers
  import opened CacheRing

  type Bytes = seq<int>

  datatype Key = Key(bytes: Bytes)

  const UINT32: nat := 0x1_0000_0000

  /** A 32-bit counter goes up by one and wraps around. */
  function Tick(n: nat): nat { if n + 1 == UINT32 then 0 else n + 1 }

  datatype Entry = Entry(key: Key, value: Bytes, sec: int)

  datatype Lru = Lru(entries: seq<Entry>, limit: nat, reserved: nat, flagged: bool, nfetches: nat, nhits: nat) {
    /** How many answers the limit leaves room for. */
    function Room(): nat { if limit > reserved then limit - reserved else 0 }

    ghost predicate Valid() { |entries| <= Room() && DistinctKeys(entries) }
  }

  ghost predicate DistinctKeys(es: seq<Entry>) {
    forall i, j :: 0 <= i < j < |es| ==> es[i].key != es[j].key
  }

  /** Index of the entry with the given key, or the number of entries. */
  function Find(es: seq<Entry>, key: Key): (i: nat)
    ensures i <= |es|
    ensures i < |es| ==> es[i].key == key
    ensures forall j :: 0 <= j < i ==> es[j].key != key
  {
    if es == [] || es[0].key == key then 0 else 1 + Find(es[1..], key)
  }

  /** What a fetch gives back for a stored value: the flag byte is taken off only when
      something follows it. */
  function Shown(flagged: bool, value: Bytes): Bytes {
    if flagged && value == [] then [0] else value
  }

  /** A fetch returns what was stored exactly when it was not an empty value behind a flag. */
  lemma ShownIsStored(flagged: bool, value: Bytes)
    ensures Shown(flagged, value) == value <==> !flagged || value != []
  {
  }

  function Fetch(s: Lru, key: Key, lastModified: int): (Lru, Option<Bytes>) {
    var s1 := s.(nfetches := Tick(s.nfetches));
    var i := Find(s.entries, key);
    if i == |s.entries| then (s1, None)
    else if s.entries[i].sec <= lastModified then (s1.(entries := Without(s.entries, i)), None)
    else
      (s1.(entries := [s.entries[i]] + Without(s.entries, i), nhits := Tick(s.nhits)),
       Some(Shown(s.flagged, s.entries[i].value)))
  }

  function Put(es: seq<Entry>, e: Entry): seq<Entry> {
    var i := Find(es, e.key);
    [e] + (if i < |es| then Without(es, i) else es)
  }

  function Update(s: Lru, key: Key, value: Bytes, sec: int): Lru {
    if s.limit == 0 then s
    else
      var es := Put(s.entries, Entry(key, value, sec));
      s.(entries := if |es| + s.reserved > s.limit then es[..|es| - 1] else es)
  }

  /** Drops the `size` least recently used entries, or all there are. */
  function Expire(s: Lru, size: nat): Lru {
    s.(entries := s.entries[..if size < |s.entries| then |s.entries| - size else 0])
  }

  function SetLimit(s: Lru, n: nat): Lru {
    var s1 := s.(limit := n);
    if n < s.limit then Expire(s1, s.limit - n) else s1
  }

  // ----- runs -----

  datatype Op =
    | OpFetch(key: Key, lastModified: int)
    | OpUpdate(key: Key, value: Bytes, sec: int)
    | OpExpire(size: nat)
    | OpSetLimit(n: nat)

  function Step(s: Lru, op: Op): (Lru, Option<Bytes>) {
    match op
    case OpFetch(key, lastModified) => Fetch(s, key, lastModified)
    case OpUpdate(key, value, sec) => (Update(s, key, value, sec), None)
    case OpExpire(size) => (Expire(s, size), None)
    case OpSetLimit(n) => (SetLimit(s, n), None)
  }

  function Run(s: Lru, ops: seq<Op>): Lru {
    if ops == [] then s else Step(Run(s, ops[..|ops| - 1]), ops[|ops| - 1]).0
  }

  /** The answer of operation t of a run. */
  function Answer(s: Lru, ops: seq<Op>, t: nat): Option<Bytes> requires t < |ops| {
    Step(Run(s, ops[..t]), ops[t]).1
  }

  lemma PutKeeps(es: seq<Entry>, e: Entry)
    requires DistinctKeys(es)
    ensures DistinctKeys(Put(es, e)) && |Put(es, e)| <= |es| + 1
    ensures forall i :: 0 < i < |Put(es, e)| ==> Put(es, e)[i] in es && Put(es, e)[i].key != e.key
  {
  }

  lemma StepKeeps(s: Lru, op: Op)
    requires s.Valid()
    ensures Step(s, op).0.Valid()
  {
    match op
    case OpFetch(key, lastModified) => FetchKeeps(s, key, lastModified);
    case OpUpdate(key, value, sec) => PutKeeps(s.entries, Entry(key, value, sec));
    case OpExpire(_) =>
    case OpSetLimit(_) =>
  }

  lemma FetchKeeps(s: Lru, key: Key, lastModified: int)
    requires s.Valid()
    ensures Fetch(s, key, lastModified).0.Valid()
  {
    var i := Find(s.entries, key);
    if i < |s.entries| { PutKeeps(s.entries, s.entries[i]); }
  }

  lemma {:induction false} RunKeeps(s: Lru, ops: seq<Op>)
    requires s.Valid()
    ensures Run(s, ops).Valid()
  {
    if ops != [] {
      RunKeeps(s, ops[..|ops| - 1]);
      StepKeeps(Run(s, ops[..|ops| - 1]), ops[|ops| - 1]);
    }
  }

  // ----- recency -----

  /** The operation stores or successfully fetches the key. */
  predicate UsesKey(s: Lru, op: Op, key: Key) {
    match op
    case OpFetch(k, _) => k == key && Step(s, op).1.Some?
    case OpUpdate(k, _, _) => k == key
    case _ => false
  }

  predicate Uses(s: Lru, ops: seq<Op>, t: nat, key: Key) requires t < |ops| {
    UsesKey(Run(s, ops[..t]), ops[t], key)
  }

  /** The last operation of the run that used the key, or -1. */
  function LastUse(s: Lru, ops: seq<Op>, key: Key): (t: int)
    ensures -1 <= t < |ops|
  {
    if ops == [] then -1
    else if Uses(s, ops, |ops| - 1, key) then |ops| - 1
    else LastUse(s, ops[..|ops| - 1], key)
  }

  /** Entries stand in decreasing order of a non-negative rank of their keys. */
  ghost predicate Ranked(es: seq<Entry>, rank: Key -> int) {
    && (forall i :: 0 <= i < |es| ==> rank(es[i].key) >= 0)
    && (forall i, j :: 0 <= i < j < |es| ==> rank(es[i].key) > rank(es[j].key))
  }

  lemma RankedWithout(es: seq<Entry>, i: nat, rank: Key -> int)
    requires Ranked(es, rank) && i < |es|
    ensures Ranked(Without(es, i), rank)
  {
  }

  lemma RankedAlike(es: seq<Entry>, rank: Key -> int, rank': Key -> int)
    requires Ranked(es, rank) && forall i :: 0 <= i < |es| ==> rank'(es[i].key) == rank(es[i].key)
    ensures Ranked(es, rank')
  {
  }

  lemma RankedFront(e: Entry, rest: seq<Entry>, rank: Key -> int, top: nat)
    requires Ranked(rest, rank) && rank(e.key) == top
    requires forall i :: 0 <= i < |rest| ==> rank(rest[i].key) < top
    ensures Ranked([e] + rest, rank)
  {
  }

  /** Putting the entry used last in front. */
  lemma RankedPut(es: seq<Entry>, e: Entry, rank: Key -> int, rank': Key -> int, top: nat)
    requires Ranked(es, rank) && DistinctKeys(es)
    requires rank'(e.key) == top && forall k :: k != e.key ==> rank'(k) == rank(k) < top
    ensures Ranked(Put(es, e), rank')
  {
    var i := Find(es, e.key);
    var rest := if i < |es| then Without(es, i) else es;
    if i < |es| { RankedWithout(es, i, rank); }
    assert forall k :: 0 <= k < |rest| ==> rest[k].key != e.key;
    RankedAlike(rest, rank, rank');
    RankedFront(e, rest, rank', top);
  }

  ghost function Recency(s: Lru, ops: seq<Op>): Key -> int {
    key => LastUse(s, ops, key)
  }

  /** After every run of an empty cache the entries stand by last use, the latest first. */
  lemma {:induction false} RunIsByRecency(s: Lru, ops: seq<Op>)
    requires s.entries == []
    ensures Ranked(Run(s, ops).entries, Recency(s, ops))
  {
    if ops != [] {
      var n := |ops| - 1;
      RunIsByRecency(s, ops[..n]);
      RunKeeps(s, ops[..n]);
      StepRanked(Run(s, ops[..n]), ops[n], Recency(s, ops[..n]), Recency(s, ops), n);
    }
  }

  /** One operation, which gives rank n to the key it uses. */
  lemma StepRanked(b: Lru, op: Op, rank: Key -> int, rank': Key -> int, n: nat)
    requires b.Valid() && Ranked(b.entries, rank)
    requires forall k :: rank(k) < n && rank'(k) == if UsesKey(b, op, k) then n else rank(k)
    ensures Ranked(Step(b, op).0.entries, rank')
  {
    var es := b.entries;
    match op
    case OpFetch(key, lastModified) =>
      var i := Find(es, key);
      if i < |es| {
        if es[i].sec > lastModified { RankedPut(es, es[i], rank, rank', n); }
        else { RankedWithout(es, i, rank); RankedAlike(Without(es, i), rank, rank'); }
      } else { RankedAlike(es, rank, rank'); }
    case OpUpdate(key, value, sec) =>
      if b.limit > 0 { RankedPut(es, Entry(key, value, sec), rank, rank', n); }
    case OpExpire(_) => RankedAlike(es, rank, rank');
    case OpSetLimit(_) => RankedAlike(es, rank, rank');
  }

  /** What one update drops, given ranks after it. */
  lemma UpdateDrops(b: Lru, key: Key, value: Bytes, sec: int, rank: Key -> int, e: Entry, f: Entry)
    requires b.Valid() && Ranked(Put(b.entries, Entry(key, value, sec)), rank)
    requires e in b.entries && e.key != key && e !in Update(b, key, value, sec).entries
    requires f in Update(b, key, value, sec).entries
    ensures rank(e.key) < rank(f.key)
  {
    var es := Put(b.entries, Entry(key, value, sec));
    var i :| 0 <= i < |b.entries| && b.entries[i] == e;
    var j := Find(b.entries, key);
    var m := if i < j then i + 1 else i;
    assert es[m] == e;
  }

  /** An entry that an update drops, other than the one it replaces, was used before every
      entry that stays. */
  lemma EvictsLeastRecent(s: Lru, ops: seq<Op>, key: Key, value: Bytes, sec: int, e: Entry, f: Entry)
    requires s.entries == []
    requires e in Run(s, ops).entries && e.key != key
    requires e !in Update(Run(s, ops), key, value, sec).entries && f in Update(Run(s, ops), key, value, sec).entries
    ensures var ops' := ops + [OpUpdate(key, value, sec)];
            LastUse(s, ops', e.key) < LastUse(s, ops', f.key)
  {
    var ops' := ops + [OpUpdate(key, value, sec)];
    assert ops'[..|ops|] == ops;
    RunKeeps(s, ops);
    RunIsByRecency(s, ops);
    var b := Run(s, ops);
    var rank, rank' := Recency(s, ops), Recency(s, ops');
    assert forall k :: rank(k) < |ops| && rank'(k) == if k == key then |ops| else rank(k);
    RankedPut(b.entries, Entry(key, value, sec), rank, rank', |ops|);
    UpdateDrops(b, key, value, sec, rank', e, f);
  }

  /** An update keeps the new answer first whenever there is room for one, and drops at most
      one entry besides the one it replaces. */
  lemma UpdateStores(s: Lru, key: Key, value: Bytes, sec: int)
    requires s.Valid()
    ensures var s' := Update(s, key, value, sec);
      && s'.Valid() && |s'.entries| >= |s.entries|
      && (s.Room() > 0 ==> s'.entries != [] && s'.entries[0] == Entry(key, value, sec))
  {
    StepKeeps(s, OpUpdate(key, value, sec));
  }
}
