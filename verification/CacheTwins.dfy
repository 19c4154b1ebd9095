/** The two forms of the cache answer alike: the persistent one, which counts its root and
    metadata records against its limit, behaves as the memory one with two entries less. */
module CacheTwins {
  import opened Wrappers
  import opened CacheLru

  /** The limit that gives a memory cache the room a persistent one has under limit n. */
  function MemoryLimit(n: nat): nat { if n > 2 then n - 2 else 0 }

  function MemoryOp(op: Op): Op {
    if op.OpSetLimit? then OpSetLimit(MemoryLimit(op.n)) else op
  }

  function MemoryOps(ops: seq<Op>): (r: seq<Op>)
    ensures |r| == |ops| && forall t :: 0 <= t < |ops| ==> r[t] == MemoryOp(ops[t])
  {
    seq(|ops|, t requires 0 <= t < |ops| => MemoryOp(ops[t]))
  }

  ghost predicate Twins(m: Lru, p: Lru) {
    && m.reserved == 0 && p.reserved == 2
    && m.entries == p.entries && m.limit == MemoryLimit(p.limit)
    && m.nfetches == p.nfetches && m.nhits == p.nhits
    && (m.flagged == p.flagged || forall i :: 0 <= i < |m.entries| ==> m.entries[i].value != [])
  }

  /** Empty values are told apart when only one of the two stores a flag byte. */
  predicate Storable(m: Lru, p: Lru, op: Op) {
    op.OpUpdate? && op.value == [] ==> m.flagged == p.flagged
  }

  lemma TwinFetch(m: Lru, p: Lru, key: Key, lastModified: int)
    requires Twins(m, p)
    ensures Twins(Fetch(m, key, lastModified).0, Fetch(p, key, lastModified).0)
    ensures Fetch(m, key, lastModified).1 == Fetch(p, key, lastModified).1
  {
  }

  lemma TwinUpdate(m: Lru, p: Lru, key: Key, value: Bytes, sec: int)
    requires Twins(m, p) && p.Valid() && (value == [] ==> m.flagged == p.flagged)
    ensures Twins(Update(m, key, value, sec), Update(p, key, value, sec))
  {
    PutKeeps(p.entries, Entry(key, value, sec));
    if 0 < p.limit <= 2 { assert p.entries == []; }
  }

  lemma TwinStep(m: Lru, p: Lru, op: Op)
    requires Twins(m, p) && p.Valid() && Storable(m, p, op)
    ensures Twins(Step(m, MemoryOp(op)).0, Step(p, op).0)
    ensures Step(m, MemoryOp(op)).1 == Step(p, op).1
  {
    match op
    case OpFetch(key, lastModified) => TwinFetch(m, p, key, lastModified);
    case OpUpdate(key, value, sec) => TwinUpdate(m, p, key, value, sec);
    case OpExpire(_) =>
    case OpSetLimit(_) =>
  }

  /** For every sequence of operations the two forms hold the same entries in the same
      order, so they evict the same ones, and count the same fetches and hits. */
  lemma {:induction false} TwinRuns(m: Lru, p: Lru, ops: seq<Op>)
    requires Twins(m, p) && p.Valid() && forall t :: 0 <= t < |ops| ==> Storable(m, p, ops[t])
    ensures Twins(Run(m, MemoryOps(ops)), Run(p, ops))
  {
    if ops != [] {
      var n := |ops| - 1;
      var ms := MemoryOps(ops);
      assert ms[..n] == MemoryOps(ops[..n]);
      TwinRuns(m, p, ops[..n]);
      RunKeeps(p, ops[..n]);
      SameFlag(m, ms[..n]);
      SameFlag(p, ops[..n]);
      TwinStep(Run(m, ms[..n]), Run(p, ops[..n]), ops[n]);
    }
  }

  /** Every operation of the run is answered alike. */
  lemma TwinAnswers(m: Lru, p: Lru, ops: seq<Op>, t: nat)
    requires Twins(m, p) && p.Valid() && t < |ops|
    requires forall u :: 0 <= u <= t ==> Storable(m, p, ops[u])
    ensures Answer(m, MemoryOps(ops), t) == Answer(p, ops, t)
  {
    assert MemoryOps(ops)[..t] == MemoryOps(ops[..t]);
    TwinRuns(m, p, ops[..t]);
    RunKeeps(p, ops[..t]);
    SameFlag(m, MemoryOps(ops[..t]));
    SameFlag(p, ops[..t]);
    TwinStep(Run(m, MemoryOps(ops[..t])), Run(p, ops[..t]), ops[t]);
  }

  lemma {:induction false} SameFlag(s: Lru, ops: seq<Op>)
    ensures Run(s, ops).flagged == s.flagged
  {
    if ops != [] { SameFlag(s, ops[..|ops| - 1]); }
  }

  /** Without the flag byte on one side an empty value is answered differently. */
  lemma EmptyValueDiffers(key: Key)
    ensures var ops := [OpUpdate(key, [], 1), OpFetch(key, 0)];
            var m := Lru([], 10, 0, true, 0, 0);
            var p := Lru([], 12, 2, false, 0, 0);
            Twins(m, p) && Answer(m, ops, 1) == Some([0]) && Answer(p, ops, 1) == Some([])
  {
    var ops := [OpUpdate(key, [], 1), OpFetch(key, 0)];
    assert ops[..1] == [OpUpdate(key, [], 1)] && ops[..1][..0] == [];
    var e := Entry(key, [], 1);
    assert Put([], e) == [e];
    assert Run(Lru([], 10, 0, true, 0, 0), ops[..1]).entries == [e];
    assert Run(Lru([], 12, 2, false, 0, 0), ops[..1]).entries == [e];
  }
}
