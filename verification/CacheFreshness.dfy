/** Why a cache hit may be served: queries and modifications of the database interleave in
    any way, and a hit still equals the answer computed now (lib/cache.c with the stamps of
    lib/ctx.cpp and lib/db.c).  Database contents are numbered; `answer` is what a query
    computes on a given content. */
module CacheFreshness {
  import opened Wrappers
  import opened CacheLru

  /** A command being processed: its start second, and its answer once computed. */
  datatype Query = Query(key: Key, start: int, result: Option<Bytes>)

  datatype System = System(clock: nat, lastModified: int, db: int, cache: Lru, queries: map<nat, Query>)

  datatype Event =
    | Pass(seconds: nat)
    | Modify(db: int)
    | Begin(worker: nat, key: Key)
    | Compute(worker: nat)
    | Finish(worker: nat)
    | Look(key: Key)
    | Shrink(op: Op)

  /** The second kept with the database is an unsigned 32-bit number. */
  function Recorded(clock: nat): nat { if clock < UINT32 then clock else clock % UINT32 }

  /** Workers compute and finish only commands they began; Shrink is an expiry or a new limit. */
  predicate Enabled(s: System, e: Event) {
    match e
    case Compute(w) => w in s.queries
    case Finish(w) => w in s.queries && s.queries[w].result.Some?
    case Shrink(op) => op.OpExpire? || op.OpSetLimit?
    case _ => true
  }

  function Next(s: System, e: Event, answer: (Key, int) -> Bytes): System
    requires Enabled(s, e)
  {
    match e
    case Pass(seconds) => s.(clock := s.clock + seconds)
    case Modify(db) => s.(db := db, lastModified := Recorded(s.clock))
    case Begin(w, key) => s.(queries := s.queries[w := Query(key, s.clock, None)])
    case Compute(w) =>
      s.(queries := s.queries[w := s.queries[w].(result := Some(answer(s.queries[w].key, s.db)))])
    case Finish(w) =>
      var q := s.queries[w];
      s.(cache := Update(s.cache, q.key, q.result.value, q.start), queries := s.queries - {w})
    case Look(key) => s.(cache := Fetch(s.cache, key, s.lastModified).0)
    case Shrink(op) => s.(cache := Step(s.cache, op).0)
  }

  predicate EntryFresh(s: System, e: Entry, answer: (Key, int) -> Bytes) {
    e.sec <= s.clock && (e.sec > s.lastModified ==> e.value == answer(e.key, s.db))
  }

  predicate QueryFresh(s: System, q: Query, answer: (Key, int) -> Bytes) {
    q.start <= s.clock
    && (q.result.Some? && q.start > s.lastModified ==> q.result.value == answer(q.key, s.db))
  }

  /** Whatever is stamped after the last modification was computed on the present content. */
  ghost predicate Fresh(s: System, answer: (Key, int) -> Bytes) {
    && s.lastModified <= s.clock
    && (forall i :: 0 <= i < |s.cache.entries| ==> EntryFresh(s, s.cache.entries[i], answer))
    && (forall w :: w in s.queries ==> QueryFresh(s, s.queries[w], answer))
  }

  lemma SubsetFresh(s: System, s': System, answer: (Key, int) -> Bytes)
    requires Fresh(s, answer) && s'.clock == s.clock && s'.db == s.db && s'.lastModified == s.lastModified
    requires forall i :: 0 <= i < |s'.cache.entries| ==>
               s'.cache.entries[i] in s.cache.entries || EntryFresh(s, s'.cache.entries[i], answer)
    requires forall w :: w in s'.queries ==> w in s.queries && s'.queries[w] == s.queries[w]
    ensures Fresh(s', answer)
  {
    forall i | 0 <= i < |s'.cache.entries| ensures EntryFresh(s', s'.cache.entries[i], answer) {
      assert EntryFresh(s, s'.cache.entries[i], answer);
    }
  }

  lemma FinishFresh(s: System, w: nat, answer: (Key, int) -> Bytes)
    requires Fresh(s, answer) && w in s.queries && s.queries[w].result.Some? && QueryFresh(s, s.queries[w], answer)
    ensures Fresh(Next(s, Finish(w), answer), answer)
  {
    var q := s.queries[w];
    var e := Entry(q.key, q.result.value, q.start);
    assert EntryFresh(s, e, answer);
    assert forall x :: x in Put(s.cache.entries, e) ==> x in s.cache.entries || x == e;
    SubsetFresh(s, Next(s, Finish(w), answer), answer);
  }

  lemma NextFresh(s: System, e: Event, answer: (Key, int) -> Bytes)
    requires Fresh(s, answer) && Enabled(s, e) && s.clock < UINT32
    ensures Fresh(Next(s, e, answer), answer)
  {
    var s' := Next(s, e, answer);
    match e
    case Pass(_) =>
    case Modify(_) =>
    case Begin(_, _) =>
    case Compute(w) => assert QueryFresh(s, s.queries[w], answer);
    case Finish(w) =>
      assert QueryFresh(s, s.queries[w], answer);
      FinishFresh(s, w, answer);
    case Look(key) => SubsetFresh(s, s', answer);
    case Shrink(_) => SubsetFresh(s, s', answer);
  }

  /** A run whose clock does not go beyond `last`. */
  ghost predicate Runs(s: System, events: seq<Event>, end: System, answer: (Key, int) -> Bytes, last: nat)
    decreases |events|
  {
    s.clock <= last &&
    if events == [] then end == s
    else Enabled(s, events[0]) && Runs(Next(s, events[0], answer), events[1..], end, answer, last)
  }

  lemma {:induction false} RunFresh(s: System, events: seq<Event>, end: System, answer: (Key, int) -> Bytes, last: nat)
    requires Fresh(s, answer) && Runs(s, events, end, answer, last) && last < UINT32
    ensures Fresh(end, answer)
    decreases |events|
  {
    if events != [] {
      NextFresh(s, events[0], answer);
      RunFresh(Next(s, events[0], answer), events[1..], end, answer, last);
    }
  }

  predicate Empty(s: System) { s.cache.entries == [] && s.queries == map[] && s.lastModified <= s.clock }

  /** A hit in this state is what computing the query now would show. */
  predicate HitIsCurrent(s: System, key: Key, answer: (Key, int) -> Bytes) {
    var hit := Fetch(s.cache, key, s.lastModified).1;
    hit.Some? ==> hit.value == Shown(s.cache.flagged, answer(key, s.db))
  }

  /** At any point of any history that starts with an empty cache. */
  lemma HitsAreCurrent(s: System, events: seq<Event>, end: System, key: Key, answer: (Key, int) -> Bytes, last: nat)
    requires Empty(s) && Runs(s, events, end, answer, last) && last < UINT32
    ensures HitIsCurrent(end, key, answer)
  {
    RunFresh(s, events, end, answer, last);
    var i := Find(end.cache.entries, key);
    if i < |end.cache.entries| { assert EntryFresh(end, end.cache.entries[i], answer); }
  }

  // ----- beyond 32 bits -----

  /** The query is what the database holds. */
  function Content(): (Key, int) -> Bytes { (key, db) => [db] }

  function NewCache(): System { System(0, 0, 7, Lru([], 10, 0, true, 0, 0), map[]) }

  /** A query is answered in second 2^32, and the database modified in the same second. */
  function WrapHistory(key: Key): seq<Event> { [Pass(UINT32), Begin(1, key), Compute(1), Finish(1), Modify(8)] }

  function WrappedCache(key: Key): System {
    System(UINT32, 0, 8, Lru([Entry(key, [7], UINT32)], 10, 0, true, 0, 0), map[])
  }

  lemma {:induction false} RunChain(s: System, events: seq<Event>, states: seq<System>, answer: (Key, int) -> Bytes, last: nat)
    requires |states| == |events| + 1 && states[0] == s
    requires forall i :: 0 <= i <= |events| ==> states[i].clock <= last
    requires forall i :: 0 <= i < |events| ==>
               Enabled(states[i], events[i]) && states[i + 1] == Next(states[i], events[i], answer)
    ensures Runs(s, events, states[|events|], answer, last)
    decreases |events|
  {
    if events != [] { RunChain(states[1], events[1..], states[1..], answer, last); }
  }

  lemma WrapRuns(key: Key, last: nat)
    requires last >= UINT32
    ensures Runs(NewCache(), WrapHistory(key), WrappedCache(key), Content(), last)
  {
    assert UINT32 % UINT32 == 0;
    var s := NewCache();
    var a := s.(clock := UINT32);
    var b := a.(queries := map[1 := Query(key, UINT32, None)]);
    var c := a.(queries := map[1 := Query(key, UINT32, Some([7]))]);
    var e := Entry(key, [7], UINT32);
    assert Put([], e) == [e];
    var d := a.(cache := s.cache.(entries := [e]));
    assert c.queries - {1} == map[];
    RunChain(s, WrapHistory(key), [s, a, b, c, d, WrappedCache(key)], Content(), last);
  }

  /** The recorded second has wrapped to 0, and the old answer is served. */
  lemma StaleAfterWrap(key: Key)
    ensures Empty(NewCache()) && Fetch(WrappedCache(key).cache, key, WrappedCache(key).lastModified).1 == Some([7])
    ensures Content()(key, WrappedCache(key).db) == [8] && !HitIsCurrent(WrappedCache(key), key, Content())
  {
    assert Find(WrappedCache(key).cache.entries, key) == 0;
  }

  ghost predicate CurrentAfter(s: System, events: seq<Event>, end: System, key: Key, answer: (Key, int) -> Bytes, last: nat) {
    Empty(s) && Runs(s, events, end, answer, last) ==> HitIsCurrent(end, key, answer)
  }

  /** Hits are current in every history up to second `last` exactly when that is below 2^32. */
  lemma HitsAreCurrentExactly(last: nat)
    ensures (forall s, events, end, key, answer :: CurrentAfter(s, events, end, key, answer, last)) <==> last < UINT32
  {
    if last < UINT32 {
      forall s, events, end, key, answer ensures CurrentAfter(s, events, end, key, answer, last) {
        if Empty(s) && Runs(s, events, end, answer, last) { HitsAreCurrent(s, events, end, key, answer, last); }
      }
    } else {
      var key := Key([]);
      WrapRuns(key, last);
      StaleAfterWrap(key);
      assert !CurrentAfter(NewCache(), WrapHistory(key), WrappedCache(key), key, Content(), last);
    }
  }
}
