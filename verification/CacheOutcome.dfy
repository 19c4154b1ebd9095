/** What each cache operation leaves, entry by entry (lib/cache.c). */
module CacheOutcome {
  import opened Wrappers
  import opened CacheRing
  import opened CacheLru

  /** The entries of other keys, in their order. */
  function Others(es: seq<Entry>, key: Key): (r: seq<Entry>)
    ensures |r| <= |es| && forall e :: e in r <==> e in es && e.key != key
  {
    if es == [] then []
    else
      var front, last := Others(es[..|es| - 1], key), es[|es| - 1];
      if last.key == key then front else front + [last]
  }

  ghost predicate HasKey(es: seq<Entry>, key: Key) { exists i :: 0 <= i < |es| && es[i].key == key }

  lemma {:induction false} OthersOfAbsent(es: seq<Entry>, key: Key)
    requires !HasKey(es, key)
    ensures Others(es, key) == es
  {
    if es != [] {
      assert es[|es| - 1].key != key;
      assert forall i :: 0 <= i < |es| - 1 ==> es[..|es| - 1][i] == es[i];
      OthersOfAbsent(es[..|es| - 1], key);
    }
  }

  lemma {:induction false} OthersIsWithout(es: seq<Entry>, key: Key, i: nat)
    requires DistinctKeys(es) && i < |es| && es[i].key == key
    ensures Others(es, key) == Without(es, i)
  {
    var n := |es| - 1;
    if i == n {
      OthersOfLast(es);
    } else {
      OthersIsWithout(es[..n], key, i);
      WithoutLast(es, i);
    }
  }

  lemma OthersOfLast(es: seq<Entry>)
    requires DistinctKeys(es) && es != []
    ensures Others(es, es[|es| - 1].key) == Without(es, |es| - 1)
  {
    var n := |es| - 1;
    assert !HasKey(es[..n], es[n].key);
    OthersOfAbsent(es[..n], es[n].key);
    assert es[n + 1..] == [];
  }

  lemma WithoutLast(es: seq<Entry>, i: nat)
    requires i < |es| - 1
    ensures Without(es, i) == Without(es[..|es| - 1], i) + [es[|es| - 1]]
  {
  }

  /** Where a key is found, and what is left without it. */
  lemma Found(es: seq<Entry>, key: Key)
    requires DistinctKeys(es)
    ensures var i := Find(es, key);
      && (i < |es| <==> HasKey(es, key))
      && Others(es, key) == if i < |es| then Without(es, i) else es
  {
    var i := Find(es, key);
    if i < |es| { OthersIsWithout(es, key, i); } else { OthersOfAbsent(es, key); }
  }

  // ----- fetch -----

  /** The entry a fetch may show. */
  predicate Shows(e: Entry, key: Key, lastModified: int) { e.key == key && e.sec > lastModified }

  lemma OnlyOne(es: seq<Entry>, e: Entry)
    requires DistinctKeys(es) && e in es
    ensures Find(es, e.key) < |es| && es[Find(es, e.key)] == e
  {
    var i :| 0 <= i < |es| && es[i] == e;
    assert Find(es, e.key) <= i;
  }

  /** A fetch hits exactly when there is an entry that was stored after the last modification. */
  lemma FetchHitsExactly(s: Lru, key: Key, lastModified: int)
    requires s.Valid()
    ensures Fetch(s, key, lastModified).1.Some? <==> exists e :: e in s.entries && Shows(e, key, lastModified)
  {
    var i := Find(s.entries, key);
    assert i < |s.entries| && s.entries[i].sec > lastModified ==> Shows(s.entries[i], key, lastModified);
    forall e | e in s.entries && Shows(e, key, lastModified) ensures Fetch(s, key, lastModified).1.Some? {
      OnlyOne(s.entries, e);
    }
  }

  /** Then its value is shown and it goes first; the others stay in their order. */
  lemma FetchMovesToFront(s: Lru, e: Entry, lastModified: int)
    requires s.Valid() && e in s.entries && e.sec > lastModified
    ensures Fetch(s, e.key, lastModified) ==
      (s.(entries := [e] + Others(s.entries, e.key), nfetches := Tick(s.nfetches), nhits := Tick(s.nhits)),
       Some(Shown(s.flagged, e.value)))
  {
    OnlyOne(s.entries, e);
    Found(s.entries, e.key);
  }

  /** Otherwise the entry of that key, which is stale, is all that goes. */
  lemma FetchDropsStale(s: Lru, key: Key, lastModified: int)
    requires s.Valid() && Fetch(s, key, lastModified).1.None?
    ensures Fetch(s, key, lastModified).0 == s.(entries := Others(s.entries, key), nfetches := Tick(s.nfetches))
  {
    Found(s.entries, key);
  }

  // ----- update -----

  lemma PutIsFirst(es: seq<Entry>, e: Entry)
    requires DistinctKeys(es)
    ensures Put(es, e) == [e] + Others(es, e.key)
  {
    Found(es, e.key);
  }

  lemma CutLast(e: Entry, rest: seq<Entry>)
    ensures ([e] + rest)[..|rest|] == if rest == [] then [] else [e] + rest[..|rest| - 1]
  {
  }

  /** Every answer is in its place: the new one first, then those of other keys in their order,
      without the last one only when there is no room for it. */
  lemma UpdateExactly(s: Lru, key: Key, value: Bytes, sec: int)
    requires s.Valid()
    ensures var s' := Update(s, key, value, sec);
      var rest := Others(s.entries, key);
      && s' == s.(entries := s'.entries)
      && s'.entries ==
           if s.Room() == 0 then []
           else if |rest| == s.Room() then [Entry(key, value, sec)] + rest[..|rest| - 1]
           else [Entry(key, value, sec)] + rest
  {
    var e, rest := Entry(key, value, sec), Others(s.entries, key);
    PutIsFirst(s.entries, e);
    CutLast(e, rest);
  }

  /** Exactly which entry of another key an update loses. */
  lemma UpdateLosesExactly(s: Lru, key: Key, value: Bytes, sec: int, i: nat)
    requires s.Valid() && i < |s.entries| && s.entries[i].key != key
    ensures s.entries[i] !in Update(s, key, value, sec).entries <==>
      |s.entries| == s.Room() && !HasKey(s.entries, key) && i == |s.entries| - 1
  {
    UpdateExactly(s, key, value, sec);
    Found(s.entries, key);
    var es, rest := s.entries, Others(s.entries, key);
    assert es[i] in rest;
    if HasKey(es, key) {
      assert |rest| < |es|;
    } else if |rest| == s.Room() {
      assert rest[..|rest| - 1] + [es[|es| - 1]] == es;
      if i < |es| - 1 { assert rest[..|rest| - 1][i] == es[i]; }
    }
  }

  // ----- expiry and a new limit -----

  /** Exactly the `size` last entries go, or all there are. */
  lemma ExpireExactly(s: Lru, size: nat, i: nat)
    requires s.Valid() && i < |s.entries|
    ensures Expire(s, size).entries <= s.entries && Expire(s, size) == s.(entries := Expire(s, size).entries)
    ensures s.entries[i] in Expire(s, size).entries <==> i + size < |s.entries|
  {
    var es, left := s.entries, Expire(s, size).entries;
    if i + size < |es| { assert left[i] == es[i]; }
  }

  /** A limit that is lowered by d drops the d last entries, whether or not they would still fit. */
  lemma SetLimitExactly(s: Lru, n: nat, i: nat)
    requires s.Valid() && i < |s.entries|
    ensures SetLimit(s, n).limit == n && SetLimit(s, n).entries <= s.entries
    ensures s.entries[i] in SetLimit(s, n).entries <==> n >= s.limit || i + (s.limit - n) < |s.entries|
  {
    var es := s.entries;
    if n < s.limit {
      var s1 := s.(limit := n);
      var left := Expire(s1, s.limit - n).entries;
      assert i + (s.limit - n) < |es| ==> left[i] == es[i];
    }
  }

  /** Three answers and a limit lowered from ten to five: none is left. */
  lemma FittingAnswersAreDropped(a: Entry, b: Entry, c: Entry)
    ensures SetLimit(Lru([a, b, c], 10, 0, true, 0, 0), 5).entries == []
  {
  }
}
