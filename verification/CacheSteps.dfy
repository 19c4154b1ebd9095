/** What fetches, updates and evictions do to the hash and the ring, against the
    sequence of entries they stand for. */
module CacheSteps {
  import opened Wrappers
  import opened CacheRing
  import opened CacheLru
  import opened CacheTable

  lemma FetchMiss(f: Form, t: Table, order: seq<Id>, s: Lru, key: Key, sec: int)
    requires TableOk(f, t, order) && key !in f.reserved && key !in t.hash
    requires s.entries == Entries(f, t.slots, order)
    ensures Fetch(s, key, sec) == (s.(nfetches := Tick(s.nfetches)), None)
  {
    Lookup(f, t, order, key);
  }

  lemma ShownSlot(flagged: bool, slot: Slot)
    requires Encoded(flagged, slot.bytes)
    ensures Shown(flagged, EntryOf(flagged, slot).value) == Decode(flagged, slot.bytes)
  {
    if flagged && |slot.bytes| == 1 { assert slot.bytes == [0]; }
  }

  /** Where a stored key hangs in the ring, and that both ways a fetch may go keep the table. */
  lemma FoundAt(f: Form, t: Table, order: seq<Id>, key: Key) returns (i: nat)
    requires TableOk(f, t, order) && key !in f.reserved && key in t.hash
    ensures i < |order| && i == Find(Entries(f, t.slots, order), key)
    ensures t.hash[key] == order[i] && order[i] in t.slots && order[i] != f.root && t.slots[order[i]].key == key
    ensures Encoded(f.flagged, t.slots[order[i]].bytes)
    ensures order[i] in t.links.next && order[i] in t.links.prev && f.root in Unlink(t.links, order[i]).next
  {
    Lookup(f, t, order, key);
    i := Find(Entries(f, t.slots, order), key);
    assert SlotOk(f, t, order[i]);
    DropKeeps(f, t, order, i);
    RenewKeeps(f, t, order, i, t.slots[order[i]]);
  }

  lemma FetchStale(f: Form, slots: map<Id, Slot>, order: seq<Id>, s: Lru, i: nat, sec: int)
    requires i < |order| && order[i] in slots && slots[order[i]].sec <= sec
    requires s.entries == Entries(f, slots, order) && i == Find(s.entries, slots[order[i]].key)
    ensures Fetch(s, slots[order[i]].key, sec)
        == (s.(entries := Entries(f, slots, Without(order, i)), nfetches := Tick(s.nfetches)), None)
  {
    assert Entries(f, slots, Without(order, i)) == Without(s.entries, i);
    assert s.entries[i].sec == slots[order[i]].sec;
  }

  lemma FetchHit(f: Form, slots: map<Id, Slot>, order: seq<Id>, s: Lru, i: nat, sec: int)
    requires i < |order| && order[i] in slots && slots[order[i]].sec > sec
    requires s.entries == Entries(f, slots, order) && i == Find(s.entries, slots[order[i]].key)
    requires s.flagged == f.flagged && Encoded(f.flagged, slots[order[i]].bytes)
    ensures Fetch(s, slots[order[i]].key, sec)
        == (s.(entries := Entries(f, slots, [order[i]] + Without(order, i)),
               nfetches := Tick(s.nfetches), nhits := Tick(s.nhits)),
            Some(Decode(f.flagged, slots[order[i]].bytes)))
  {
    assert Entries(f, slots, [order[i]] + Without(order, i)) == [s.entries[i]] + Without(s.entries, i);
    assert s.entries[i] == EntryOf(f.flagged, slots[order[i]]);
    ShownSlot(f.flagged, slots[order[i]]);
  }

  /** An update, before the limit is looked at. */
  lemma PutNew(f: Form, t: Table, order: seq<Id>, id: Id, slot: Slot)
    requires TableOk(f, t, order) && id != f.root && id !in order
    requires slot.key !in t.hash && slot.key !in f.reserved && Encoded(f.flagged, slot.bytes)
    ensures f.root in t.links.next && TableOk(f, Insert(f, t, id, slot), [id] + order)
    ensures Entries(f, Insert(f, t, id, slot).slots, [id] + order)
              == Put(Entries(f, t.slots, order), EntryOf(f.flagged, slot))
  {
    Lookup(f, t, order, slot.key);
    InsertKeeps(f, t, order, id, slot);
  }

  lemma PutOld(f: Form, t: Table, order: seq<Id>, i: nat, slot: Slot)
    requires TableOk(f, t, order) && i < |order| && Encoded(f.flagged, slot.bytes)
    requires slot.key == At(t.slots, order[i]).key && i == Find(Entries(f, t.slots, order), slot.key)
    ensures order[i] in t.links.next && order[i] in t.links.prev && f.root in Unlink(t.links, order[i]).next
    ensures TableOk(f, Renew(f, t, order[i], slot), [order[i]] + Without(order, i))
    ensures Entries(f, Renew(f, t, order[i], slot).slots, [order[i]] + Without(order, i))
              == Put(Entries(f, t.slots, order), EntryOf(f.flagged, slot))
  {
    RenewKeeps(f, t, order, i, slot);
  }

  /** The least recently used entry goes. */
  lemma DropLast(f: Form, t: Table, order: seq<Id>)
    requires TableOk(f, t, order)
    ensures f.root in t.links.prev && t.links.prev[f.root] == if order == [] then f.root else order[|order| - 1]
    ensures order != [] ==>
      var id := order[|order| - 1];
      && id != f.root && id in t.links.next && id in t.links.prev && id in t.slots
      && TableOk(f, Drop(t, id), order[..|order| - 1])
      && Entries(f, t.slots, order[..|order| - 1]) == Entries(f, t.slots, order)[..|order| - 1]
  {
    LastIsPrev(t.links, f.root, order);
    if order != [] {
      var n := |order| - 1;
      DropKeeps(f, t, order, n);
      assert Without(order, n) == order[..n];
      var es := Entries(f, t.slots, order);
      assert Without(es, n) == es[..n];
    }
  }
}
