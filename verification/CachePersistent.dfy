/** The persistent cache as it runs (lib/cache.c, the `_persistent` functions): a hash whose
    entries name their neighbours by id.  Entry 1 is the list head and entry 2 holds the
    limit and the counters, so both count against the limit. */
module CachePersistent {
  import opened Wrappers
  import opened CacheRing
  import opened CacheLru
  import opened CacheTable
  import opened CacheSteps

  const ROOT_ID: Id := 1
  const METADATA_ID: Id := 2
  const ROOT_KEY: Key := Key([0])
  const METADATA_KEY: Key := Key([1])
  const RESERVED: map<Key, Id> := map[ROOT_KEY := ROOT_ID, METADATA_KEY := METADATA_ID]

  lemma TwoReserved()
    ensures |RESERVED| == 2
  {
    assert ROOT_KEY.bytes[0] != METADATA_KEY.bytes[0];
    assert RESERVED.Keys == {ROOT_KEY, METADATA_KEY};
    assert |RESERVED| == |RESERVED.Keys|;
  }

  class PersistentCache {
    var keys: map<Key, Id>
    var slots: map<Id, Slot>
    var next: map<Id, Id>
    var prev: map<Id, Id>
    var limit: nat
    var nfetches: nat
    var nhits: nat
    /** The metadata flag that puts a flag byte before every value. */
    const flagged: bool
    ghost var order: seq<Id>

    ghost function Shape(): Form reads this { Form(ROOT_ID, RESERVED, flagged) }

    ghost function Tab(): Table reads this { Table(keys, slots, Links(next, prev)) }

    ghost predicate Linked() reads this { TableOk(Shape(), Tab(), order) }

    ghost predicate Valid() reads this { Linked() && |order| <= Abs().Room() && limit < UINT32 }

    ghost function Abs(): Lru reads this {
      Lru(Entries(Shape(), slots, order), limit, 2, flagged, nfetches, nhits)
    }

    constructor (limit: nat, flagged: bool)
      requires limit < UINT32
      ensures Valid() && Abs() == Lru([], limit, 2, flagged, 0, 0) && this.flagged == flagged
    {
      keys, slots := RESERVED, map[];
      next, prev := map[ROOT_ID := ROOT_ID], map[ROOT_ID := ROOT_ID];
      this.limit, nfetches, nhits := limit, 0, 0;
      this.flagged := flagged;
      order := [];
    }

    /** grn_cache_entry_persistent_delete_link */
    method DeleteLink(id: Id)
      requires id in next && id in prev
      modifies `next, `prev
      ensures Links(next, prev) == Unlink(old(Links(next, prev)), id)
    {
      var before, after := prev[id], next[id];
      next := next[before := after];
      prev := prev[after := before];
    }

    /** grn_cache_entry_persistent_prepend_link */
    method PrependLink(id: Id)
      requires ROOT_ID in next && id != ROOT_ID
      modifies `next, `prev
      ensures Links(next, prev) == LinkFirst(old(Links(next, prev)), ROOT_ID, id)
    {
      next := next[id := next[ROOT_ID]];
      prev := prev[id := ROOT_ID];
      prev := prev[next[ROOT_ID] := id];
      next := next[ROOT_ID := id];
    }

    /** grn_cache_expire_entry_persistent on the entry at position i of the list */
    method ExpireEntry(id: Id, ghost i: nat)
      requires Linked() && i < |order| && order[i] == id && id in slots
      modifies `keys, `next, `prev, `order
      ensures Linked() && order == Without(old(order), i)
    {
      DropKeeps(Shape(), Tab(), order, i);
      DeleteLink(id);
      keys := keys - {slots[id].key};
      order := Without(order, i);
    }

    /** Move the entry at position i of the list to its front. */
    method Promote(id: Id, ghost i: nat)
      requires Linked() && i < |order| && order[i] == id && id in slots
      modifies `next, `prev, `order
      ensures Linked() && order == [id] + Without(old(order), i)
    {
      assert SlotOk(Shape(), Tab(), id);
      RenewKeeps(Shape(), Tab(), order, i, slots[id]);
      assert slots == slots[id := slots[id]];
      DeleteLink(id);
      PrependLink(id);
      order := [id] + Without(order, i);
    }

    /** grn_cache_fetch_persistent; the root key is turned away before anything is counted. */
    method Fetch(key: Key, lastModified: int) returns (output: Option<Bytes>)
      requires Valid() && key != METADATA_KEY
      modifies this
      ensures Valid()
      ensures key == ROOT_KEY ==> Abs() == old(Abs()) && output.None?
      ensures key != ROOT_KEY ==> (Abs(), output) == CacheLru.Fetch(old(Abs()), key, lastModified)
    {
      output := None;
      if key == ROOT_KEY { return; }
      if key in keys {
        ghost var i := FoundAt(Shape(), Tab(), order, key);
        var id := keys[key];
        var slot := slots[id];
        if slot.sec <= lastModified {
          FetchStale(Shape(), slots, order, Abs(), i, lastModified);
          ExpireEntry(id, i);
        } else {
          FetchHit(Shape(), slots, order, Abs(), i, lastModified);
          output := Some(Decode(flagged, slot.bytes));
          Promote(id, i);
          nhits := Tick(nhits);
        }
      } else {
        FetchMiss(Shape(), Tab(), order, Abs(), key, lastModified);
      }
      nfetches := Tick(nfetches);
    }

    /** Store under a key, new or known, and put its entry in front. */
    method PutFirst(slot: Slot, added: Id)
      requires Linked() && added != ROOT_ID && added !in order
      requires slot.key !in RESERVED && Encoded(flagged, slot.bytes)
      modifies `keys, `slots, `next, `prev, `order
      ensures Linked()
      ensures Entries(Shape(), slots, order) == Put(old(Entries(Shape(), slots, order)), EntryOf(flagged, slot))
    {
      if slot.key in keys {
        ghost var i := FoundAt(Shape(), Tab(), order, slot.key);
        PutOld(Shape(), Tab(), order, i, slot);
        var id := keys[slot.key];
        DeleteLink(id);
        slots := slots[id := slot];
        PrependLink(id);
        order := [id] + Without(order, i);
      } else {
        PutNew(Shape(), Tab(), order, added, slot);
        keys := keys[slot.key := added];
        slots := slots[added := slot];
        PrependLink(added);
        order := [added] + order;
      }
    }

    /** Expire the entry before the list head, the least recently used one. */
    method DropOldest()
      requires Linked() && order != []
      modifies `keys, `next, `prev, `order
      ensures Linked() && order == old(order)[..|old(order)| - 1]
      ensures Entries(Shape(), slots, order) == old(Entries(Shape(), slots, order))[..|old(order)| - 1]
    {
      DropLast(Shape(), Tab(), order);
      ghost var n := |order| - 1;
      assert Without(order, n) == order[..n];
      ExpireEntry(prev[ROOT_ID], n);
    }

    /** grn_cache_update_persistent; `added` is the id the hash gives to a new key. */
    method Update(key: Key, value: Bytes, sec: int, added: Id)
      requires Valid() && added != ROOT_ID && added != METADATA_ID && added !in order
      modifies this
      ensures Valid()
      ensures Abs() == if key in RESERVED then old(Abs()) else CacheLru.Update(old(Abs()), key, value, sec)
    {
      if key == ROOT_KEY || key == METADATA_KEY { return; }
      if limit == 0 { return; }
      var slot := Slot(key, Encode(flagged, value), sec);
      assert EntryOf(flagged, slot) == Entry(key, value, sec);
      PutFirst(slot, added);
      TwoReserved();
      if |keys| > limit {
        DropOldest();
      }
    }

    /** grn_cache_expire_persistent_without_lock */
    method Expire(size: nat)
      requires Linked()
      modifies `keys, `next, `prev, `order
      ensures Linked() && |order| <= |old(order)|
      ensures Abs() == CacheLru.Expire(old(Abs()), size)
    {
      var left := size;
      ghost var gone := 0;
      ghost var es := Abs().entries;
      LastIsPrev(Links(next, prev), ROOT_ID, order);
      while prev[ROOT_ID] != ROOT_ID && left > 0
        invariant Linked()
        invariant gone <= |es| && left == size - gone
        invariant Entries(Shape(), slots, order) == es[..|es| - gone]
        invariant ROOT_ID in prev && (prev[ROOT_ID] == ROOT_ID <==> gone == |es|)
        decreases left
      {
        DropOldest();
        LastIsPrev(Links(next, prev), ROOT_ID, order);
        left := left - 1;
        gone := gone + 1;
      }
      assert |es| - gone == if size < |es| then |es| - size else 0;
    }

    /** grn_cache_set_max_n_entries_persistent */
    method SetLimit(n: nat)
      requires Valid() && n < UINT32
      modifies this
      ensures Valid() && Abs() == CacheLru.SetLimit(old(Abs()), n)
    {
      var current := limit;
      limit := n;
      if n < current { Expire(current - n); }
    }
  }
}
