/** The in-memory cache as it runs (lib/cache.c, the `_memory` functions): a hash whose
    entries hang in a circular list headed by the cache object itself. */
module CacheMemory {
  import opened Wrappers
  import opened CacheRing
  import opened CacheLru
  import opened CacheTable
  import opened CacheSteps

  const ROOT: Id := 0
  const FORM: Form := Form(ROOT, map[], true)

  class MemoryCache {
    var hash: map<Key, Id>
    var slots: map<Id, Slot>
    var next: map<Id, Id>
    var prev: map<Id, Id>
    var limit: nat
    var nfetches: nat
    var nhits: nat
    ghost var order: seq<Id>

    ghost function Tab(): Table reads this { Table(hash, slots, Links(next, prev)) }

    ghost predicate Linked() reads this { TableOk(FORM, Tab(), order) }

    ghost predicate Valid() reads this { Linked() && |order| <= limit < UINT32 }

    ghost function Abs(): Lru reads this {
      Lru(Entries(FORM, slots, order), limit, 0, true, nfetches, nhits)
    }

    constructor (limit: nat)
      requires limit < UINT32
      ensures Valid() && Abs() == Lru([], limit, 0, true, 0, 0)
    {
      hash, slots := map[], map[];
      next, prev := map[ROOT := ROOT], map[ROOT := ROOT];
      this.limit, nfetches, nhits := limit, 0, 0;
      order := [];
    }

    /** grn_cache_expire_entry_memory */
    method ExpireEntry(id: Id)
      requires id in next && id in prev && id in slots
      modifies `hash, `next, `prev
      ensures Tab() == Drop(old(Tab()), id)
    {
      Unlink(id);
      hash := hash - {slots[id].key};
    }

    method Unlink(id: Id)
      requires id in next && id in prev
      modifies `next, `prev
      ensures Links(next, prev) == CacheRing.Unlink(old(Links(next, prev)), id)
    {
      var before, after := prev[id], next[id];
      next := next[before := after];
      prev := prev[after := before];
    }

    method LinkFirst(id: Id)
      requires ROOT in next && id != ROOT
      modifies `next, `prev
      ensures Links(next, prev) == CacheRing.LinkFirst(old(Links(next, prev)), ROOT, id)
    {
      next := next[id := next[ROOT]];
      prev := prev[id := ROOT];
      prev := prev[next[ROOT] := id];
      next := next[ROOT := id];
    }

    /** Move the entry at position i of the list to its front. */
    method Promote(id: Id, ghost i: nat)
      requires Linked() && i < |order| && order[i] == id && id in slots
      modifies `next, `prev, `order
      ensures Linked() && order == [id] + Without(old(order), i)
    {
      assert SlotOk(FORM, Tab(), id);
      RenewKeeps(FORM, Tab(), order, i, slots[id]);
      assert slots == slots[id := slots[id]];
      Unlink(id);
      LinkFirst(id);
      order := [id] + Without(order, i);
    }

    /** Take the entry at position i out of the list and the hash. */
    method Discard(id: Id, ghost i: nat)
      requires Linked() && i < |order| && order[i] == id
      modifies `hash, `next, `prev, `order
      ensures Linked() && order == Without(old(order), i)
    {
      DropKeeps(FORM, Tab(), order, i);
      ExpireEntry(id);
      order := Without(order, i);
    }

    /** grn_cache_fetch_memory */
    method Fetch(key: Key, lastModified: int) returns (output: Option<Bytes>)
      requires Valid()
      modifies this
      ensures Valid() && (Abs(), output) == CacheLru.Fetch(old(Abs()), key, lastModified)
    {
      output := None;
      if key in hash {
        ghost var i := FoundAt(FORM, Tab(), order, key);
        var id := hash[key];
        var slot := slots[id];
        if slot.sec <= lastModified {
          FetchStale(FORM, slots, order, Abs(), i, lastModified);
          Discard(id, i);
        } else {
          FetchHit(FORM, slots, order, Abs(), i, lastModified);
          output := Some(Decode(true, slot.bytes));
          Promote(id, i);
          nhits := Tick(nhits);
        }
      } else {
        FetchMiss(FORM, Tab(), order, Abs(), key, lastModified);
      }
      nfetches := Tick(nfetches);
    }

    /** Store under a key, new or known, and put its entry in front. */
    method PutFirst(slot: Slot, added: Id)
      requires Linked() && added != ROOT && added !in order && Encoded(true, slot.bytes)
      modifies `hash, `slots, `next, `prev, `order
      ensures Linked()
      ensures Entries(FORM, slots, order) == Put(old(Entries(FORM, slots, order)), EntryOf(true, slot))
    {
      if slot.key in hash {
        ghost var i := FoundAt(FORM, Tab(), order, slot.key);
        PutOld(FORM, Tab(), order, i, slot);
        var id := hash[slot.key];
        Unlink(id);
        slots := slots[id := slot];
        LinkFirst(id);
        order := [id] + Without(order, i);
      } else {
        PutNew(FORM, Tab(), order, added, slot);
        hash := hash[slot.key := added];
        slots := slots[added := slot];
        LinkFirst(added);
        order := [added] + order;
      }
    }

    /** Expire the entry before the list head, the least recently used one. */
    method DropOldest()
      requires Linked() && order != []
      modifies `hash, `next, `prev, `order
      ensures Linked() && order == old(order)[..|old(order)| - 1]
      ensures Entries(FORM, slots, order) == old(Entries(FORM, slots, order))[..|old(order)| - 1]
    {
      DropLast(FORM, Tab(), order);
      ExpireEntry(prev[ROOT]);
      order := order[..|order| - 1];
    }

    /** grn_cache_update_memory; `added` is the id the hash gives to a new key. */
    method Update(key: Key, value: Bytes, sec: int, added: Id)
      requires Valid() && added != ROOT && added !in order
      modifies this
      ensures Valid() && Abs() == CacheLru.Update(old(Abs()), key, value, sec)
    {
      if limit == 0 { return; }
      var slot := Slot(key, Encode(true, value), sec);
      assert EntryOf(true, slot) == Entry(key, value, sec);
      PutFirst(slot, added);
      if |hash| > limit {
        DropOldest();
      }
    }

    /** grn_cache_expire_memory_without_lock.  The hash is truncated only when the list is
        already empty, although the counter wraps around below zero. */
    method Expire(size: nat)
      requires Linked() && size < UINT32
      modifies `hash, `next, `prev, `order
      ensures Linked() && |order| <= |old(order)|
      ensures Abs() == CacheLru.Expire(old(Abs()), size)
    {
      var left := size;
      ghost var gone := 0;
      ghost var es := Abs().entries;
      while true
        invariant Linked()
        invariant gone <= size && gone <= |es| && left == size - gone
        invariant Entries(FORM, slots, order) == es[..|es| - gone]
        decreases |es| - gone
      {
        LastIsPrev(Links(next, prev), ROOT, order);
        if prev[ROOT] == ROOT { break; }
        var was := left;
        left := if left == 0 then UINT32 - 1 else left - 1;
        if was == 0 { break; }
        DropOldest();
        gone := gone + 1;
      }
      if left == 0 {
        assert order == [];
        hash := map[];
      }
    }

    /** grn_cache_set_max_n_entries_memory */
    method SetLimit(n: nat)
      requires Valid() && n < UINT32
      modifies this
      ensures Valid() && Abs() == CacheLru.SetLimit(old(Abs()), n)
    {
      var current := limit;
      limit := n;
      if n < current { Expire(current - n); }
    }
  }
}
