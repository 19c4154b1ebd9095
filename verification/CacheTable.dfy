/** The hash behind a cache: from keys to ids, and from ids to what is stored.  Both cache
    forms keep every non-reserved id of the hash in the ring, in the order of the entries
    it stands for. */
module CacheTable {
  import opened CacheRing
  import opened CacheLru

  /** What tells the two cache forms apart: the id of the ring's root, the keys that are not
      cached answers, and whether a flag byte is stored before each value. */
  datatype Form = Form(root: Id, reserved: map<Key, Id>, flagged: bool)

  datatype Slot = Slot(key: Key, bytes: Bytes, sec: int)

  datatype Table = Table(hash: map<Key, Id>, slots: map<Id, Slot>, links: Links)

  /** The stored form of a value, and what a fetch takes out of it. */
  function Encode(flagged: bool, value: Bytes): Bytes { if flagged then [0] + value else value }

  function Decode(flagged: bool, bytes: Bytes): Bytes {
    if flagged && |bytes| > 1 then bytes[1..] else bytes
  }

  predicate Encoded(flagged: bool, bytes: Bytes) { flagged ==> bytes != [] && bytes[0] == 0 }

  function ValueOf(flagged: bool, bytes: Bytes): Bytes {
    if flagged && bytes != [] then bytes[1..] else bytes
  }

  function EntryOf(flagged: bool, s: Slot): Entry { Entry(s.key, ValueOf(flagged, s.bytes), s.sec) }

  const ABSENT: Slot := Slot(Key([]), [], 0)

  function At(slots: map<Id, Slot>, id: Id): Slot { if id in slots then slots[id] else ABSENT }

  /** The entries the ids stand for. */
  function Entries(f: Form, slots: map<Id, Slot>, order: seq<Id>): (es: seq<Entry>)
    ensures |es| == |order|
    ensures forall i :: 0 <= i < |order| ==> es[i] == EntryOf(f.flagged, At(slots, order[i]))
  {
    seq(|order|, i requires 0 <= i < |order| => EntryOf(f.flagged, At(slots, order[i])))
  }

  predicate SlotOk(f: Form, t: Table, id: Id) {
    && id in t.slots && t.slots[id].key !in f.reserved
    && t.slots[id].key in t.hash && t.hash[t.slots[id].key] == id
    && Encoded(f.flagged, t.slots[id].bytes)
  }

  ghost predicate IndexOk(f: Form, t: Table, order: seq<Id>) {
    && (forall key :: key in f.reserved ==> key in t.hash && t.hash[key] == f.reserved[key])
    && (forall i :: 0 <= i < |order| ==> SlotOk(f, t, order[i]))
  }

  /** The ring holds the ids of unreserved keys; by the count, of all of them. */
  ghost predicate TableOk(f: Form, t: Table, order: seq<Id>) {
    && IsRing(t.links, f.root, order)
    && |t.hash| == |order| + |f.reserved|
    && IndexOk(f, t, order)
  }

  function KeysOf(t: Table, order: seq<Id>): set<Key> {
    set i | 0 <= i < |order| :: At(t.slots, order[i]).key
  }

  lemma {:induction false} CountKeys(f: Form, t: Table, order: seq<Id>)
    requires IndexOk(f, t, order) && Distinct(order)
    ensures |KeysOf(t, order)| == |order|
  {
    if order == [] {
      assert KeysOf(t, order) == {};
    } else {
      var n := |order| - 1;
      CountKeys(f, t, order[..n]);
      assert SlotOk(f, t, order[n]);
      var last := t.slots[order[n]].key;
      assert forall i :: 0 <= i < n ==> SlotOk(f, t, order[i]) && At(t.slots, order[i]).key != last;
      assert KeysOf(t, order) == KeysOf(t, order[..n]) + {last};
    }
  }

  lemma SameSize(a: set<Key>, b: set<Key>)
    requires a <= b && |a| == |b|
    ensures a == b
  {
    assert b == a + (b - a) && |b| == |a| + |b - a|;
  }

  /** The unreserved keys of the hash are exactly those of the ring's members. */
  lemma AllKeys(f: Form, t: Table, order: seq<Id>)
    requires TableOk(f, t, order)
    ensures KeysOf(t, order) + f.reserved.Keys == t.hash.Keys
  {
    RingDistinct(t.links, f.root, order);
    CountKeys(f, t, order);
    assert forall i :: 0 <= i < |order| ==> SlotOk(f, t, order[i]);
    assert |t.hash| == |t.hash.Keys| && |f.reserved| == |f.reserved.Keys|;
    SameSize(KeysOf(t, order) + f.reserved.Keys, t.hash.Keys);
  }

  /** Looking a key up in the hash finds its place among the entries. */
  lemma Lookup(f: Form, t: Table, order: seq<Id>, key: Key)
    requires TableOk(f, t, order) && key !in f.reserved
    ensures var i := Find(Entries(f, t.slots, order), key);
            if key in t.hash then i < |order| && t.hash[key] == order[i] && order[i] in t.slots && t.slots[order[i]].key == key
            else i == |order|
  {
    AllKeys(f, t, order);
    var i := Find(Entries(f, t.slots, order), key);
    assert i < |order| ==> SlotOk(f, t, order[i]);
    if key in t.hash {
      assert key in KeysOf(t, order);
      var j :| 0 <= j < |order| && At(t.slots, order[j]).key == key;
      assert Entries(f, t.slots, order)[j].key == key;
    }
  }

  lemma OneKeyLess(hash: map<Key, Id>, key: Key)
    requires key in hash
    ensures |hash - {key}| == |hash| - 1
  {
    var less := hash - {key};
    assert less.Keys == hash.Keys - {key};
    assert |less| == |less.Keys| && |hash| == |hash.Keys|;
  }

  lemma OneKeyMore(hash: map<Key, Id>, key: Key, id: Id)
    requires key !in hash
    ensures |hash[key := id]| == |hash| + 1
  {
    var more := hash[key := id];
    OneKeyLess(more, key);
    assert more - {key} == hash;
  }

  // ----- deleting an entry -----

  /** Take member id out of the ring and its key out of the hash; the slot is left behind. */
  function Drop(t: Table, id: Id): Table
    requires id in t.links.next && id in t.links.prev && id in t.slots
  {
    Table(t.hash - {t.slots[id].key}, t.slots, Unlink(t.links, id))
  }

  lemma DropIndex(f: Form, t: Table, t': Table, order: seq<Id>, i: nat)
    requires IndexOk(f, t, order) && Distinct(order) && i < |order| && order[i] in t.slots
    requires t'.hash == t.hash - {t.slots[order[i]].key} && t'.slots == t.slots
    ensures IndexOk(f, t', Without(order, i))
  {
    var order' := Without(order, i);
    assert SlotOk(f, t, order[i]);
    forall k | 0 <= k < |order'| ensures SlotOk(f, t', order'[k]) {
      var m := if k < i then k else k + 1;
      assert order'[k] == order[m] && SlotOk(f, t, order[m]);
    }
  }

  lemma DropKeeps(f: Form, t: Table, order: seq<Id>, i: nat)
    requires TableOk(f, t, order) && i < |order|
    ensures order[i] in t.links.next && order[i] in t.links.prev && order[i] in t.slots
    ensures TableOk(f, Drop(t, order[i]), Without(order, i))
    ensures Entries(f, t.slots, Without(order, i)) == Without(Entries(f, t.slots, order), i)
  {
    UnlinkRing(t.links, f.root, order, i);
    RingDistinct(t.links, f.root, order);
    assert SlotOk(f, t, order[i]);
    OneKeyLess(t.hash, t.slots[order[i]].key);
    DropIndex(f, t, Drop(t, order[i]), order, i);
  }

  // ----- moving an entry to the front, maybe with a new value -----

  /** Move member id to the front and let it store s. */
  function Renew(f: Form, t: Table, id: Id, s: Slot): Table
    requires id in t.links.next && id in t.links.prev && f.root in Unlink(t.links, id).next
  {
    t.(slots := t.slots[id := s], links := LinkFirst(Unlink(t.links, id), f.root, id))
  }

  lemma RenewIndex(f: Form, t: Table, t': Table, order: seq<Id>, i: nat, s: Slot)
    requires IndexOk(f, t, order) && Distinct(order) && i < |order|
    requires s.key == At(t.slots, order[i]).key && Encoded(f.flagged, s.bytes)
    requires t'.hash == t.hash && t'.slots == t.slots[order[i] := s]
    ensures IndexOk(f, t', [order[i]] + Without(order, i))
  {
    var order' := [order[i]] + Without(order, i);
    assert SlotOk(f, t, order[i]);
    forall k | 0 <= k < |order'| ensures SlotOk(f, t', order'[k]) {
      var m := if k == 0 then i else if k <= i then k - 1 else k;
      assert order'[k] == order[m] && SlotOk(f, t, order[m]);
    }
  }

  lemma RenewEntries(f: Form, slots: map<Id, Slot>, order: seq<Id>, i: nat, s: Slot)
    requires Distinct(order) && i < |order|
    ensures Entries(f, slots[order[i] := s], [order[i]] + Without(order, i))
              == [EntryOf(f.flagged, s)] + Without(Entries(f, slots, order), i)
  {
  }

  lemma RenewKeeps(f: Form, t: Table, order: seq<Id>, i: nat, s: Slot)
    requires TableOk(f, t, order) && i < |order|
    requires s.key == At(t.slots, order[i]).key && Encoded(f.flagged, s.bytes)
    ensures order[i] in t.links.next && order[i] in t.links.prev && f.root in Unlink(t.links, order[i]).next
    ensures TableOk(f, Renew(f, t, order[i], s), [order[i]] + Without(order, i))
    ensures Entries(f, Renew(f, t, order[i], s).slots, [order[i]] + Without(order, i))
              == [EntryOf(f.flagged, s)] + Without(Entries(f, t.slots, order), i)
  {
    UnlinkRing(t.links, f.root, order, i);
    RingDistinct(t.links, f.root, order);
    LinkFirstRing(Unlink(t.links, order[i]), f.root, Without(order, i), order[i]);
    RenewIndex(f, t, Renew(f, t, order[i], s), order, i, s);
    RenewEntries(f, t.slots, order, i, s);
  }

  // ----- adding an entry -----

  /** A new member in front. */
  function Insert(f: Form, t: Table, id: Id, s: Slot): Table
    requires f.root in t.links.next
  {
    Table(t.hash[s.key := id], t.slots[id := s], LinkFirst(t.links, f.root, id))
  }

  lemma InsertIndex(f: Form, t: Table, t': Table, order: seq<Id>, id: Id, s: Slot)
    requires IndexOk(f, t, order) && id !in order
    requires s.key !in t.hash && s.key !in f.reserved && Encoded(f.flagged, s.bytes)
    requires t'.hash == t.hash[s.key := id] && t'.slots == t.slots[id := s]
    ensures IndexOk(f, t', [id] + order)
  {
    var order' := [id] + order;
    forall k | 0 <= k < |order'| ensures SlotOk(f, t', order'[k]) {
      if k > 0 { assert SlotOk(f, t, order[k - 1]); }
    }
  }

  lemma InsertKeeps(f: Form, t: Table, order: seq<Id>, id: Id, s: Slot)
    requires TableOk(f, t, order) && id != f.root && id !in order
    requires s.key !in t.hash && s.key !in f.reserved && Encoded(f.flagged, s.bytes)
    ensures f.root in t.links.next
    ensures TableOk(f, Insert(f, t, id, s), [id] + order)
    ensures Entries(f, Insert(f, t, id, s).slots, [id] + order)
              == [EntryOf(f.flagged, s)] + Entries(f, t.slots, order)
  {
    LinkFirstRing(t.links, f.root, order, id);
    OneKeyMore(t.hash, s.key, id);
    InsertIndex(f, t, Insert(f, t, id, s), order, id, s);
  }
}
