/** The trie behind a double-array table, as lib/dat/trie.cpp behaves towards lib/dat.cpp: a
    one-to-one table of ids and keys.  A removed id goes on top of a free list and the next
    insertion takes it from there, so the choice of ids is deterministic. */
module DatTrie {
  import opened Wrappers

  type Id = nat

  datatype Key = Key(bytes: seq<int>)

  datatype Trie = Trie(keys: map<Id, Key>, ids: map<Key, Id>, free: seq<Id>, maxId: nat)

  const EMPTY: Trie := Trie(map[], map[], [], 0)

  predicate FreeOk(t: Trie, i: nat) requires i < |t.free| { t.free[i] !in t.keys && t.free[i] <= t.maxId }

  /** Ids and keys are in one-to-one correspondence, and free ids are not in use. */
  ghost predicate Ok(t: Trie) {
    && (forall id :: id in t.keys ==> t.keys[id] in t.ids && t.ids[t.keys[id]] == id && id <= t.maxId)
    && (forall key :: key in t.ids ==> t.ids[key] in t.keys && t.keys[t.ids[key]] == key)
    && (forall i :: 0 <= i < |t.free| ==> FreeOk(t, i))
    && (forall i, j :: 0 <= i < j < |t.free| ==> t.free[i] != t.free[j])
  }

  function NextId(t: Trie): Id { if t.free != [] then t.free[0] else t.maxId + 1 }

  function Insert(t: Trie, key: Key): Trie {
    if key in t.ids then t
    else
      var id := NextId(t);
      Trie(t.keys[id := key], t.ids[key := id],
           if t.free != [] then t.free[1..] else [], if id > t.maxId then id else t.maxId)
  }

  function Remove(t: Trie, key: Key): Trie
  {
    if key !in t.ids then t
    else Trie(t.keys - {t.ids[key]}, t.ids - {key}, [t.ids[key]] + t.free, t.maxId)
  }

  /** Give the key of an id a new spelling; nothing happens when the new key is taken. */
  function Rename(t: Trie, id: Id, dest: Key): Trie {
    if id !in t.keys || dest in t.ids then t
    else t.(keys := t.keys[id := dest], ids := (t.ids - {t.keys[id]})[dest := id])
  }

  datatype Op =
    | Add(key: Key)
    | DeleteKey(key: Key)
    | DeleteId(id: Id)
    | UpdateKey(src: Key, dest: Key)
    | UpdateId(id: Id, dest: Key)

  function Apply(t: Trie, op: Op): Trie {
    match op
    case Add(key) => Insert(t, key)
    case DeleteKey(key) => Remove(t, key)
    case DeleteId(id) => if id in t.keys then Remove(t, t.keys[id]) else t
    case UpdateKey(src, dest) => if src in t.ids then Rename(t, t.ids[src], dest) else t
    case UpdateId(id, dest) => Rename(t, id, dest)
  }

  /** Whether the table call reports success, so that `wal_id` moves on. */
  predicate Succeeds(t: Trie, op: Op) {
    match op
    case Add(_) => true
    case DeleteKey(key) => key in t.ids
    case DeleteId(id) => id in t.keys
    case UpdateKey(src, dest) => src in t.ids && t.ids[src] in t.keys && dest !in t.ids
    case UpdateId(id, dest) => id in t.keys && dest !in t.ids
  }

  /** The operations one after the other. */
  function ApplyAll(t: Trie, ops: seq<Op>): Trie {
    if ops == [] then t else Apply(ApplyAll(t, ops[..|ops| - 1]), ops[|ops| - 1])
  }

  lemma InsertOk(t: Trie, key: Key)
    requires Ok(t)
    ensures Ok(Insert(t, key))
  {
    var t' := Insert(t, key);
    if key !in t.ids {
      if t.free != [] { assert FreeOk(t, 0); }
      forall i | 0 <= i < |t'.free| ensures FreeOk(t', i) { assert FreeOk(t, i + 1); }
    }
  }

  lemma RemoveOk(t: Trie, key: Key)
    requires Ok(t)
    ensures Ok(Remove(t, key))
  {
    var t' := Remove(t, key);
    if key in t.ids {
      forall i | 0 <= i < |t'.free| ensures FreeOk(t', i) {
        if i > 0 { assert FreeOk(t, i - 1); }
      }
      forall i | 0 <= i < |t.free| ensures t.free[i] != t.ids[key] { assert FreeOk(t, i); }
    }
  }

  lemma RenameOk(t: Trie, id: Id, dest: Key)
    requires Ok(t)
    ensures Ok(Rename(t, id, dest))
  {
    var t' := Rename(t, id, dest);
    forall i | 0 <= i < |t'.free| ensures FreeOk(t', i) { assert FreeOk(t, i); }
  }

  lemma ApplyOk(t: Trie, op: Op)
    requires Ok(t)
    ensures Ok(Apply(t, op))
  {
    match op
    case Add(key) => InsertOk(t, key);
    case DeleteKey(key) => RemoveOk(t, key);
    case DeleteId(id) => if id in t.keys { RemoveOk(t, t.keys[id]); }
    case UpdateKey(src, dest) => if src in t.ids { RenameOk(t, t.ids[src], dest); }
    case UpdateId(id, dest) => RenameOk(t, id, dest);
  }

  lemma {:induction false} ApplyAllOk(t: Trie, ops: seq<Op>)
    requires Ok(t)
    ensures Ok(ApplyAll(t, ops))
  {
    if ops != [] {
      ApplyAllOk(t, ops[..|ops| - 1]);
      ApplyOk(ApplyAll(t, ops[..|ops| - 1]), ops[|ops| - 1]);
    }
  }

  // ----- the table that callers see -----

  /** The key of an id. */
  function Lookup(t: Trie, id: Id): Option<Key> { if id in t.keys then Some(t.keys[id]) else None }

  ghost predicate Stored(t: Trie, key: Key) { exists id :: Lookup(t, id) == Some(key) }

  lemma StoredIsIndexed(t: Trie, key: Key)
    requires Ok(t)
    ensures Stored(t, key) <==> key in t.ids
  {
    if key in t.ids { assert Lookup(t, t.ids[key]) == Some(key); }
  }

  /** What every id stands for after an operation, told from what the ids stood for before. */
  lemma ApplyExactly(t: Trie, op: Op, id: Id)
    requires Ok(t)
    ensures Lookup(Apply(t, op), id) ==
      match op
      case Add(key) => if !Stored(t, key) && id == NextId(t) then Some(key) else Lookup(t, id)
      case DeleteKey(key) => if Lookup(t, id) == Some(key) then None else Lookup(t, id)
      case DeleteId(x) => if id == x then None else Lookup(t, id)
      case UpdateKey(src, dest) =>
        if Lookup(t, id) == Some(src) && !Stored(t, dest) then Some(dest) else Lookup(t, id)
      case UpdateId(x, dest) =>
        if id == x && Lookup(t, id).Some? && !Stored(t, dest) then Some(dest) else Lookup(t, id)
  {
    match op
    case Add(key) => StoredIsIndexed(t, key);
    case UpdateKey(_, dest) => StoredIsIndexed(t, dest);
    case UpdateId(_, dest) => StoredIsIndexed(t, dest);
    case _ =>
  }

  /** A new key gets an id that is not in use; right after a deletion, the one set free. */
  lemma NewIds(t: Trie, id: Id, key: Key)
    requires Ok(t)
    ensures Lookup(t, NextId(t)).None?
    ensures t.free == [] ==> forall x: Id :: Lookup(t, x).Some? ==> x < NextId(t)
    ensures Lookup(t, id).Some? ==> NextId(Apply(t, DeleteId(id))) == id
  {
    if t.free != [] { assert FreeOk(t, 0); }
  }

  /** A deletion or update reports success exactly when it changes something; adding a key that
      is there succeeds too. */
  lemma SucceedsExactly(t: Trie, op: Op)
    requires Ok(t)
    ensures Succeeds(t, op) <==> op.Add? || Apply(t, op) != t
  {
    match op
    case Add(_) =>
    case DeleteKey(key) => if key in t.ids { assert key !in Apply(t, op).ids; }
    case DeleteId(id) => if id in t.keys { assert id !in Apply(t, op).keys; }
    case UpdateKey(_, dest) => if Succeeds(t, op) { assert dest in Apply(t, op).ids; }
    case UpdateId(_, dest) => if Succeeds(t, op) { assert dest in Apply(t, op).ids; }
  }

  /** An operation done twice in a row is the same as done once. */
  lemma ApplyTwice(t: Trie, op: Op)
    requires Ok(t)
    ensures Apply(Apply(t, op), op) == Apply(t, op)
  {
  }

  /** An operation that does not succeed leaves the trie as it was. */
  lemma FailureChangesNothing(t: Trie, op: Op)
    requires Ok(t) && !Succeeds(t, op)
    ensures Apply(t, op) == t
  {
  }
}
