/** Rebuilding the key table of a database under the same ids (grn_db_wal_recover_keys in
    lib/db_wal_recover.cpp).  A new table gives out the ids 1, 2, 3, ... in the order of
    insertion, so ids that are no longer in use are filled with placeholder keys, which are
    deleted again at the end. */
module DbKeys {
  import opened Wrappers

  type Id = nat

  const PREFIX: string := "_PLACEHOLDER_"

  datatype Entry = Entry(id: Id, key: string)

  predicate HasPrefix(key: string) { PREFIX <= key }

  // ----- placeholder keys -----

  function Digit(n: nat): char requires n < 10 { '0' + n as char }

  /** printf's %u */
  function Decimal(n: nat): string {
    if n < 10 then [Digit(n)] else Decimal(n / 10) + [Digit(n % 10)]
  }

  function Parse(s: string): int {
    if s == [] then 0 else 10 * Parse(s[..|s| - 1]) + (s[|s| - 1] as int - '0' as int)
  }

  lemma {:induction false} ParseDecimal(n: nat)
    ensures Parse(Decimal(n)) == n
  {
    if n < 10 {
      assert Parse([]) == 0;
    } else {
      ParseDecimal(n / 10);
      assert Decimal(n)[..|Decimal(n)| - 1] == Decimal(n / 10);
    }
  }

  function Placeholder(id: Id): string { PREFIX + Decimal(id) }

  lemma PlaceholdersDiffer(a: Id, b: Id)
    ensures HasPrefix(Placeholder(a))
    ensures Placeholder(a) == Placeholder(b) ==> a == b
  {
    assert Placeholder(a)[|PREFIX|..] == Decimal(a) && Placeholder(b)[|PREFIX|..] == Decimal(b);
    ParseDecimal(a);
    ParseDecimal(b);
  }

  // ----- the new table: the key at index i has id i + 1 -----

  function IndexOf(t: seq<string>, key: string): (i: nat)
    ensures i <= |t| && (i < |t| ==> t[i] == key) && (i == |t| ==> key !in t)
  {
    if t == [] || t[0] == key then 0 else 1 + IndexOf(t[1..], key)
  }

  /** Adding a key that is there returns its id. */
  function Add(t: seq<string>, key: string): (seq<string>, Id) {
    var i := IndexOf(t, key);
    (if i < |t| then t else t + [key], i + 1)
  }

  /** What a cursor by ascending id yields. */
  ghost predicate IsCursor(es: seq<Entry>) {
    && (forall i :: 0 <= i < |es| ==> es[i].id >= 1)
    && (forall i, j :: 0 <= i < j < |es| ==> es[i].id < es[j].id && es[i].key != es[j].key)
  }

  function MapOf(es: seq<Entry>): map<Id, string> {
    if es == [] then map[] else MapOf(es[..|es| - 1])[es[|es| - 1].id := es[|es| - 1].key]
  }

  /** The entry behind an id of the first n. */
  lemma {:induction false} EntryOf(es: seq<Entry>, n: nat, id: Id) returns (j: nat)
    requires n <= |es| && id in MapOf(es[..n])
    ensures j < n && es[j].id == id && MapOf(es[..n])[id] == es[j].key
  {
    assert es[..n][..n - 1] == es[..n - 1];
    if id == es[n - 1].id { j := n - 1; } else { j := EntryOf(es, n - 1, id); }
  }

  lemma {:induction false} MapOfHas(es: seq<Entry>, n: nat, i: nat)
    requires IsCursor(es) && i < n <= |es|
    ensures es[i].id in MapOf(es[..n]) && MapOf(es[..n])[es[i].id] == es[i].key
  {
    assert es[..n][..n - 1] == es[..n - 1];
    if i < n - 1 { MapOfHas(es, n - 1, i); }
  }

  /** Every used id holds its key and every id in between a placeholder. */
  ghost predicate Filled(t: seq<string>, m: map<Id, string>) {
    forall i :: 0 <= i < |t| ==> t[i] == if i + 1 in m then m[i + 1] else Placeholder(i + 1)
  }

  ghost predicate NoPrefix(m: map<Id, string>) { forall id :: id in m ==> !HasPrefix(m[id]) }

  lemma PlaceholderIsNew(t: seq<string>, m: map<Id, string>)
    requires Filled(t, m) && NoPrefix(m)
    ensures Placeholder(|t| + 1) !in t
  {
    forall i | 0 <= i < |t| ensures t[i] != Placeholder(|t| + 1) {
      PlaceholdersDiffer(i + 1, |t| + 1);
      PlaceholdersDiffer(|t| + 1, |t| + 1);
    }
  }

  lemma KeyIsNew(t: seq<string>, m: map<Id, string>, key: string)
    requires Filled(t, m) && !HasPrefix(key) && forall id :: id in m ==> m[id] != key
    ensures key !in t
  {
    forall i | 0 <= i < |t| ensures t[i] != key { PlaceholdersDiffer(i + 1, i + 1); }
  }

  lemma FilledOneMore(t: seq<string>, m: map<Id, string>, e: Entry)
    requires Filled(t, m) && e.id == |t| + 1
    ensures Filled(t + [e.key], m[e.id := e.key])
  {
    var t', m' := t + [e.key], m[e.id := e.key];
    forall i | 0 <= i < |t'| ensures t'[i] == if i + 1 in m' then m'[i + 1] else Placeholder(i + 1) {
      assert i < |t| ==> t'[i] == t[i] && i + 1 != e.id;
    }
  }

  predicate Stays(t: seq<string>, id: Id) { 1 <= id <= |t| && !HasPrefix(t[id - 1]) }

  /** Deleting the keys a prefix cursor finds. */
  function Swept(t: seq<string>): map<Id, string> {
    map id: Id | id <= |t| && Stays(t, id) :: t[id - 1]
  }

  lemma SweptIsOriginal(t: seq<string>, m: map<Id, string>)
    requires Filled(t, m) && NoPrefix(m) && forall id :: id in m ==> 1 <= id <= |t|
    ensures Swept(t) == m
  {
    forall id: Id | 1 <= id <= |t| ensures Stays(t, id) <==> id in m {
      PlaceholdersDiffer(id, id);
      assert t[id - 1] == if id in m then m[id] else Placeholder(id);
    }
  }

  /** The inner loop: placeholders up to the id before `id`. */
  method FillGap(t: seq<string>, id: Id, ghost m: map<Id, string>, ghost clean: bool) returns (r: seq<string>, ok: bool)
    requires |t| < id && (clean ==> NoPrefix(m) && Filled(t, m)) && forall k :: k in m ==> k <= |t|
    ensures clean ==> ok && Filled(r, m)
    ensures ok ==> |r| == id - 1
  {
    r, ok := t, true;
    while |r| < id - 1
      invariant |t| <= |r| < id && (clean ==> Filled(r, m))
      decreases id - |r|
    {
      if clean { PlaceholderIsNew(r, m); }
      var (next, given) := Add(r, Placeholder(|r| + 1));
      if given != |r| + 1 { ok := false; return; }
      r := next;
    }
  }

  ghost predicate Clean(es: seq<Entry>) { forall i :: 0 <= i < |es| ==> !HasPrefix(es[i].key) }

  /** The new keys, or None when an id could not be kept. */
  method Rebuild(es: seq<Entry>) returns (r: Option<map<Id, string>>)
    requires IsCursor(es)
    ensures Clean(es) ==> r == Some(MapOf(es))
    ensures r.Some? ==> NoPrefix(r.value)
  {
    var t: seq<string> := [];
    for i := 0 to |es|
      invariant |t| == if i == 0 then 0 else es[i - 1].id
      invariant Clean(es) ==> Filled(t, MapOf(es[..i]))
    {
      ghost var m := MapOf(es[..i]);
      Behind(es, i);
      var t1, ok := FillGap(t, es[i].id, m, Clean(es));
      if !ok { return None; }
      if Clean(es) {
        KeyIsNew(t1, m, es[i].key);
        FilledOneMore(t1, m, es[i]);
      }
      var (t2, id) := Add(t1, es[i].key);
      if id != es[i].id { return None; }
      assert es[..i + 1][..i] == es[..i];
      t := t2;
    }
    assert es[..|es|] == es;
    Behind(es, |es|);
    if Clean(es) { SweptIsOriginal(t, MapOf(es)); }
    r := Some(Swept(t));
  }

  /** What is known of the first i entries when the next one is read. */
  lemma Behind(es: seq<Entry>, i: nat)
    requires IsCursor(es) && i <= |es|
    ensures Clean(es) ==> NoPrefix(MapOf(es[..i]))
    ensures forall id :: id in MapOf(es[..i]) ==> 1 <= id <= (if i == 0 then 0 else es[i - 1].id)
    ensures i < |es| ==> forall id :: id in MapOf(es[..i]) ==> MapOf(es[..i])[id] != es[i].key
  {
    forall id | id in MapOf(es[..i])
      ensures Clean(es) ==> !HasPrefix(MapOf(es[..i])[id])
      ensures 1 <= id <= es[i - 1].id && (i < |es| ==> MapOf(es[..i])[id] != es[i].key)
    {
      var j := EntryOf(es, i, id);
    }
  }

  /** The rebuilt table is the original one exactly when no key looks like a placeholder. */
  method RebuildExactly(es: seq<Entry>) returns (r: Option<map<Id, string>>)
    requires IsCursor(es)
    ensures r == Some(MapOf(es)) <==> forall i :: 0 <= i < |es| ==> !HasPrefix(es[i].key)
  {
    r := Rebuild(es);
    assert es[..|es|] == es;
    forall i | 0 <= i < |es| ensures es[i].id in MapOf(es) && MapOf(es)[es[i].id] == es[i].key {
      MapOfHas(es, |es|, i);
    }
  }
}
