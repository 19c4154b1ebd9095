/** A circular doubly linked list whose neighbours are named by id: the entries of the
    memory cache and of the persistent cache (lib/cache.c) hang in such a ring. */
module CacheRing {
  type Id = nat

  datatype Links = Links(next: map<Id, Id>, prev: map<Id, Id>)

  ghost predicate Distinct(s: seq<Id>) {
    forall i, j :: 0 <= i < j < |s| ==> s[i] != s[j]
  }

  /** The neighbours around gap i of the ring: gap 0 follows the root, the last precedes it. */
  function Left(root: Id, order: seq<Id>, i: nat): Id requires i <= |order| {
    if i == 0 then root else order[i - 1]
  }

  function Right(root: Id, order: seq<Id>, i: nat): Id requires i <= |order| {
    if i == |order| then root else order[i]
  }

  predicate Adjacent(l: Links, a: Id, b: Id) {
    a in l.next && l.next[a] == b && b in l.prev && l.prev[b] == a
  }

  predicate Gap(l: Links, root: Id, order: seq<Id>, i: nat) requires i <= |order| {
    Adjacent(l, Left(root, order, i), Right(root, order, i))
  }

  /** Following `next` from the root visits exactly `order`, and `prev` is its inverse. */
  ghost predicate IsRing(l: Links, root: Id, order: seq<Id>) {
    && root !in order
    && (forall i :: 0 <= i <= |order| ==> Gap(l, root, order, i))
  }

  /** ce->prev->next = ce->next; ce->next->prev = ce->prev; */
  function Unlink(l: Links, x: Id): Links
    requires x in l.next && x in l.prev
  {
    Links(l.next[l.prev[x] := l.next[x]], l.prev[l.next[x] := l.prev[x]])
  }

  /** Insert x right after the root. */
  function LinkFirst(l: Links, root: Id, x: Id): Links
    requires root in l.next
  {
    var first := l.next[root];
    Links(l.next[x := first][root := x], l.prev[x := root][first := x])
  }

  function Without<T>(s: seq<T>, i: nat): seq<T> requires i < |s| { s[..i] + s[i + 1..] }

  /** A ring meets no member twice: walking back from both meetings would end at the root. */
  lemma {:induction false} RingAt(l: Links, root: Id, order: seq<Id>, i: nat, j: nat)
    requires IsRing(l, root, order) && i < j < |order|
    ensures order[i] != order[j]
  {
    assert Gap(l, root, order, i) && Gap(l, root, order, j);
    if i > 0 { RingAt(l, root, order, i - 1, j - 1); }
  }

  lemma RingDistinct(l: Links, root: Id, order: seq<Id>)
    requires IsRing(l, root, order)
    ensures Distinct(order)
  {
    forall i, j | 0 <= i < j < |order| ensures order[i] != order[j] { RingAt(l, root, order, i, j); }
  }

  lemma UnlinkRing(l: Links, root: Id, order: seq<Id>, i: nat)
    requires IsRing(l, root, order) && i < |order|
    ensures order[i] in l.next && order[i] in l.prev
    ensures IsRing(Unlink(l, order[i]), root, Without(order, i))
  {
    RingDistinct(l, root, order);
    assert Gap(l, root, order, i) && Gap(l, root, order, i + 1);
    var l' := Unlink(l, order[i]);
    forall k | 0 <= k < |order| ensures Gap(l', root, Without(order, i), k) {
      if k < i { assert Gap(l, root, order, k); }
      if k > i { assert Gap(l, root, order, k + 1); }
    }
  }

  lemma LinkFirstRing(l: Links, root: Id, order: seq<Id>, x: Id)
    requires IsRing(l, root, order) && x != root && x !in order
    ensures root in l.next && IsRing(LinkFirst(l, root, x), root, [x] + order)
  {
    RingDistinct(l, root, order);
    assert Gap(l, root, order, 0);
    var l' := LinkFirst(l, root, x);
    forall k | 0 <= k <= |order| + 1 ensures Gap(l', root, [x] + order, k) {
      if k > 1 { assert Gap(l, root, order, k - 1); }
    }
  }

  /** The root's predecessor is the last member, or the root itself when there is none. */
  lemma LastIsPrev(l: Links, root: Id, order: seq<Id>)
    requires IsRing(l, root, order)
    ensures root in l.prev
    ensures l.prev[root] == if order == [] then root else order[|order| - 1]
  {
    assert Gap(l, root, order, |order|);
  }
}
