/** Fetching the metadata key of a persistent cache (lib/cache.c:755-843).  The metadata record
    shares its bytes with an entry's fields, and grn_cache_fetch_persistent takes it for one. */
module CacheMetadata {
  import opened CacheRing
  import opened CacheLru
  import opened CacheTable
  import opened CachePersistent

  /** The metadata record. */
  datatype Metadata = Metadata(limit: nat, nfetches: nat, nhits: nat, flags: nat)

  /** The same bytes read as an entry: its neighbours, and its second. */
  function AsNext(m: Metadata): Id { m.limit }
  function AsPrev(m: Metadata): Id { m.nfetches }
  function AsSecond(m: Metadata): int { m.nhits + UINT32 * m.flags }

  /** The links with the metadata record as a member. */
  function WithMetadata(l: Links, m: Metadata): Links {
    Links(l.next[METADATA_ID := AsNext(m)], l.prev[METADATA_ID := AsPrev(m)])
  }

  /** The record as those links leave it. */
  function FromLinks(l: Links, m: Metadata): Metadata requires METADATA_ID in l.next && METADATA_ID in l.prev {
    m.(limit := l.next[METADATA_ID], nfetches := l.prev[METADATA_ID])
  }

  /** What the fetch does when the two ids it takes for neighbours exist. */
  function FetchMetadata(t: Table, was: Metadata, lastModified: int): (Table, Metadata)
    requires ROOT_ID in t.links.next && METADATA_KEY in t.hash
  {
    var m := was.(nfetches := Tick(was.nfetches));
    var unlinked := Unlink(WithMetadata(t.links, m), METADATA_ID);
    if AsSecond(m) <= lastModified then (t.(hash := t.hash - {METADATA_KEY}, links := unlinked), FromLinks(unlinked, m))
    else
      var linked := LinkFirst(unlinked, ROOT_ID, METADATA_ID);
      (t.(links := linked), FromLinks(linked, m).(nhits := Tick(m.nhits)))
  }

  /** Whatever the record holds, the list is broken: the record hangs in front of the answers, or
      is no longer in the hash. */
  lemma MetadataFetchBreaks(t: Table, was: Metadata, lastModified: int, flagged: bool, order: seq<Id>)
    requires TableOk(Form(ROOT_ID, RESERVED, flagged), t, order) && METADATA_ID !in t.slots
    ensures ROOT_ID in t.links.next && METADATA_KEY in t.hash
    ensures forall answers: seq<Id> ::
      !TableOk(Form(ROOT_ID, RESERVED, flagged), FetchMetadata(t, was, lastModified).0, answers)
  {
    LastIsPrev(t.links, ROOT_ID, order);
    assert Gap(t.links, ROOT_ID, order, 0);
    var f, t' := Form(ROOT_ID, RESERVED, flagged), FetchMetadata(t, was, lastModified).0;
    forall answers: seq<Id> ensures !TableOk(f, t', answers) {
      assert METADATA_KEY in f.reserved;
      assert IsRing(t'.links, ROOT_ID, answers) ==> Gap(t'.links, ROOT_ID, answers, 0);
      assert IndexOk(f, t', answers) && answers != [] ==> SlotOk(f, t', answers[0]);
    }
  }

  /** And after a hit the record's limit is the id of the first entry, unless the number of
      fetches happened to name one of the two records. */
  lemma LimitIsOverwritten(t: Table, was: Metadata, lastModified: int, flagged: bool, order: seq<Id>)
    requires TableOk(Form(ROOT_ID, RESERVED, flagged), t, order) && METADATA_ID !in t.slots
    requires AsSecond(was) > lastModified && Tick(was.nfetches) !in {ROOT_ID, METADATA_ID}
    ensures ROOT_ID in t.links.next && METADATA_KEY in t.hash
    ensures FetchMetadata(t, was, lastModified).1.limit == Right(ROOT_ID, order, 0)
    ensures FetchMetadata(t, was, lastModified).1.nfetches == ROOT_ID
  {
    assert Gap(t.links, ROOT_ID, order, 0);
    assert METADATA_KEY in RESERVED;
    assert order != [] ==> SlotOk(Form(ROOT_ID, RESERVED, flagged), t, order[0]);
  }
}
