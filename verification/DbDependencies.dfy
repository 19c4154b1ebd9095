/** Which objects must be rebuilt with the broken ones of a database (lib/db_wal_recover.cpp).
    Objects that refer to a broken table or column are found in one pass over the ids. */
module DbDependencies {
  type Id = nat

  const N_RESERVED_TYPES: nat := 256

  /** What the pass looks at.  `domain` is a table's key type or a column's table, `range` a
      column's value type, `sources` what an index or a generated column is made from. */
  datatype Object =
    | Unopenable
    | KeyTable(domain: Id)
    | FixColumn(domain: Id, range: Id)
    | VarColumn(domain: Id, range: Id, sources: seq<Id>)
    | IndexColumn(domain: Id, range: Id, sources: seq<Id>)
    | Other(domain: Id)
  {
    predicate IsColumn() { FixColumn? || VarColumn? || IndexColumn? }
  }

  /** A database, and the tables and columns whose own recovery failed. */
  datatype Db = Db(objects: map<Id, Object>, tables: set<Id>, columns: set<Id>) {
    predicate Broken(x: Id) { x in tables || x in columns }

    /** Whether x counts as a table, or as a column, once it is found broken. */
    predicate AsTable(x: Id) { x in tables || (!Broken(x) && x in objects && objects[x].KeyTable?) }
    predicate AsColumn(x: Id) { x in columns || (!Broken(x) && x in objects && objects[x].IsColumn()) }

    /** Object y goes with a broken x. */
    predicate Link(x: Id, y: Id) {
      && y in objects && y >= N_RESERVED_TYPES && !Broken(y)
      && match objects[y]
         case KeyTable(domain) => domain == x && AsTable(x)
         case FixColumn(_, range) => range == x && AsTable(x)
         case VarColumn(_, range, sources) => (range == x && AsTable(x)) || (x in sources && AsColumn(x))
         case IndexColumn(_, range, sources) =>
           (range == x && AsTable(x)) || (x in sources && (AsTable(x) || AsColumn(x)))
         case _ => false
    }

    /** The ids an object refers to. */
    function Refs(y: Id): seq<Id> {
      if y !in objects then [] else
      match objects[y]
      case KeyTable(domain) => [domain]
      case FixColumn(_, range) => [range]
      case VarColumn(_, range, sources) => [range] + sources
      case IndexColumn(_, range, sources) => [range] + sources
      case _ => []
    }

    /** Reached from a broken object by links to ever larger ids. */
    ghost predicate Marked(y: Id) {
      Broken(y) || exists x :: x in Refs(y) && Link(x, y) && (Broken(x) || (x < y && Marked(x)))
    }

    /** Reached from a broken object by any links. */
    ghost predicate Chain(c: seq<Id>) {
      c != [] && Broken(c[0]) && forall i :: 0 <= i < |c| - 1 ==> LinkAt(c, i)
    }

    predicate LinkAt(c: seq<Id>, i: nat) requires i + 1 < |c| { Link(c[i], c[i + 1]) }

    ghost predicate Dependent(y: Id) { exists c :: Chain(c) && c[|c| - 1] == y }

    lemma LinkIsRef(x: Id, y: Id)
      requires Link(x, y)
      ensures x in Refs(y)
    {
    }

    // ----- how marking relates to dependence -----

    /** Ids go up along a chain, apart from its first link. */
    ghost predicate Rising(c: seq<Id>) { forall i :: 1 <= i < |c| - 1 ==> c[i] < c[i + 1] }

    /** What the pass marks is what a rising chain of links leads to. */
    lemma MarkedExactly(y: Id)
      ensures Marked(y) <==> exists c :: Chain(c) && Rising(c) && c[|c| - 1] == y
    {
      if Marked(y) { var c := ChainTo(y); }
      forall c | Chain(c) && Rising(c) && c[|c| - 1] == y ensures Marked(y) { RisingIsMarked(c); }
    }

    lemma {:induction false} ChainTo(y: Id) returns (c: seq<Id>)
      requires Marked(y)
      ensures Chain(c) && Rising(c) && c[|c| - 1] == y
    {
      if Broken(y) { return [y]; }
      var x :| x in Refs(y) && Link(x, y) && (Broken(x) || (x < y && Marked(x)));
      if Broken(x) { c := [x]; } else { c := ChainTo(x); }
      Extend(c, y);
      ExtendRising(c, y);
      c := c + [y];
    }

    lemma ExtendRising(c: seq<Id>, y: Id)
      requires Rising(c) && (|c| <= 1 || c[|c| - 1] < y)
      ensures Rising(c + [y])
    {
      var d := c + [y];
      forall i | 1 <= i < |d| - 1 ensures d[i] < d[i + 1] {
        if i < |c| - 1 { assert c[i] < c[i + 1]; }
      }
    }

    lemma Extend(c: seq<Id>, y: Id)
      requires Chain(c) && Link(c[|c| - 1], y)
      ensures Chain(c + [y])
    {
      var d := c + [y];
      forall i | 0 <= i < |d| - 1 ensures LinkAt(d, i) {
        assert i < |c| - 1 ==> LinkAt(c, i);
      }
    }

    lemma {:induction false} RisingIsMarked(c: seq<Id>)
      requires Chain(c) && Rising(c)
      ensures Marked(c[|c| - 1])
    {
      if |c| > 1 {
        var n := |c| - 1;
        forall i | 0 <= i < n - 1 ensures LinkAt(c[..n], i) { assert LinkAt(c, i); }
        RisingIsMarked(c[..n]);
        assert LinkAt(c, n - 1);
        LinkIsRef(c[n - 1], c[n]);
      }
    }

    /** When every object refers to smaller ids only, all dependent objects are marked. */
    lemma DependentIsMarked(y: Id)
      requires forall z, x :: z in objects && x in Refs(z) ==> x < z
      requires Dependent(y)
      ensures Marked(y)
    {
      var c :| Chain(c) && c[|c| - 1] == y;
      forall i | 1 <= i < |c| - 1 ensures c[i] < c[i + 1] {
        assert LinkAt(c, i);
        LinkIsRef(c[i], c[i + 1]);
      }
      RisingIsMarked(c);
    }
  }

  /** Every object that is found counts as a table or as a column, never as both: tables with
      keys as tables, columns of any kind as columns. */
  lemma FoundCounts(db: Db, y: Id)
    requires db.Marked(y) && !db.Broken(y)
    ensures y in db.objects
    ensures db.AsTable(y) <==> db.objects[y].KeyTable?
    ensures db.AsColumn(y) <==> db.objects[y].FixColumn? || db.objects[y].VarColumn? || db.objects[y].IndexColumn?
    ensures db.AsTable(y) != db.AsColumn(y)
  {
  }

  /** And what was broken before counts as what it was recovered as. */
  lemma BrokenCounts(db: Db, y: Id)
    requires db.Broken(y)
    ensures db.Marked(y) && (db.AsTable(y) <==> y in db.tables) && (db.AsColumn(y) <==> y in db.columns)
  {
  }

  /** An index made before the table it points to is not found in one pass. */
  lemma LargerReferenceIsMissed()
    ensures var db := Db(map[300 := FixColumn(256, 400), 400 := KeyTable(500), 500 := KeyTable(0)], {500}, {});
      db.Dependent(300) && !db.Marked(300)
  {
    var db := Db(map[300 := FixColumn(256, 400), 400 := KeyTable(500), 500 := KeyTable(0)], {500}, {});
    var c := [500, 400, 300];
    assert db.LinkAt(c, 0) && db.LinkAt(c, 1);
    assert db.Chain(c);
    assert db.Refs(300) == [400];
  }

  // ----- the pass -----

  ghost predicate Ascending(ids: seq<Id>) { forall i, j :: 0 <= i < j < |ids| ==> ids[i] < ids[j] }

  /** A cursor over all objects by ascending id. */
  ghost predicate IsCursor(db: Db, ids: seq<Id>) {
    Ascending(ids) && forall y :: y in ids <==> y in db.objects
  }

  /** x has been found broken: by its own recovery, or by the pass before it came to `now`. */
  ghost predicate Known(db: Db, now: Id, x: Id) { db.Broken(x) || (x in db.objects && x < now && db.Marked(x)) }

  /** The two sets hold what is known, tables and columns apart. */
  ghost predicate Collected(db: Db, now: Id, tables: set<Id>, columns: set<Id>) {
    && (forall x :: x in tables <==> db.AsTable(x) && Known(db, now, x))
    && (forall x :: x in columns <==> db.AsColumn(x) && Known(db, now, x))
  }

  /** One visit of the pass: whether the object refers to something in the sets. */
  method Visit(o: Object, tables: set<Id>, columns: set<Id>) returns (hit: bool)
    ensures hit <==> match o
      case KeyTable(domain) => domain in tables
      case FixColumn(_, range) => range in tables
      case VarColumn(_, range, sources) => range in tables || exists x :: x in sources && x in columns
      case IndexColumn(_, range, sources) =>
        range in tables || exists x :: x in sources && (x in tables || x in columns)
      case _ => false
  {
    match o
    case KeyTable(domain) => hit := domain in tables;
    case FixColumn(_, range) => hit := range in tables;
    case VarColumn(_, range, sources) =>
      hit := range in tables;
      for i := 0 to |sources|
        invariant hit <==> range in tables || exists k :: 0 <= k < i && sources[k] in columns
      {
        if sources[i] in columns { hit := true; }
      }
    case IndexColumn(_, range, sources) =>
      hit := range in tables;
      for i := 0 to |sources|
        invariant hit <==> range in tables || exists k :: 0 <= k < i && (sources[k] in tables || sources[k] in columns)
      {
        if sources[i] in tables || sources[i] in columns { hit := true; }
      }
    case _ => hit := false;
  }

  /** The visit hits exactly the objects that are marked. */
  lemma VisitIsMarking(db: Db, y: Id, tables: set<Id>, columns: set<Id>)
    requires Collected(db, y, tables, columns) && y in db.objects && y >= N_RESERVED_TYPES && !db.Broken(y)
    ensures db.Marked(y) <==> match db.objects[y]
      case KeyTable(domain) => domain in tables
      case FixColumn(_, range) => range in tables
      case VarColumn(_, range, sources) => range in tables || exists x :: x in sources && x in columns
      case IndexColumn(_, range, sources) =>
        range in tables || exists x :: x in sources && (x in tables || x in columns)
      case _ => false
  {
    assert forall x :: db.Marked(x) && !db.Broken(x) ==> x in db.objects;
    if db.Marked(y) {
      var x :| x in db.Refs(y) && db.Link(x, y) && (db.Broken(x) || (x < y && db.Marked(x)));
      assert Known(db, y, x);
    } else {
      forall x | x in db.Refs(y) && Known(db, y, x) ensures !db.Link(x, y) { }
      RefsOf(db, y);
    }
  }

  lemma RefsOf(db: Db, y: Id)
    requires y in db.objects
    ensures var o := db.objects[y];
      && (o.KeyTable? ==> o.domain in db.Refs(y))
      && (o.IsColumn() ==> o.range in db.Refs(y))
      && (o.VarColumn? ==> forall x :: x in o.sources ==> x in db.Refs(y))
      && (o.IndexColumn? ==> forall x :: x in o.sources ==> x in db.Refs(y))
  {
  }

  /** Ids before position i of the cursor are those smaller than the id there. */
  lemma CursorSplit(db: Db, ids: seq<Id>, i: nat, x: Id)
    requires IsCursor(db, ids) && i < |ids| && x in db.objects
    ensures x <= ids[i] ==> x in ids[..i + 1]
    ensures i + 1 < |ids| && x < ids[i + 1] ==> x <= ids[i]
  {
    var k :| 0 <= k < |ids| && ids[k] == x;
    if x <= ids[i] {
      assert k <= i;
      assert ids[..i + 1][k] == x;
    }
    assert i + 1 < |ids| && k > i ==> ids[i + 1] <= ids[k];
  }

  /** The id that the cursor is at, or a bound when it is done. */
  function At(ids: seq<Id>, i: nat, bound: Id): Id requires i <= |ids| { if i < |ids| then ids[i] else bound }

  lemma Advance(db: Db, ids: seq<Id>, i: nat, bound: Id, x: Id)
    requires IsCursor(db, ids) && i < |ids| && forall y :: y in ids ==> y < bound
    ensures Known(db, At(ids, i + 1, bound), x) <==> Known(db, ids[i], x) || (x == ids[i] && db.Marked(x))
  {
    assert ids[i] in ids && (i + 1 < |ids| ==> ids[i] < ids[i + 1]);
    if x in db.objects { CursorSplit(db, ids, i, x); assert x in ids; }
  }

  /** One more object looked at. */
  lemma Collects(db: Db, ids: seq<Id>, i: nat, bound: Id, t: set<Id>, c: set<Id>, t': set<Id>, c': set<Id>)
    requires IsCursor(db, ids) && i < |ids| && (forall y :: y in ids ==> y < bound) && Collected(db, ids[i], t, c)
    requires t' == if db.AsTable(ids[i]) && db.Marked(ids[i]) then t + {ids[i]} else t
    requires c' == if db.AsColumn(ids[i]) && db.Marked(ids[i]) then c + {ids[i]} else c
    ensures Collected(db, At(ids, i + 1, bound), t', c')
  {
    forall x ensures Known(db, At(ids, i + 1, bound), x) <==> Known(db, ids[i], x) || (x == ids[i] && db.Marked(x)) {
      Advance(db, ids, i, bound, x);
    }
  }

  lemma AllCollected(db: Db, bound: Id, tables: set<Id>, columns: set<Id>)
    requires Collected(db, bound, tables, columns) && forall y :: y in db.objects ==> y < bound
    ensures forall x :: x in tables <==> db.AsTable(x) && db.Marked(x)
    ensures forall x :: x in columns <==> db.AsColumn(x) && db.Marked(x)
  {
    forall x ensures Known(db, bound, x) <==> db.Marked(x) { }
  }

  /** grn_db_wal_recover_collect_depended_object_ids: one ascending pass collects exactly what
      is broken or marked. */
  method Collect(db: Db, ids: seq<Id>) returns (tables: set<Id>, columns: set<Id>)
    requires IsCursor(db, ids)
    ensures forall x :: x in tables <==> db.AsTable(x) && db.Marked(x)
    ensures forall x :: x in columns <==> db.AsColumn(x) && db.Marked(x)
  {
    tables, columns := db.tables, db.columns;
    ghost var bound := if ids == [] then 0 else ids[|ids| - 1] + 1;
    for i := 0 to |ids|
      invariant Collected(db, At(ids, i, bound), tables, columns)
    {
      var id := ids[i];
      ghost var t, c := tables, columns;
      if id >= N_RESERVED_TYPES && id !in tables && id !in columns {
        VisitIsMarking(db, id, tables, columns);
        var hit := Visit(db.objects[id], tables, columns);
        if hit {
          if db.objects[id].KeyTable? { tables := tables + {id}; } else { columns := columns + {id}; }
        }
      }
      Collects(db, ids, i, bound, t, c, tables, columns);
    }
    AllCollected(db, bound, tables, columns);
  }

  /** grn_db_wal_recover_remove_duplicated_broken_column_ids: columns that come with their
      broken table are taken off the list. */
  method RemoveDuplicates(db: Db, tables: set<Id>, columns: seq<Id>) returns (left: seq<Id>)
    ensures forall c :: c in left <==>
              c in columns && !(c in db.objects && !db.objects[c].Unopenable? && db.objects[c].domain in tables)
    ensures |left| <= |columns|
  {
    left := [];
    for i := 0 to |columns|
      invariant forall c :: c in left <==>
        c in columns[..i] && !(c in db.objects && !db.objects[c].Unopenable? && db.objects[c].domain in tables)
      invariant |left| <= i
    {
      var c := columns[i];
      assert columns[..i + 1] == columns[..i] + [c];
      if !(c in db.objects && !db.objects[c].Unopenable? && db.objects[c].domain in tables) { left := left + [c]; }
    }
    assert columns[..|columns|] == columns;
  }

  // ----- sharing the rebuilding of generated columns among workers -----

  function PerWorker(n: nat, workers: nat): nat requires workers > 0 { n / workers + 1 }

  function Start(n: nat, workers: nat, i: nat): nat requires workers > 0 { PerWorker(n, workers) * i }

  function End(n: nat, workers: nat, i: nat): nat requires workers > 0 {
    var e := PerWorker(n, workers) * (i + 1);
    if e < n then e else n
  }

  /** DBWALCopyRecoverer::rebuild_auto_generated_columns: every target is handled by exactly
      one worker. */
  lemma EachTargetOnce(n: nat, workers: nat, j: nat)
    requires workers > 0 && j < n
    ensures var w := j / PerWorker(n, workers);
      && w < workers && Start(n, workers, w) <= j < End(n, workers, w)
      && forall i: nat :: Start(n, workers, i) <= j < End(n, workers, i) ==> i == w
  {
    var per := PerWorker(n, workers);
    var w := j / per;
    assert j == per * w + j % per;
    Enough(n, workers);
    Times(per, w);
    if w >= workers { TimesMore(per, workers, w); }
    forall i: nat | Start(n, workers, i) <= j < End(n, workers, i) ensures i == w {
      Times(per, i);
      if i < w { TimesMore(per, i + 1, w); }
      if i > w { TimesMore(per, w + 1, i); }
    }
  }

  lemma Times(a: nat, b: nat)
    ensures a * (b + 1) == a * b + a
  {
  }

  lemma TimesMore(a: nat, b: nat, c: nat)
    requires b <= c
    ensures a * b <= a * c
  {
  }

  lemma Enough(n: nat, workers: nat)
    requires workers > 0
    ensures PerWorker(n, workers) * workers > n
  {
    var q := n / workers;
    assert n == workers * q + n % workers;
    Times(workers, q);
    assert (q + 1) * workers == workers * (q + 1);
  }
}
