/** Following an accessor such as `author.group._key` backwards (lib/accessor.c): from the
    records found at its end to the records it starts from. */
module Accessor {
  import opened Wrappers

  type Id = nat

  datatype Value = Scalar(id: Id) | Vector(ids: seq<Id>) | NoReference

  /** What finds the records behind a column: nothing, or an index with the records of each
      term.  An index over another table's terms cannot be used. */
  datatype Lookup = Sequential | Index(postings: map<Id, seq<Id>>, sameLexicon: bool)

  datatype Step =
    | ByIndex(postings: map<Id, seq<Id>>, column: Option<map<Id, seq<Id>>>)  // with its source
    | ByKey(keys: map<Id, Id>, ids: map<Id, Id>)               // a table keyed by records
    | ByValue(keys: map<Id, Id>, ids: map<Id, Id>, values: map<Id, Id>)  // its records' values
    | ByColumn(cells: map<Id, Value>, lookup: Lookup)

  function Targets(v: Value): seq<Id> {
    match v
    case Scalar(id) => [id]
    case Vector(ids) => ids
    case NoReference => []
  }

  /** Record r of the step's table refers to record t of the next one, as it is resolved
      backwards: a step through a table always goes by its keys. */
  predicate Refers(s: Step, r: Id, t: Id) {
    match s
    case ByIndex(postings, _) => r in postings && t in postings[r]
    case ByKey(keys, _) => r in keys && keys[r] == t
    case ByValue(keys, _, _) => r in keys && keys[r] == t
    case ByColumn(cells, _) => r in cells && t in Targets(cells[r])
  }

  /** The step cannot be resolved. */
  predicate Fails(s: Step) {
    match s
    case ByIndex(_, column) => column.None?
    case ByKey(_, _) => false
    case ByValue(_, _, _) => false
    case ByColumn(_, lookup) => lookup.Index? && !lookup.sameLexicon
  }

  /** By the shape of a step: which records refer to which. */
  lemma RefersExactly(s: Step, r: Id, t: Id)
    ensures s.ByIndex? ==> (Refers(s, r, t) <==> r in s.postings && t in s.postings[r])
    ensures s.ByKey? || s.ByValue? ==> (Refers(s, r, t) <==> r in s.keys && s.keys[r] == t)
    ensures s.ByColumn? ==>
      (Refers(s, r, t) <==> r in s.cells && (s.cells[r] == Scalar(t) || (s.cells[r].Vector? && t in s.cells[r].ids)))
  {
  }

  /** A step fails exactly for an index without a source column in its own table, and for a
      column whose index is over another table's terms. */
  lemma FailsExactly(s: Step)
    ensures Fails(s) <==>
      (s.ByIndex? && s.column == None) || (s.ByColumn? && s.lookup.Index? && s.lookup.sameLexicon == false)
  {
  }

  predicate PostingsAre(s: Step, r: Id, t: Id) requires s.ByColumn? && s.lookup.Index? {
    (t in s.lookup.postings && r in s.lookup.postings[t]) <==> Refers(s, r, t)
  }

  predicate SourceIs(s: Step, r: Id, t: Id) requires s.ByIndex? && s.column.Some? {
    Refers(s, r, t) <==> (t in s.column.value && r in s.column.value[t])
  }

  /** Keys are unique, and an index that is used holds exactly the references of its column. */
  ghost predicate Consistent(s: Step) {
    match s
    case ByIndex(_, column) => column.Some? ==> forall r, t :: SourceIs(s, r, t)
    case ByKey(keys, ids) => Inverse(keys, ids)
    case ByValue(keys, ids, _) => Inverse(keys, ids)
    case ByColumn(_, lookup) => lookup.Index? && lookup.sameLexicon ==> forall r, t :: PostingsAre(s, r, t)
  }

  ghost predicate Inverse(keys: map<Id, Id>, ids: map<Id, Id>) {
    && (forall r :: r in keys ==> keys[r] in ids && ids[keys[r]] == r)
    && (forall t :: t in ids ==> ids[t] in keys && keys[ids[t]] == t)
  }

  ghost predicate Meets(s: Step, r: Id, current: set<Id>) { exists t :: t in current && Refers(s, r, t) }

  // ----- one step backwards -----

  ghost predicate IsBackwards(s: Step, current: set<Id>, next: set<Id>) {
    forall r :: r in next <==> Meets(s, r, current)
  }

  function ToSet(ids: seq<Id>): set<Id> { set i | i in ids }

  /** Going through the current records one by one: t is the next one, and `found` the records
      that refer to it. */
  lemma MeetsOneMore(s: Step, done: set<Id>, t: Id, next: set<Id>, found: set<Id>)
    requires IsBackwards(s, done, next)
    requires forall r :: r in found <==> Refers(s, r, t)
    ensures IsBackwards(s, done + {t}, next + found)
  {
    forall r ensures r in next + found <==> Meets(s, r, done + {t}) {
      if Meets(s, r, done + {t}) { var u :| u in done + {t} && Refers(s, r, u); }
      if r in next { var u :| u in done && Refers(s, r, u); assert u in done + {t}; }
      if r in found { assert t in done + {t}; }
    }
  }

  /** The records that have t among their references, as the step's own structures give them. */
  function Referring(s: Step, t: Id): (found: set<Id>)
    requires !Fails(s) && (s.ByColumn? ==> s.lookup.Index?)
  {
    match s
    case ByIndex(_, column) => if t in column.value then ToSet(column.value[t]) else {}
    case ByKey(_, ids) => if t in ids then {ids[t]} else {}
    case ByValue(_, ids, _) => if t in ids then {ids[t]} else {}
    case ByColumn(_, lookup) => if t in lookup.postings then ToSet(lookup.postings[t]) else {}
  }

  lemma ReferringRefers(s: Step, t: Id)
    requires !Fails(s) && (s.ByColumn? ==> s.lookup.Index?) && Consistent(s)
    ensures forall r :: r in Referring(s, t) <==> Refers(s, r, t)
  {
    forall r ensures r in Referring(s, t) <==> Refers(s, r, t) {
      assert s.ByIndex? ==> SourceIs(s, r, t);
      assert s.ByColumn? ==> PostingsAre(s, r, t);
    }
  }

  /** An index column, a table's keys and a column with an index are all looked up record by
      record. */
  method OneByLookup(s: Step, current: set<Id>) returns (next: set<Id>)
    requires !Fails(s) && (s.ByColumn? ==> s.lookup.Index?) && Consistent(s)
    ensures IsBackwards(s, current, next)
  {
    next := {};
    var todo := current;
    while todo != {}
      invariant todo <= current
      invariant IsBackwards(s, current - todo, next)
    {
      var t :| t in todo;
      ReferringRefers(s, t);
      MeetsOneMore(s, current - todo, t, next, Referring(s, t));
      next := next + Referring(s, t);
      assert current - (todo - {t}) == current - todo + {t};
      todo := todo - {t};
    }
    assert current - todo == current;
  }

  /** Looks at every record of the table, and at its elements until one is found. */
  method OneSequentially(s: Step, current: set<Id>) returns (next: set<Id>)
    requires s.ByColumn?
    ensures IsBackwards(s, current, next)
    ensures forall r :: r in next <==>
              (r in s.cells
               && ((s.cells[r].Scalar? && s.cells[r].id in current)
                   || (s.cells[r].Vector? && exists i :: 0 <= i < |s.cells[r].ids| && s.cells[r].ids[i] in current)))
  {
    next := {};
    var todo := s.cells.Keys;
    while todo != {}
      invariant todo <= s.cells.Keys
      invariant forall r :: r in next <==> r !in todo && Meets(s, r, current)
    {
      var r :| r in todo;
      var found := false;
      var elements := Targets(s.cells[r]);
      for i := 0 to |elements|
        invariant found <==> exists k :: 0 <= k < i && elements[k] in current
      {
        if elements[i] in current { found := true; break; }
      }
      assert found <==> Meets(s, r, current) by {
        if found { var k :| 0 <= k < |elements| && elements[k] in current; assert Refers(s, r, elements[k]); }
      }
      if found { next := next + {r}; }
      todo := todo - {r};
    }
  }

  /** The four grn_accessor_resolve_one_* functions: with or without an index, the records that
      refer into the given ones. */
  method One(s: Step, current: set<Id>) returns (next: Option<set<Id>>)
    requires Consistent(s)
    ensures next.None? <==> Fails(s)
    ensures next.Some? ==> IsBackwards(s, current, next.value)
  {
    if Fails(s) { return None; }
    var r: set<Id>;
    if s.ByColumn? && s.lookup.Sequential? { r := OneSequentially(s, current); } else { r := OneByLookup(s, current); }
    next := Some(r);
  }

  // ----- a whole accessor -----

  /** Following the steps from r forwards may end at t. */
  ghost predicate Reaches(steps: seq<Step>, r: Id, t: Id) {
    if steps == [] then r == t
    else exists s :: Refers(steps[0], r, s) && Reaches(steps[1..], s, t)
  }

  ghost predicate ReachesSome(steps: seq<Step>, r: Id, base: set<Id>) { exists t :: t in base && Reaches(steps, r, t) }

  /** One more step in front. */
  lemma StepBefore(s: Step, steps: seq<Step>, base: set<Id>, current: set<Id>, next: set<Id>)
    requires IsBackwards(s, current, next) && forall r :: r in current <==> ReachesSome(steps, r, base)
    ensures forall r :: r in next <==> ReachesSome([s] + steps, r, base)
  {
    var all := [s] + steps;
    assert all[1..] == steps;
    forall r ensures r in next <==> ReachesSome(all, r, base) {
      if r in next {
        var m :| m in current && Refers(s, r, m);
        var t :| t in base && Reaches(steps, m, t);
        assert Reaches(all, r, t);
      }
      if ReachesSome(all, r, base) {
        var t :| t in base && Reaches(all, r, t);
        var m :| Refers(all[0], r, m) && Reaches(all[1..], m, t);
        assert ReachesSome(steps, m, base);
        assert Meets(s, r, current);
      }
    }
  }

  /** How many steps are resolved: a negative depth means all of them. */
  function Depth(chain: seq<Step>, depth: int): nat {
    if 0 <= depth < |chain| then depth else |chain|
  }

  lemma DepthExactly(chain: seq<Step>, depth: int)
    ensures Depth(chain, depth) == depth <==> 0 <= depth <= |chain|
    ensures depth < 0 || depth > |chain| ==> Depth(chain, depth) == |chain|
  {
  }

  /** grn_accessor_resolve with GRN_OP_OR: the records from which the steps lead into the base
      result are added to `res`.  It fails, and adds nothing, when there is no step or one cannot
      be resolved. */
  method Resolve(chain: seq<Step>, depth: int, base: set<Id>, res: set<Id>) returns (ok: bool, out: set<Id>)
    requires forall i :: 0 <= i < |chain| ==> Consistent(chain[i])
    ensures ok <==> Depth(chain, depth) > 0 && forall i :: 0 <= i < Depth(chain, depth) ==> !Fails(chain[i])
    ensures !ok ==> out == res
    ensures ok ==> forall r :: r in out <==> r in res || ReachesSome(chain[..Depth(chain, depth)], r, base)
  {
    var n := 0;
    while n < |chain| && n != depth
      invariant 0 <= n <= |chain| && (depth >= 0 ==> n <= depth)
    {
      n := n + 1;
    }
    assert n == Depth(chain, depth);
    ok, out := n > 0, res;
    var current := base;
    var i := n;
    assert forall r :: ReachesSome([], r, base) <==> r in base by {
      forall r ensures ReachesSome([], r, base) <==> r in base { if r in base { assert Reaches([], r, r); } }
    }
    while i > 0
      invariant 0 <= i <= n && ok == (n > 0)
      invariant forall r :: r in current <==> ReachesSome(chain[i..n], r, base)
      invariant forall k :: i <= k < n ==> !Fails(chain[k])
    {
      var next := One(chain[i - 1], current);
      if next.None? { ok := false; return; }
      StepBefore(chain[i - 1], chain[i..n], base, current, next.value);
      assert chain[i - 1..n] == [chain[i - 1]] + chain[i..n];
      current := next.value;
      i := i - 1;
    }
    assert chain[0..n] == chain[..n];
    if ok { out := res + current; }
  }

  // ----- an accessor forwards -----

  /** Where grn_accessor_resolve_id goes from record r: a step through a table goes by its key
      or by its value. */
  function Leads(s: Step, r: Id): Option<Id> {
    match s
    case ByKey(keys, _) => if r in keys then Some(keys[r]) else None
    case ByValue(_, _, values) => if r in values then Some(values[r]) else None
    case _ => None
  }

  /** The record after all steps, if there is one. */
  function Follow(steps: seq<Step>, id: Id): Option<Id> {
    if steps == [] then Some(id)
    else
      var m := Follow(steps[..|steps| - 1], id);
      if m.Some? then Leads(steps[|steps| - 1], m.value) else None
  }

  /** grn_accessor_resolve_id: follows keys and values from one record, up to the last step or
      until one cannot be followed. */
  method ResolveId(chain: seq<Step>, id: Id) returns (r: Id, n: nat)
    requires chain != []
    ensures n < |chain| && Follow(chain[..n], id) == Some(r)
    ensures n == |chain| - 1 || Leads(chain[n], r).None?
  {
    r, n := id, 0;
    while n + 1 < |chain|
      invariant n < |chain| && Follow(chain[..n], id) == Some(r)
    {
      var next := Leads(chain[n], r);
      if next.None? { return; }
      assert chain[..n + 1][..n] == chain[..n];
      r, n := next.value, n + 1;
    }
  }

  lemma {:induction false} StopsShort(steps: seq<Step>, n: nat, id: Id, r: Id)
    requires n < |steps| && Follow(steps[..n], id) == Some(r) && Leads(steps[n], r).None?
    ensures Follow(steps, id).None?
  {
    var last := |steps| - 1;
    if n < last {
      assert steps[..last][..n] == steps[..n];
      StopsShort(steps[..last], n, id, r);
    }
  }

  /** Forwards and backwards a step goes the same way. */
  ghost predicate Agrees(s: Step) { forall r: Id, t: Id :: Refers(s, r, t) <==> Leads(s, r) == Some(t) }

  /** Keys always do; values do exactly when every record's value is its key. */
  lemma AgreesExactly(s: Step)
    requires s.ByKey? || s.ByValue?
    ensures Agrees(s) <==> s.ByKey? || s.values == s.keys
  {
    if s.ByValue? && Agrees(s) {
      forall r: Id ensures (r in s.values <==> r in s.keys) && (r in s.keys ==> s.values[r] == s.keys[r]) {
        assert r in s.keys ==> Refers(s, r, s.keys[r]);
        assert r in s.values ==> Leads(s, r) == Some(s.values[r]) && Refers(s, r, s.values[r]);
      }
      assert s.values == s.keys;
    }
  }

  lemma {:induction false} ReachesIsFollow(steps: seq<Step>, id: Id, t: Id)
    requires forall i :: 0 <= i < |steps| ==> Agrees(steps[i])
    ensures Reaches(steps, id, t) <==> Follow(steps, id) == Some(t)
  {
    if steps != [] {
      var last := |steps| - 1;
      var front, s := steps[..last], steps[last];
      assert steps == front + [s];
      forall m: Id ensures Reaches(front, id, m) <==> Follow(front, id) == Some(m) { ReachesIsFollow(front, id, m); }
      ReachesLast(front, s, id, t);
      assert Agrees(s);
    }
  }

  /** The last step may be taken off instead of the first. */
  lemma {:induction false} ReachesLast(front: seq<Step>, s: Step, id: Id, t: Id)
    ensures Reaches(front + [s], id, t) <==> exists m :: Reaches(front, id, m) && Refers(s, m, t)
  {
    var all := front + [s];
    if front == [] {
      assert all[1..] == [];
      assert Reaches([], id, id);
      assert Refers(s, id, t) ==> Reaches(all[1..], t, t);
    } else {
      assert all[1..] == front[1..] + [s];
      forall m ensures Reaches(front[1..] + [s], m, t) <==> exists k :: Reaches(front[1..], m, k) && Refers(s, k, t) {
        ReachesLast(front[1..], s, m, t);
      }
      if Reaches(all, id, t) {
        var m :| Refers(front[0], id, m) && Reaches(front[1..] + [s], m, t);
        var k :| Reaches(front[1..], m, k) && Refers(s, k, t);
        assert Reaches(front, id, k);
      }
      if m :| Reaches(front, id, m) && Refers(s, m, t) {
        var k :| Refers(front[0], id, k) && Reaches(front[1..], k, m);
        assert Reaches(front[1..] + [s], k, t);
      }
    }
  }

  /** Through keys, and values that are keys, a record is found from the base result exactly when
      resolving it (r after n steps) goes all the way and ends in the base result. */
  lemma ForwardsIsBackwards(chain: seq<Step>, id: Id, r: Id, n: nat, base: set<Id>)
    requires n < |chain| && Follow(chain[..n], id) == Some(r) && (n == |chain| - 1 || Leads(chain[n], r).None?)
    requires forall i :: 0 <= i < |chain| - 1 ==> (chain[i].ByKey? || chain[i].ByValue?) && Agrees(chain[i])
    ensures ReachesSome(chain[..|chain| - 1], id, base) <==> n == |chain| - 1 && r in base
  {
    var steps := chain[..|chain| - 1];
    assert steps[..n] == chain[..n];
    if n < |chain| - 1 { StopsShort(steps, n, id, r); }
    forall t: Id ensures Reaches(steps, id, t) <==> Follow(steps, id) == Some(t) { ReachesIsFollow(steps, id, t); }
    if n == |chain| - 1 { assert steps[..n] == steps; }
  }

  /** A step through other values is resolved backwards through the keys all the same. */
  lemma ValueIsNotResolvedBackwards(s: Step, r: Id, t: Id)
    requires s.ByValue? && r in s.values && s.values[r] == t && !(r in s.keys && s.keys[r] == t)
    ensures Follow([s], r) == Some(t) && !ReachesSome([s], r, {t})
  {
    assert [s][..0] == [] && [s][1..] == [];
    forall u | u in {t} ensures !Reaches([s], r, u) {
      forall m | Refers(s, r, m) ensures !Reaches([], m, u) { }
    }
  }
}
