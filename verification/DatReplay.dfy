/** Recovery with the log reader of lib/wal.c, which hands out every entry of the file, also
    those whose effect is already in the trie.  Replaying is right for every file in which no
    later entry can undo an earlier one.  In terms of kinds of entries, it is right for all files
    exactly when these hold only additions or only deletions. */
module DatReplay {
  import opened DatTrie
  import opened DatWal

  datatype Kind = Adding | Deleting | Updating

  function KindOf(op: Op): Kind {
    match op
    case Add(_) => Adding
    case DeleteKey(_) => Deleting
    case DeleteId(_) => Deleting
    case _ => Updating
  }

  ghost predicate AllKinds(ops: seq<Op>, kinds: set<Kind>) {
    forall i :: 0 <= i < |ops| ==> KindOf(ops[i]) in kinds
  }

  ghost predicate AllSucceed(t: Trie, ops: seq<Op>) {
    forall i :: 0 <= i < |ops| ==> Succeeds(ApplyAll(t, ops[..i]), ops[i])
  }

  // ----- entries that have nothing left to do -----

  /** Operation `op` has nothing left to do on the trie. */
  predicate Spent(t: Trie, op: Op) {
    match op
    case Add(key) => key in t.ids
    case DeleteKey(key) => key !in t.ids
    case DeleteId(id) => id !in t.keys
    case UpdateKey(src, dest) => src !in t.ids || dest in t.ids
    case UpdateId(id, dest) => id !in t.keys || dest in t.ids
  }

  lemma SpentExactly(t: Trie, op: Op)
    requires Ok(t)
    ensures Spent(t, op) <==> Apply(t, op) == t
  {
    match op
    case Add(key) => if !Spent(t, op) { assert key in Apply(t, op).ids; }
    case DeleteKey(key) => if !Spent(t, op) { assert key !in Apply(t, op).ids; }
    case DeleteId(id) => if !Spent(t, op) { assert id !in Apply(t, op).keys; }
    case UpdateKey(_, dest) => if !Spent(t, op) { assert dest in Apply(t, op).ids; }
    case UpdateId(_, dest) => if !Spent(t, op) { assert dest in Apply(t, op).ids; }
  }

  lemma DoneIsSpent(t: Trie, op: Op)
    requires Ok(t)
    ensures Spent(Apply(t, op), op)
  {
    ApplyTwice(t, op);
    ApplyOk(t, op);
    SpentExactly(Apply(t, op), op);
  }

  // ----- entries that undo others -----

  /** Carrying out `op` may bring the key into the trie. */
  predicate CanAdd(op: Op, key: Key) {
    match op
    case Add(k) => k == key
    case UpdateKey(src, dest) => dest == key && src != key
    case UpdateId(_, dest) => dest == key
    case _ => false
  }

  predicate CanRemove(op: Op, key: Key) {
    match op
    case DeleteKey(k) => k == key
    case DeleteId(_) => true
    case UpdateKey(src, dest) => src == key && dest != key
    case UpdateId(_, dest) => dest != key
    case _ => false
  }

  /** After `later`, a spent `earlier` may have something to do again. */
  predicate Undoes(later: Op, earlier: Op) {
    match earlier
    case Add(key) => CanRemove(later, key)
    case DeleteKey(key) => CanAdd(later, key)
    case DeleteId(_) => later.Add?
    case UpdateKey(src, dest) => src != dest && (CanAdd(later, src) || CanRemove(later, dest))
    case UpdateId(id, dest) => (later.Add? && later.key != dest) || (CanRemove(later, dest) && later != DeleteId(id))
  }

  lemma StaysSpent(t: Trie, op: Op, other: Op)
    requires Ok(t) && Spent(t, op) && !Undoes(other, op)
    ensures Spent(Apply(t, other), op)
  {
  }

  /** A trie on which the second entry undoes the first. */
  function Witness(later: Op, earlier: Op): Trie {
    match earlier
    case Add(key) => Single(if later.DeleteId? || later.UpdateId? then later.id else 1, key)
    case DeleteKey(key) => Source(later, key)
    case DeleteId(id) => Freed(id)
    case UpdateKey(src, dest) => if CanAdd(later, src) then Source(later, src) else Both(later, dest, src, 0)
    case UpdateId(id, dest) =>
      if later.Add? then Freed(id)
      else if later.UpdateKey? || (later.UpdateId? && later.id == id) then Single(id, dest)
      else Both(later, dest, Other(dest, later), id)
  }

  function Single(id: Id, key: Key): Trie { Trie(map[id := key], map[key := id], [], id) }

  /** Without keys, and with id as the next to give out. */
  function Freed(id: Id): Trie { Trie(map[], map[], [id], id) }

  /** Where `op` can bring in the key: what it renames is there under another key. */
  function Source(op: Op, key: Key): Trie {
    match op
    case UpdateKey(src, _) => Single(1, src)
    case UpdateId(id, _) => Single(id, Other(key, op))
    case _ => EMPTY
  }

  /** A key that is neither this one nor the one that `op` renames to. */
  function Other(key: Key, op: Op): Key {
    var dest := if op.UpdateKey? || op.UpdateId? then op.dest else key;
    Key(key.bytes + dest.bytes + [0])
  }

  /** `gone` where `op` takes it away, and another key that stays under `id`. */
  function Both(op: Op, gone: Key, stays: Key, id: Id): Trie {
    var at := if op.DeleteId? || op.UpdateId? then op.id else id + 1;
    var next := if at == id then id + 1 else id;
    Trie(map[at := gone, next := stays], map[gone := at, stays := next], [], at + next)
  }

  lemma OtherDiffers(key: Key, op: Op)
    ensures Other(key, op) != key && (op.UpdateKey? || op.UpdateId? ==> Other(key, op) != op.dest)
  {
    assert |Other(key, op).bytes| > |key.bytes|;
  }

  /** The pairs that undo each other, exactly. */
  lemma UndoesExactly(later: Op, earlier: Op)
    ensures Undoes(later, earlier) <==> exists t :: UndoneAt(t, later, earlier)
  {
    if Undoes(later, earlier) {
      UndoneThere(later, earlier);
    } else {
      forall t | Ok(t) && Spent(t, earlier) ensures Spent(Apply(t, later), earlier) { StaysSpent(t, earlier, later); }
    }
  }

  ghost predicate UndoneAt(t: Trie, later: Op, earlier: Op) {
    Ok(t) && Spent(t, earlier) && !Spent(Apply(t, later), earlier)
  }

  lemma UndoneThere(later: Op, earlier: Op)
    requires Undoes(later, earlier)
    ensures UndoneAt(Witness(later, earlier), later, earlier)
  {
    match earlier
    case UpdateKey(src, dest) =>
      if CanAdd(later, src) { BroughtIn(later, src); } else { TakenAway(later, dest, src, 0); }
    case UpdateId(id, dest) => UndoesUpdateId(later, id, dest);
    case DeleteKey(key) => BroughtIn(later, key);
    case _ =>
  }

  lemma BroughtIn(later: Op, key: Key)
    requires CanAdd(later, key)
    ensures var t := Source(later, key);
      Ok(t) && key !in t.ids && key in Apply(t, later).ids && forall k :: k in Apply(t, later).ids ==> k == key
  {
    OtherDiffers(key, later);
  }

  lemma TakenAway(later: Op, gone: Key, stays: Key, id: Id)
    requires CanRemove(later, gone) && gone != stays
    requires later.UpdateKey? || later.UpdateId? ==> later.dest != stays
    ensures var t := Both(later, gone, stays, id);
      Ok(t) && gone in t.ids && gone !in Apply(t, later).ids
      && stays in Apply(t, later).ids
      && ((later.DeleteId? || later.UpdateId? ==> later.id != id) ==> id in Apply(t, later).keys)
  {
    var t := Both(later, gone, stays, id);
    assert t.ids[gone] != t.ids[stays];
  }

  lemma UndoesUpdateId(later: Op, id: Id, dest: Key)
    requires Undoes(later, UpdateId(id, dest))
    ensures UndoneAt(Witness(later, UpdateId(id, dest)), later, UpdateId(id, dest))
  {
    OtherDiffers(dest, later);
    if !later.Add? && !later.UpdateKey? && !(later.UpdateId? && later.id == id) {
      TakenAway(later, dest, Other(dest, later), id);
    }
  }

  // ----- files in which nothing is undone -----

  predicate CalmAt(ops: seq<Op>, i: nat, j: nat) requires i < |ops| && j < |ops| { !Undoes(ops[j], ops[i]) }

  /** No entry undoes an earlier one. */
  ghost predicate Calm(ops: seq<Op>) { forall i, j :: 0 <= i < j < |ops| ==> CalmAt(ops, i, j) }

  /** In such a file every entry stays spent. */
  lemma {:induction false} AllSpent(t: Trie, ops: seq<Op>, i: nat)
    requires Ok(t) && Calm(ops) && i < |ops|
    ensures Spent(ApplyAll(t, ops), ops[i])
  {
    var n := |ops| - 1;
    ApplyAllOk(t, ops[..n]);
    if i == n {
      DoneIsSpent(ApplyAll(t, ops[..n]), ops[n]);
    } else {
      assert CalmAt(ops, i, n);
      forall j, k | 0 <= j < k < n ensures CalmAt(ops[..n], j, k) { assert CalmAt(ops, j, k); }
      AllSpent(t, ops[..n], i);
      StaysSpent(ApplyAll(t, ops[..n]), ops[i], ops[n]);
    }
  }

  lemma {:induction false} SpentReplay(t: Trie, ops: seq<Op>)
    requires Ok(t) && forall i :: 0 <= i < |ops| ==> Spent(t, ops[i])
    ensures ApplyAll(t, ops) == t
  {
    if ops != [] {
      SpentReplay(t, ops[..|ops| - 1]);
      SpentExactly(t, ops[|ops| - 1]);
    }
  }

  /** Replaying a calm file over its own result changes nothing at all. */
  lemma CalmReplay(t: Trie, ops: seq<Op>)
    requires Ok(t) && Calm(ops)
    ensures ApplyAll(ApplyAll(t, ops), ops) == ApplyAll(t, ops)
  {
    ApplyAllOk(t, ops);
    forall i | 0 <= i < |ops| ensures Spent(ApplyAll(t, ops), ops[i]) { AllSpent(t, ops, i); }
    SpentReplay(ApplyAll(t, ops), ops);
  }

  /** On every trie, an entry of the file that was carried out before changes nothing. */
  ghost predicate Quiet(ops: seq<Op>) {
    forall t, i :: Ok(t) && 0 <= i < |ops| ==> Apply(ApplyAll(t, ops), ops[i]) == ApplyAll(t, ops)
  }

  /** A file is calm exactly when any two of its entries, on their own, are quiet. */
  lemma CalmExactly(ops: seq<Op>)
    ensures Calm(ops) <==> forall i, j :: 0 <= i < j < |ops| ==> Quiet([ops[i], ops[j]])
  {
    forall i, j | 0 <= i < j < |ops| ensures CalmAt(ops, i, j) <==> Quiet([ops[i], ops[j]]) {
      PairExactly(ops[i], ops[j]);
    }
  }

  lemma PairExactly(a: Op, b: Op)
    ensures !Undoes(b, a) <==> Quiet([a, b])
  {
    var ops := [a, b];
    if Undoes(b, a) {
      UndoesExactly(b, a);
      var t :| UndoneAt(t, b, a);
      SpentExactly(t, a);
      PairApplied(t, a, b);
      ApplyOk(t, b);
      SpentExactly(Apply(t, b), a);
      assert ops[0] == a && Apply(ApplyAll(t, ops), ops[0]) != ApplyAll(t, ops);
    } else {
      assert Calm(ops);
      forall t, i | Ok(t) && 0 <= i < |ops| ensures Apply(ApplyAll(t, ops), ops[i]) == ApplyAll(t, ops) {
        AllSpent(t, ops, i);
        ApplyAllOk(t, ops);
        SpentExactly(ApplyAll(t, ops), ops[i]);
      }
    }
  }

  lemma PairApplied(t: Trie, a: Op, b: Op)
    ensures ApplyAll(t, [a, b]) == Apply(Apply(t, a), b)
  {
    assert [a, b][..1] == [a] && [a][..0] == [];
    assert ApplyAll(t, [a]) == Apply(t, a);
  }

  /** Files that are not calm may replay well all the same. */
  lemma AddedAndDeleted(t: Trie, key: Key)
    requires Ok(t) && key !in t.ids
    ensures var ops := [Add(key), DeleteKey(key)];
      !Calm(ops) && ApplyAll(ApplyAll(t, ops), ops).keys == ApplyAll(t, ops).keys == t.keys
  {
    var ops := [Add(key), DeleteKey(key)];
    assert !CalmAt(ops, 0, 1);
    PairApplied(t, ops[0], ops[1]);
    var t' := ApplyAll(t, ops);
    PairApplied(t', ops[0], ops[1]);
    ApplyAllOk(t, ops);
    ComesAndGoes(t, key);
    ComesAndGoes(t', key);
  }

  lemma ComesAndGoes(t: Trie, key: Key)
    requires Ok(t) && key !in t.ids
    ensures Remove(Insert(t, key), key).keys == t.keys && Remove(Insert(t, key), key).ids == t.ids
  {
    if t.free != [] { assert FreeOk(t, 0); }
    assert NextId(t) !in t.keys;
  }

  // ----- exactly which kinds of entries replay safely -----

  /** Replaying a file of operations of these kinds over its own result gives that result. */
  ghost predicate SafeKinds(kinds: set<Kind>) {
    forall base: seq<Op>, ops: seq<Op> ::
      AllSucceed(EMPTY, base) && AllSucceed(ApplyAll(EMPTY, base), ops) && AllKinds(ops, kinds) ==>
        ApplyAll(ApplyAll(ApplyAll(EMPTY, base), ops), ops).keys == ApplyAll(ApplyAll(EMPTY, base), ops).keys
  }

  function K(n: int): Key { Key([n]) }

  /** One operation after another, by their results. */
  lemma Chain(t: Trie, ops: seq<Op>, states: seq<Trie>)
    requires |states| == |ops| + 1 && states[0] == t
    requires forall i :: 0 <= i < |ops| ==> states[i + 1] == Apply(states[i], ops[i])
    ensures ApplyAll(t, ops) == states[|ops|]
    ensures forall i :: 0 <= i <= |ops| ==> ApplyAll(t, ops[..i]) == states[i]
  {
    if ops == [] {
      assert ops[..0] == [];
    } else {
      var n := |ops| - 1;
      Chain(t, ops[..n], states[..|ops|]);
      forall i | 0 <= i <= |ops| ensures ApplyAll(t, ops[..i]) == states[i] {
        if i <= n { assert ops[..n][..i] == ops[..i]; } else { assert ops[..i] == ops; }
      }
    }
  }

  lemma Keys()
    ensures forall m, n {:trigger K(m), K(n)} :: m != n ==> K(m) != K(n)
  {
    assert forall m :: K(m).bytes[0] == m;
  }

  /** Two keys; the first is renamed twice and the second then takes its first name. */
  const TWO: seq<Op> := [Add(K(1)), Add(K(4))]
  const RENAMES: seq<Op> := [UpdateKey(K(1), K(2)), UpdateKey(K(2), K(3)), UpdateKey(K(4), K(1))]
  const RENAMED: Trie := Trie(map[1 := K(3), 2 := K(1)], map[K(3) := 1, K(1) := 2], [], 2)

  const TWO_KEYS: Trie := Trie(map[1 := K(1), 2 := K(4)], map[K(1) := 1, K(4) := 2], [], 2)

  lemma AddsTwo()
    ensures AllSucceed(EMPTY, TWO) && ApplyAll(EMPTY, TWO) == TWO_KEYS
  {
    Keys();
    Chain(EMPTY, TWO, [EMPTY, Trie(map[1 := K(1)], map[K(1) := 1], [], 1), TWO_KEYS]);
  }

  const ONCE: Trie := Trie(map[1 := K(2), 2 := K(4)], map[K(2) := 1, K(4) := 2], [], 2)
  const TWICE: Trie := Trie(map[1 := K(3), 2 := K(4)], map[K(3) := 1, K(4) := 2], [], 2)

  lemma FirstRenaming()
    ensures Succeeds(TWO_KEYS, RENAMES[0]) && Apply(TWO_KEYS, RENAMES[0]) == ONCE
  {
    Keys();
    assert ONCE.ids == (TWO_KEYS.ids - {K(1)})[K(2) := 1];
  }

  lemma SecondRenaming()
    ensures Succeeds(ONCE, RENAMES[1]) && Apply(ONCE, RENAMES[1]) == TWICE
  {
    Keys();
    assert TWICE.ids == (ONCE.ids - {K(2)})[K(3) := 1];
  }

  lemma ThirdRenaming()
    ensures Succeeds(TWICE, RENAMES[2]) && Apply(TWICE, RENAMES[2]) == RENAMED
  {
    Keys();
    assert RENAMED.ids == (TWICE.ids - {K(4)})[K(1) := 2];
  }

  lemma RenamesOnce()
    ensures AllSucceed(TWO_KEYS, RENAMES) && ApplyAll(TWO_KEYS, RENAMES) == RENAMED
  {
    FirstRenaming();
    SecondRenaming();
    ThirdRenaming();
    Chain(TWO_KEYS, RENAMES, [TWO_KEYS, ONCE, TWICE, RENAMED]);
  }

  /** Replayed, the first renaming catches the wrong key. */
  lemma RenamesReplayWrongly()
    ensures ApplyAll(RENAMED, RENAMES).keys == map[1 := K(3), 2 := K(2)] != RENAMED.keys
  {
    Keys();
    var d := Trie(map[1 := K(3), 2 := K(2)], map[K(3) := 1, K(2) := 2], [], 2);
    assert d.ids == (RENAMED.ids - {K(1)})[K(2) := 2];
    Chain(RENAMED, RENAMES, [RENAMED, d, d, d]);
    assert d.keys[2] != RENAMED.keys[2];
  }

  /** Two keys come and go, and the first comes back. */
  const TURNS: seq<Op> := [Add(K(1)), Add(K(2)), DeleteKey(K(1)), DeleteKey(K(2)), Add(K(1))]
  const TURNED: Trie := Trie(map[2 := K(1)], map[K(1) := 2], [1], 2)

  lemma TurnsOnce()
    ensures AllSucceed(EMPTY, TURNS) && ApplyAll(EMPTY, TURNS) == TURNED
  {
    Keys();
    var a := Trie(map[1 := K(1)], map[K(1) := 1], [], 1);
    var b := Trie(map[1 := K(1), 2 := K(2)], map[K(1) := 1, K(2) := 2], [], 2);
    var c := Trie(map[2 := K(2)], map[K(2) := 2], [1], 2);
    var d := Trie(map[], map[], [2, 1], 2);
    assert c == Remove(b, K(1)) && d == Remove(c, K(2));
    Chain(EMPTY, TURNS, [EMPTY, a, b, c, d, TURNED]);
  }

  /** Replayed, the freed ids are given out in another order. */
  lemma TurnsReplayWrongly()
    ensures ApplyAll(TURNED, TURNS).keys == map[1 := K(1)] != TURNED.keys
  {
    Keys();
    var f := Trie(map[2 := K(1), 1 := K(2)], map[K(1) := 2, K(2) := 1], [], 2);
    var g := Trie(map[1 := K(2)], map[K(2) := 1], [2], 2);
    var h := Trie(map[], map[], [1, 2], 2);
    var i := Trie(map[1 := K(1)], map[K(1) := 1], [2], 2);
    assert g == Remove(f, K(1)) && h == Remove(g, K(2));
    Chain(TURNED, TURNS, [TURNED, TURNED, f, g, h, i]);
    assert 1 in i.keys && 1 !in TURNED.keys;
  }

  /** Additions do not undo each other, nor do deletions. */
  lemma OneKindIsCalm(ops: seq<Op>, kind: Kind)
    requires AllKinds(ops, {kind}) && !kind.Updating?
    ensures Calm(ops)
  {
    forall i, j | 0 <= i < j < |ops| ensures CalmAt(ops, i, j) {
      assert KindOf(ops[i]) == kind && KindOf(ops[j]) == kind;
    }
  }

  lemma OneKindIsSafe(kinds: set<Kind>, kind: Kind)
    requires kinds <= {kind} && !kind.Updating?
    ensures SafeKinds(kinds)
  {
    forall base: seq<Op>, ops: seq<Op> | AllKinds(ops, kinds)
      ensures ApplyAll(ApplyAll(ApplyAll(EMPTY, base), ops), ops) == ApplyAll(ApplyAll(EMPTY, base), ops)
    {
      ApplyAllOk(EMPTY, base);
      OneKindIsCalm(ops, kind);
      CalmReplay(ApplyAll(EMPTY, base), ops);
    }
  }

  lemma UpdatesAreUnsafe(kinds: set<Kind>)
    requires Updating in kinds
    ensures !SafeKinds(kinds)
  {
    AddsTwo();
    RenamesOnce();
    RenamesReplayWrongly();
    assert AllKinds(RENAMES, kinds);
  }

  lemma AddsAndDeletesAreUnsafe(kinds: set<Kind>)
    requires Adding in kinds && Deleting in kinds
    ensures !SafeKinds(kinds)
  {
    TurnsOnce();
    TurnsReplayWrongly();
    assert AllKinds(TURNS, kinds) && AllSucceed(EMPTY, []) && ApplyAll(EMPTY, []) == EMPTY;
  }

  /** For a set of kinds, reading whole files with entries of these kinds is always safe exactly
      when the set holds additions only or deletions only. */
  lemma SafeExactly(kinds: set<Kind>)
    ensures SafeKinds(kinds) <==> kinds <= {Adding} || kinds <= {Deleting}
  {
    assert forall k :: k in kinds ==> k == Adding || k == Deleting || k == Updating;
    if Updating in kinds { UpdatesAreUnsafe(kinds); }
    else if Adding in kinds && Deleting in kinds { AddsAndDeletesAreUnsafe(kinds); }
    else { OneKindIsSafe(kinds, if Adding in kinds then Adding else Deleting); }
  }

  // ----- whole runs with that reader -----

  /** No entry in the log file undoes an earlier one. */
  ghost predicate CalmFile(s: System) { s.cleared <= |s.log| && Calm(s.log[s.cleared..]) }

  lemma {:induction false} ApplyAllConcat(t: Trie, a: seq<Op>, b: seq<Op>)
    ensures ApplyAll(t, a + b) == ApplyAll(ApplyAll(t, a), b)
  {
    if b == [] {
      assert a + b == a;
    } else {
      var n := |b| - 1;
      ApplyAllConcat(t, a, b[..n]);
      assert (a + b)[..|a + b| - 1] == a + b[..n];
    }
  }

  /** An entry still in the file but behind the trie has nothing left to do. */
  lemma BehindIsSpent(s: System, m: nat, pos: nat)
    requires CalmFile(s) && s.cleared <= pos < m <= |s.log|
    ensures Apply(After(s, m), s.log[pos]) == After(s, m)
  {
    var file := s.log[s.cleared..m];
    assert s.log[..m] == s.log[..s.cleared] + file;
    ApplyAllConcat(EMPTY, s.log[..s.cleared], file);
    ApplyAllOk(EMPTY, s.log[..s.cleared]);
    PrefixIsCalm(s.log[s.cleared..], file);
    AllSpent(After(s, s.cleared), file, pos - s.cleared);
    ApplyAllOk(EMPTY, s.log[..m]);
    SpentExactly(After(s, m), s.log[pos]);
  }

  lemma PrefixIsCalm(ops: seq<Op>, part: seq<Op>)
    requires Calm(ops) && part <= ops
    ensures Calm(part)
  {
    forall i, j | 0 <= i < j < |part| ensures CalmAt(part, i, j) { assert CalmAt(ops, i, j); }
  }

  /** The trie has taken in the first m entries, where m is behind the log by one at most
      while a call or a recovery is in progress. */
  ghost predicate Progress(s: System, m: nat) {
    && s.cleared <= m <= |s.log| && s.trie == After(s, m)
    && match s.phase
       case Idle => m == |s.log|
       case Logged => m + 1 == |s.log|
       case Applied(_) => m == |s.log|
       case Down => true
       case Replaying(pos) => s.cleared <= pos <= m
       case Replayed(pos) => s.cleared <= pos < m
  }

  lemma NextProgress(s: System, e: Event, m: nat) returns (m': nat)
    requires Progress(s, m) && CalmFile(s) && Enabled(s, e)
    ensures Progress(Next(s, e, false), m')
  {
    var s' := Next(s, e, false);
    m' := m;
    AfterSame(s, s', m);
    match e
    case Change => AfterNext(s, m); m' := m + 1;
    case ReplayEntry =>
      if s.phase.pos < m { BehindIsSpent(s, m, s.phase.pos); }
      else { AfterNext(s, m); m' := m + 1; }
    case _ =>
    AfterSame(s, s', m');
  }

  /** A run with the file-reading recovery in which the file is always calm. */
  ghost predicate CalmRun(s: System, events: seq<Event>, end: System)
    decreases |events|
  {
    CalmFile(s) &&
    if events == [] then end == s
    else Enabled(s, events[0]) && CalmRun(Next(s, events[0], false), events[1..], end)
  }

  lemma {:induction false} RunProgress(s: System, events: seq<Event>, end: System, m: nat) returns (m': nat)
    requires Progress(s, m) && CalmRun(s, events, end)
    ensures Progress(end, m')
    decreases |events|
  {
    if events == [] { return m; }
    m' := NextProgress(s, events[0], m);
    m' := RunProgress(Next(s, events[0], false), events[1..], end, m');
  }

  lemma {:induction false} CalmRunIsRun(s: System, events: seq<Event>, end: System)
    requires CalmRun(s, events, end)
    ensures Runs(s, events, end, false, false)
    decreases |events|
  {
    if events != [] { CalmRunIsRun(Next(s, events[0], false), events[1..], end); }
  }

  /** With the reader of lib/wal.c, and whatever crashes happen, a table whose log file never
      holds an entry that undoes an earlier one holds the operations of all calls when it is up;
      here they may also fail. */
  lemma RecoversCalm(events: seq<Event>, end: System)
    requires CalmRun(NEW, events, end)
    ensures end.log == Called(events)
    ensures end.phase.Idle? ==> end.trie == ApplyAll(EMPTY, Called(events))
  {
    CalmRunIsRun(NEW, events, end);
    LogIsCalled(NEW, events, end, false, false);
    assert NEW.log[..0] == [];
    var _ := RunProgress(NEW, events, end, 0);
    assert end.log[..|end.log|] == end.log;
  }

  /** The entries in the log file are all additions or all deletions. */
  ghost predicate OneKind(s: System) {
    s.cleared <= |s.log|
    && (AllKinds(s.log[s.cleared..], {Adding}) || AllKinds(s.log[s.cleared..], {Deleting}))
  }

  ghost predicate OneKindRun(s: System, events: seq<Event>, end: System)
    decreases |events|
  {
    OneKind(s) &&
    if events == [] then end == s
    else Enabled(s, events[0]) && OneKindRun(Next(s, events[0], false), events[1..], end)
  }

  lemma {:induction false} OneKindRunIsCalm(s: System, events: seq<Event>, end: System)
    requires OneKindRun(s, events, end)
    ensures CalmRun(s, events, end)
    decreases |events|
  {
    var file := s.log[s.cleared..];
    OneKindIsCalm(file, if AllKinds(file, {Adding}) then Adding else Deleting);
    if events != [] { OneKindRunIsCalm(Next(s, events[0], false), events[1..], end); }
  }

  /** In particular a table whose log file never mixes additions, deletions and updates. */
  lemma RecoversOneKind(events: seq<Event>, end: System)
    requires OneKindRun(NEW, events, end)
    ensures end.log == Called(events)
    ensures end.phase.Idle? ==> end.trie == ApplyAll(EMPTY, Called(events))
  {
    OneKindRunIsCalm(NEW, events, end);
    RecoversCalm(events, end);
  }

  // ----- an entry of a call that failed -----

  lemma RunChain(s: System, events: seq<Event>, states: seq<System>, skips: bool)
    requires |states| == |events| + 1 && states[0] == s
    requires forall i :: 0 <= i < |events| ==>
               Enabled(states[i], events[i]) && states[i + 1] == Next(states[i], events[i], skips)
    ensures Runs(s, events, states[|events|], skips, false)
    decreases |events|
  {
    if events != [] { RunChain(states[1], events[1..], states[1..], skips); }
  }

  const ONE: Trie := Trie(map[1 := K(2)], map[K(2) := 1], [], 1)
  const OTHER: Trie := Trie(map[1 := K(1)], map[K(1) := 1], [], 1)
  const NONE: Trie := Trie(map[], map[], [1], 1)
  const ENTRIES: seq<Op> := [Add(K(2)), DeleteKey(K(1)), UpdateKey(K(2), K(1))]

  lemma EntriesOneByOne()
    ensures Apply(EMPTY, ENTRIES[0]) == ONE
    ensures Apply(ONE, ENTRIES[1]) == ONE && !Succeeds(ONE, ENTRIES[1])
    ensures Apply(ONE, ENTRIES[2]) == OTHER && Succeeds(ONE, ENTRIES[2])
    ensures Apply(OTHER, ENTRIES[1]) == NONE && Apply(NONE, ENTRIES[2]) == NONE
  {
    Keys();
    assert OTHER.ids == (ONE.ids - {K(2)})[K(1) := 1];
  }

  const CRASHED: System := System(OTHER, 1, ENTRIES, 0, Down)

  /** A failed deletion stays in the log ahead of `wal_id` when the next call crashes after
      its change. */
  lemma FailedEntryStays()
    ensures Runs(System(ONE, 1, ENTRIES[..1], 0, Idle),
                 [Write(ENTRIES[1]), Change, Advance, Write(ENTRIES[2]), Change, Crash], CRASHED, true, false)
    ensures ApplyAll(EMPTY, ENTRIES) == OTHER
  {
    EntriesOneByOne();
    Chain(EMPTY, ENTRIES, [EMPTY, ONE, ONE, OTHER]);
    var s, two := System(ONE, 1, ENTRIES[..1], 0, Idle), ENTRIES[..2];
    assert two == ENTRIES[..1] + [ENTRIES[1]] && ENTRIES == two + [ENTRIES[2]];
    RunChain(s, [Write(ENTRIES[1]), Change, Advance, Write(ENTRIES[2]), Change, Crash],
             [s, System(ONE, 1, two, 0, Logged), System(ONE, 1, two, 0, Applied(false)),
              System(ONE, 1, two, 0, Idle), System(ONE, 1, ENTRIES, 0, Logged),
              System(OTHER, 1, ENTRIES, 0, Applied(true)), CRASHED], true);
  }

  /** Recovery then replays it against a key that did not exist when it failed: the key is
      lost, even for a reader that passes over entries up to `wal_id`. */
  lemma FailedEntryIsReplayed()
    ensures Runs(CRASHED, [Open, ReplayEntry, ReplayAdvance, ReplayEntry, ReplayAdvance, Close],
                 System(NONE, 3, ENTRIES, 3, Idle), true, false)
    ensures NONE != OTHER
  {
    EntriesOneByOne();
    RunChain(CRASHED, [Open, ReplayEntry, ReplayAdvance, ReplayEntry, ReplayAdvance, Close],
             [CRASHED, System(OTHER, 1, ENTRIES, 0, Replaying(1)), System(NONE, 1, ENTRIES, 0, Replayed(1)),
              System(NONE, 2, ENTRIES, 0, Replaying(2)), System(NONE, 2, ENTRIES, 0, Replayed(2)),
              System(NONE, 3, ENTRIES, 0, Replaying(3)), System(NONE, 3, ENTRIES, 3, Idle)], true);
  }
}
