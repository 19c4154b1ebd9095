/** Generations of trie files (lib/dat.cpp).  The shared header names the current generation;
    a rebuild, truncation or repair creates the file of the next one, publishes it in the
    header and unlinks the one two before; every handle that follows the header does the same
    unlinking.  File names repeat every 4096 generations.  `disk` says which generation's trie
    the file of a path holds. */
module DatGenerations {
  const N_PATHS: nat := 4096

  /** How many generations a handle may be behind at most, plus one. */
  const SAFE_LAG: nat := N_PATHS - 3

  type Gen = nat

  function Path(g: Gen): nat { g % N_PATHS }

  datatype Phase =
    | Free
    | Seen(id: Gen)       // has read the header, is about to open the file
    | Removing(id: Gen)   // is about to unlink an old file
    | Made(id: Gen)       // the writer has created the next file

  /** `trie` is the generation of the opened file, 0 for none. */
  datatype Handle = Handle(trie: Gen, fileId: Gen, phase: Phase)

  datatype System = System(header: Gen, disk: map<nat, Gen>, handles: map<nat, Handle>, writer: int)

  const NEW: System := System(0, map[], map[], -1)

  datatype Event =
    | OpenHandle(h: nat)
    | See(h: nat)
    | Load(h: nat)
    | Unlink(h: nat)
    | Lock(h: nat)
    | Unlock(h: nat)
    | Make(h: nat)
    | GiveUp(h: nat)
    | Publish(h: nat, reopen: bool)
    | Die(h: nat)

  predicate OnDisk(disk: map<nat, Gen>, g: Gen) { Path(g) in disk && disk[Path(g)] == g }

  predicate Enabled(s: System, e: Event) {
    if e.OpenHandle? then e.h !in s.handles
    else
      e.h in s.handles &&
      var p := s.handles[e.h].phase;
      match e
      case See(_) => p.Free?
      case Load(_) => p.Seen?
      case Unlink(_) => p.Removing?
      case Lock(h) => p.Free? && s.writer == -1
      case Unlock(h) => p.Free? && s.writer == h
      case Make(h) => p.Free? && s.writer == h && UpToDate(s, s.handles[h])
      case GiveUp(_) => p.Made?
      case Publish(_, _) => p.Made?
      case _ => true
  }

  /** Nothing newer than the opened file: the early return of grn_dat_open_trie_if_needed. */
  predicate UpToDate(s: System, x: Handle) { s.header == 0 || (x.trie != 0 && s.header <= x.fileId) }

  /** The file two generations back is unlinked, if there is one. */
  function AfterOpening(g: Gen): Phase { if g >= 3 then Removing(g - 2) else Free }

  function Put(s: System, h: nat, x: Handle): System { s.(handles := s.handles[h := x]) }

  function Next(s: System, e: Event): System
    requires Enabled(s, e)
  {
    match e
    case OpenHandle(h) => Put(s, h, Handle(0, s.header, Free))
    case See(h) =>
      if UpToDate(s, s.handles[h]) then s else Put(s, h, s.handles[h].(phase := Seen(s.header)))
    case Load(h) =>
      var g := s.handles[h].phase.id;
      if Path(g) !in s.disk then Put(s, h, s.handles[h].(phase := Free))
      else Put(s, h, Handle(s.disk[Path(g)], g, AfterOpening(g)))
    case Unlink(h) =>
      var g := s.handles[h].phase.id;
      Put(s, h, s.handles[h].(phase := Free)).(disk := s.disk - {Path(g)})
    case Lock(h) => s.(writer := h)
    case Unlock(_) => s.(writer := -1)
    case Make(h) =>
      var g := s.header + 1;
      Put(s, h, s.handles[h].(phase := Made(g))).(disk := s.disk[Path(g) := g])
    case GiveUp(h) => Put(s, h, s.handles[h].(phase := Free))
    case Publish(h, reopen) =>
      var g := s.handles[h].phase.id;
      var x := if reopen then s.handles[h].(phase := Seen(g)) else Handle(g, g, AfterOpening(g));
      Put(s, h, x).(header := g)
    case Die(h) => s.(handles := s.handles - {h}, writer := if s.writer == h then -1 else s.writer)
  }

  lemma SamePath(x: Gen, y: Gen)
    requires x <= y < x + N_PATHS && Path(x) == Path(y)
    ensures x == y
  {
  }

  // ----- the invariant -----

  /** Files of generations around the current one, each at its own path. */
  predicate FileOk(s: System, p: nat) requires p in s.disk {
    s.disk[p] >= 1 && Path(s.disk[p]) == p && s.header - 2 <= s.disk[p] <= s.header + 1
  }

  predicate Wiped(s: System) { s.header >= 3 ==> !OnDisk(s.disk, s.header - 2) }

  predicate HandleOk(s: System, h: nat) requires h in s.handles {
    var x := s.handles[h];
    && x.fileId <= s.header && (x.trie != 0 ==> x.trie == x.fileId)
    && (x.phase.Seen? ==> 1 <= x.phase.id <= s.header && (x.trie == 0 || x.fileId < x.phase.id))
    && (x.phase.Removing? ==> 1 <= x.phase.id && x.phase.id + 2 <= s.header)
    && (x.phase.Removing? ==> x.phase.id + 2 == x.fileId)
    && (x.phase.Made? ==> s.writer == h && x.phase.id == s.header + 1 && OnDisk(s.disk, s.header + 1))
    // a handle that has caught up has also unlinked what it had to
    && (x.trie != 0 && x.fileId == s.header && (x.phase.Free? || x.phase.Made?) ==> Wiped(s))
    && (x.phase.Made? ==> s.header == 0 || (x.trie != 0 && x.fileId == s.header))
  }

  /** The files of the current and the previous generation exist. */
  predicate Kept(s: System) {
    && (s.header >= 1 ==> OnDisk(s.disk, s.header))
    && (s.header >= 2 ==> OnDisk(s.disk, s.header - 1))
  }

  ghost predicate Inv(s: System) {
    && Kept(s)
    && (forall p :: p in s.disk ==> FileOk(s, p))
    && (forall h :: h in s.handles ==> HandleOk(s, h))
  }

  /** A handle in the middle of following the header is less than `lag` generations behind it. */
  predicate Close(s: System, h: nat, lag: nat) requires h in s.handles {
    match s.handles[h].phase
    case Seen(g) => s.header - g < lag
    case Removing(g) => s.header - (g + 2) < lag
    case _ => true
  }

  lemma UnlinkKeeps(s: System, h: nat)
    requires Inv(s) && h in s.handles && s.handles[h].phase.Removing? && Close(s, h, SAFE_LAG)
    ensures Inv(Next(s, Unlink(h)))
  {
    var s' := Next(s, Unlink(h));
    var g := s.handles[h].phase.id;
    assert HandleOk(s, h);
    forall x | g < x <= s.header + 1 ensures Path(x) != Path(g) {
      if Path(x) == Path(g) { SamePath(g, x); }
    }
    assert !OnDisk(s'.disk, g);
    forall k | k in s'.handles ensures HandleOk(s', k) {
      assert HandleOk(s, k);
    }
    forall p | p in s'.disk ensures FileOk(s', p) { assert FileOk(s, p); }
  }

  /** A handle that opens a file gets the generation it asked for. */
  lemma LoadFinds(s: System, g: Gen)
    requires Inv(s) && 1 <= g <= s.header && s.header - g < SAFE_LAG && Path(g) in s.disk
    ensures s.disk[Path(g)] == g
  {
    assert FileOk(s, Path(g));
    var x := s.disk[Path(g)];
    if x < g { SamePath(x, g); } else { SamePath(g, x); }
  }

  /** Only the handle itself and nothing on disk changes. */
  lemma HandleChange(s: System, s': System, h: nat)
    requires Inv(s) && s'.disk == s.disk && s'.header == s.header && s'.writer == s.writer
    requires forall k :: k in s'.handles && k != h ==> k in s.handles && s'.handles[k] == s.handles[k]
    requires h in s'.handles ==> HandleOk(s', h)
    ensures Inv(s')
  {
    forall k | k in s'.handles ensures HandleOk(s', k) { if k != h { assert HandleOk(s, k); } }
    forall p | p in s'.disk ensures FileOk(s', p) { assert FileOk(s, p); }
  }

  lemma LoadKeeps(s: System, h: nat)
    requires Inv(s) && h in s.handles && s.handles[h].phase.Seen? && Close(s, h, SAFE_LAG)
    ensures Inv(Next(s, Load(h)))
  {
    assert HandleOk(s, h);
    var g := s.handles[h].phase.id;
    if Path(g) in s.disk { LoadFinds(s, g); }
    var s' := Next(s, Load(h));
    assert HandleOk(s', h);
    HandleChange(s, s', h);
  }

  lemma MakeKeeps(s: System, h: nat)
    requires Inv(s) && Enabled(s, Make(h))
    ensures Inv(Next(s, Make(h)))
  {
    var s' := Next(s, Make(h));
    var g := s.header + 1;
    forall x: Gen | s.header - 2 <= x <= s.header ensures Path(x) != Path(g) {
      if Path(x) == Path(g) { SamePath(x, g); }
    }
    forall p | p in s'.disk ensures FileOk(s', p) { if p != Path(g) { assert FileOk(s, p); } }
    forall k | k in s'.handles ensures HandleOk(s', k) { assert HandleOk(s, k) && HandleOk(s, h); }
  }

  lemma PublishKeeps(s: System, h: nat, reopen: bool)
    requires Inv(s) && Enabled(s, Publish(h, reopen))
    ensures Inv(Next(s, Publish(h, reopen)))
  {
    var s' := Next(s, Publish(h, reopen));
    assert HandleOk(s, h);
    forall p | p in s'.disk ensures FileOk(s', p) { assert FileOk(s, p); }
    forall k | k in s'.handles ensures HandleOk(s', k) { assert HandleOk(s, k); }
  }

  lemma NextKeeps(s: System, e: Event)
    requires Inv(s) && Enabled(s, e) && (e.h in s.handles ==> Close(s, e.h, SAFE_LAG))
    ensures Inv(Next(s, e))
  {
    var s' := Next(s, e);
    match e
    case Load(h) => LoadKeeps(s, h);
    case Unlink(h) => UnlinkKeeps(s, h);
    case Make(h) => MakeKeeps(s, h);
    case Publish(h, reopen) => PublishKeeps(s, h, reopen);
    case OpenHandle(h) => HandleChange(s, s', h);
    case See(h) => assert HandleOk(s, h); HandleChange(s, s', h);
    case GiveUp(h) => assert HandleOk(s, h); HandleChange(s, s', h);
    case _ => LeaveKeeps(s, s');
  }

  /** The lock is taken or given back, or a handle is gone. */
  lemma LeaveKeeps(s: System, s': System)
    requires Inv(s) && s'.header == s.header && s'.disk == s.disk
    requires forall k :: k in s'.handles ==> k in s.handles && s'.handles[k] == s.handles[k]
    requires forall k :: k in s'.handles && s'.handles[k].phase.Made? && s.writer == k ==> s'.writer == k
    ensures Inv(s')
  {
    forall k | k in s'.handles ensures HandleOk(s', k) { assert HandleOk(s, k); }
    forall p | p in s'.disk ensures FileOk(s', p) { assert FileOk(s, p); }
  }

  /** A run with one writer at a time and any number of handles, none of which opens or
      unlinks when `lag` or more generations behind. */
  ghost predicate Runs(s: System, events: seq<Event>, end: System, lag: nat)
    decreases |events|
  {
    if events == [] then end == s
    else
      && Enabled(s, events[0]) && (events[0].h in s.handles ==> Close(s, events[0].h, lag))
      && Runs(Next(s, events[0]), events[1..], end, lag)
  }

  lemma {:induction false} RunKeeps(s: System, events: seq<Event>, end: System, lag: nat)
    requires Inv(s) && Runs(s, events, end, lag) && lag <= SAFE_LAG
    ensures Inv(end)
    decreases |events|
  {
    if events != [] {
      NextKeeps(s, events[0]);
      RunKeeps(Next(s, events[0]), events[1..], end, lag);
    }
  }

  /** In every run the files of the current and the previous generation are on disk, and every
      opened trie is of the generation its handle names. */
  lemma FilesAreKept(events: seq<Event>, end: System, lag: nat)
    requires Runs(NEW, events, end, lag) && lag <= SAFE_LAG
    ensures Inv(end) && Kept(end)
    ensures forall h :: h in end.handles && end.handles[h].trie != 0 ==> end.handles[h].trie == end.handles[h].fileId
  {
    RunKeeps(NEW, events, end, lag);
    forall h | h in end.handles ensures HandleOk(end, h) { }
  }

  // ----- following the header, and moving it -----

  /** A handle at rest sees nothing new exactly when it has the header's generation open. */
  lemma SeeExactly(s: System, h: nat)
    requires Inv(s) && h in s.handles && s.handles[h].phase.Free?
    ensures Enabled(s, See(h))
    ensures Next(s, See(h)) == s <==> s.header == 0 || s.handles[h].trie == s.handles[h].fileId == s.header
  {
    assert HandleOk(s, h);
    if !UpToDate(s, s.handles[h]) { assert Next(s, See(h)).handles[h].phase.Seen?; }
  }

  /** grn_dat_open_trie_if_needed without interruption: see, open, unlink. */
  function Follow(s: System, h: nat): System
    requires h in s.handles && s.handles[h].phase.Free?
  {
    var s1 := Next(s, See(h));
    if !s1.handles[h].phase.Seen? then s1
    else
      var s2 := Next(s1, Load(h));
      if !s2.handles[h].phase.Removing? then s2 else Next(s2, Unlink(h))
  }

  /** After it the handle is at rest with the header's generation open. */
  lemma FollowsHeader(s: System, h: nat)
    requires Inv(s) && s.header >= 1 && h in s.handles && s.handles[h].phase.Free?
    ensures Follow(s, h).handles == s.handles[h := Handle(s.header, s.header, Free)]
    ensures Follow(s, h).header == s.header && Inv(Follow(s, h))
  {
    assert HandleOk(s, h);
    var s1 := Next(s, See(h));
    NextKeeps(s, See(h));
    if s1.handles[h].phase.Seen? {
      LoadFinds(s1, s.header);
      NextKeeps(s1, Load(h));
      var s2 := Next(s1, Load(h));
      if s2.handles[h].phase.Removing? { NextKeeps(s2, Unlink(h)); }
    } else {
      SeeExactly(s, h);
      assert s.handles[h] == Handle(s.header, s.header, Free);
    }
  }

  /** The writer, once it follows the header, can always move it on by one. */
  lemma WriterAdvances(s: System, h: nat, reopen: bool)
    requires Inv(s) && h in s.handles && s.handles[h].phase.Free? && s.writer == h && UpToDate(s, s.handles[h])
    ensures Enabled(s, Make(h)) && Enabled(Next(s, Make(h)), Publish(h, reopen))
    ensures var end := Next(Next(s, Make(h)), Publish(h, reopen));
      end.header == s.header + 1 && OnDisk(end.disk, s.header + 1) && Inv(end)
  {
    MakeKeeps(s, h);
    PublishKeeps(Next(s, Make(h)), h, reopen);
  }

  // ----- how far behind is too far -----

  lemma UnlinkHits(s: System, h: nat, x: Gen)
    requires h in s.handles && s.handles[h].phase.Removing? && OnDisk(s.disk, x)
    ensures OnDisk(Next(s, Unlink(h)).disk, x) <==> Path(s.handles[h].phase.id) != Path(x)
  {
  }

  /** Unlinking the path of an old generation destroys the file of generation x, which may be
      the current one, the previous one or one being made, exactly when the two are a multiple
      of 4096 apart. */
  lemma HarmsExactly(s: System, h: nat, x: Gen)
    requires Inv(s) && h in s.handles && s.handles[h].phase.Removing? && s.header - 1 <= x && OnDisk(s.disk, x)
    ensures s.handles[h].phase.id <= x
    ensures !OnDisk(Next(s, Unlink(h)).disk, x) <==> (x - s.handles[h].phase.id) % N_PATHS == 0
  {
    assert HandleOk(s, h);
    UnlinkHits(s, h, x);
    PathEqual(s.handles[h].phase.id, x);
  }

  lemma PathEqual(g: Gen, x: Gen)
    requires g <= x
    ensures Path(g) == Path(x) <==> (x - g) % N_PATHS == 0
  {
  }

  /** Handle 1 has written g generations, and handle 2 is about to unlink after opening the third. */
  function Climbed(g: Gen): System requires g >= 3 {
    System(g, map[Path(g) := g, Path(g - 1) := g - 1],
           map[1 := Handle(g, g, Free), 2 := Handle(3, 3, Removing(1))], 1)
  }

  lemma {:induction false} RunsOn(s: System, a: seq<Event>, m: System, b: seq<Event>, end: System, lag: nat)
    requires Runs(s, a, m, lag) && Runs(m, b, end, lag)
    ensures Runs(s, a + b, end, lag)
    decreases |a|
  {
    if a == [] {
      assert a + b == b;
    } else {
      assert (a + b)[1..] == a[1..] + b;
      RunsOn(Next(s, a[0]), a[1..], m, b, end, lag);
    }
  }

  lemma {:induction false} RunChain(s: System, events: seq<Event>, states: seq<System>, lag: nat)
    requires |states| == |events| + 1 && states[0] == s
    requires forall i :: 0 <= i < |events| ==> LinkAt(states, events, i, lag)
    ensures Runs(s, events, states[|events|], lag)
    decreases |events|
  {
    if events != [] {
      assert LinkAt(states, events, 0, lag);
      forall i | 0 <= i < |events| - 1 ensures LinkAt(states[1..], events[1..], i, lag) {
        assert LinkAt(states, events, i + 1, lag);
      }
      RunChain(states[1], events[1..], states[1..], lag);
    }
  }

  predicate LinkAt(states: seq<System>, events: seq<Event>, i: nat, lag: nat)
    requires i < |events| && |events| < |states|
  {
    && Enabled(states[i], events[i]) && states[i + 1] == Next(states[i], events[i])
    && (events[i].h in states[i].handles ==> Close(states[i], events[i].h, lag))
  }

  const FIRST: System := System(1, map[1 := 1], map[1 := Handle(1, 1, Free), 2 := Handle(0, 0, Free)], 1)
  const SECOND: System := System(2, map[1 := 1, 2 := 2], map[1 := Handle(2, 2, Free), 2 := Handle(0, 0, Free)], 1)
  const THIRD: System := System(3, map[3 := 3, 2 := 2], map[1 := Handle(3, 3, Free), 2 := Handle(0, 0, Free)], 1)

  lemma FirstGeneration(lag: nat) returns (events: seq<Event>)
    requires lag > 0
    ensures Runs(NEW, events, FIRST, lag)
  {
    events := [OpenHandle(1), OpenHandle(2), Lock(1), Make(1), Publish(1, false)];
    var x := Handle(0, 0, Free);
    RunChain(NEW, events,
             [NEW, System(0, map[], map[1 := x], -1), System(0, map[], map[1 := x, 2 := x], -1),
              System(0, map[], map[1 := x, 2 := x], 1), System(0, map[1 := 1], map[1 := x.(phase := Made(1)), 2 := x], 1),
              FIRST], lag);
  }

  lemma SecondGeneration(lag: nat) returns (events: seq<Event>)
    requires lag > 0
    ensures Runs(FIRST, events, SECOND, lag)
  {
    events := [Make(1), Publish(1, false)];
    var s := FIRST.(disk := SECOND.disk, handles := FIRST.handles[1 := Handle(1, 1, Made(2))]);
    RunChain(FIRST, events, [FIRST, s, SECOND], lag);
  }

  lemma ThirdGeneration(lag: nat) returns (events: seq<Event>)
    requires lag > 0
    ensures Runs(SECOND, events, THIRD, lag)
  {
    events := [Make(1), Publish(1, false), Unlink(1)];
    var files := map[1 := 1, 2 := 2, 3 := 3];
    assert files - {1} == THIRD.disk;
    RunChain(SECOND, events,
             [SECOND, SECOND.(disk := files, handles := SECOND.handles[1 := Handle(2, 2, Made(3))]),
              THIRD.(disk := files, handles := THIRD.handles[1 := Handle(3, 3, Removing(1))]), THIRD], lag);
  }

  /** Handle 2 opens the third generation. */
  lemma OpensThird(lag: nat) returns (events: seq<Event>)
    requires lag > 0
    ensures Runs(THIRD, events, Climbed(3), lag)
  {
    events := [See(2), Load(2)];
    RunChain(THIRD, events, [THIRD, THIRD.(handles := THIRD.handles[2 := Handle(0, 0, Seen(3))]), Climbed(3)], lag);
  }

  lemma PathsDiffer(x: Gen, y: Gen)
    requires x < y < x + N_PATHS
    ensures Path(x) != Path(y)
  {
    if Path(x) == Path(y) { SamePath(x, y); }
  }

  /** Handle 1 makes and publishes one more generation. */
  lemma ClimbOnce(g: Gen, lag: nat) returns (events: seq<Event>)
    requires g >= 3 && lag > 0
    ensures Runs(Climbed(g), events, Climbed(g + 1), lag)
  {
    events := [Make(1), Publish(1, false), Unlink(1)];
    PathsDiffer(g - 1, g);
    PathsDiffer(g - 1, g + 1);
    PathsDiffer(g, g + 1);
    var s := Climbed(g);
    var disk := s.disk[Path(g + 1) := g + 1];
    assert disk - {Path(g - 1)} == map[Path(g + 1) := g + 1, Path(g) := g];
    RunChain(s, events,
             [s, System(g, disk, s.handles[1 := Handle(g, g, Made(g + 1))], 1),
              System(g + 1, disk, s.handles[1 := Handle(g + 1, g + 1, Removing(g - 1))], 1),
              Climbed(g + 1)], lag);
  }

  /** Handle 2 may fall behind without end. */
  lemma {:induction false} Climb(g: Gen, lag: nat) returns (events: seq<Event>)
    requires g >= 3 && lag > 0
    ensures Runs(NEW, events, Climbed(g), lag)
  {
    if g == 3 {
      events := FirstGeneration(lag);
      var more := SecondGeneration(lag);
      RunsOn(NEW, events, FIRST, more, SECOND, lag);
      events := events + more;
      more := ThirdGeneration(lag);
      RunsOn(NEW, events, SECOND, more, THIRD, lag);
      events := events + more;
      more := OpensThird(lag);
      RunsOn(NEW, events, THIRD, more, Climbed(3), lag);
      events := events + more;
    } else {
      events := Climb(g - 1, lag);
      var more := ClimbOnce(g - 1, lag);
      RunsOn(NEW, events, Climbed(g - 1), more, Climbed(g), lag);
      events := events + more;
    }
  }

  const LAGGING: System :=
    System(4097, map[0 := 4096, 4095 := 4095], map[1 := Handle(4097, 4097, Removing(4095)), 2 := Handle(3, 3, Free)], 1)

  /** A handle 4093 generations behind unlinks the file that the writer has made, which is then
      published although it is gone. */
  lemma TooFarBehind(lag: nat)
    requires lag > SAFE_LAG
    ensures Runs(Climbed(4096), [Make(1), Unlink(2), Publish(1, false)], LAGGING, lag)
    ensures Climbed(4096).header - Climbed(4096).handles[2].fileId == SAFE_LAG && !Kept(LAGGING)
  {
    var s := Climbed(4096);
    var made := s.handles[1 := Handle(4096, 4096, Made(4097))];
    var disk := map[0 := 4096, 4095 := 4095, 1 := 4097];
    assert disk - {1} == LAGGING.disk;
    RunChain(s, [Make(1), Unlink(2), Publish(1, false)],
             [s, System(4096, disk, made, 1), System(4096, LAGGING.disk, made[2 := Handle(3, 3, Free)], 1), LAGGING], lag);
  }

  ghost predicate KeptAfter(events: seq<Event>, end: System, lag: nat) { Runs(NEW, events, end, lag) ==> Kept(end) }

  /** The two latest files are kept in every run exactly when no handle opens or unlinks 4093 or
      more generations behind. */
  lemma KeptExactly(lag: nat)
    ensures (forall events, end :: KeptAfter(events, end, lag)) <==> lag <= SAFE_LAG
  {
    if lag <= SAFE_LAG {
      forall events, end ensures KeptAfter(events, end, lag) {
        if Runs(NEW, events, end, lag) { FilesAreKept(events, end, lag); }
      }
    } else {
      var events := Climb(4096, lag);
      TooFarBehind(lag);
      RunsOn(NEW, events, Climbed(4096), [Make(1), Unlink(2), Publish(1, false)], LAGGING, lag);
      events := events + [Make(1), Unlink(2), Publish(1, false)];
      assert !KeptAfter(events, LAGGING, lag);
    }
  }

  // ----- removing a table -----

  /** `left` are the files of `disk` up to generation i. */
  ghost predicate UpTo(s: System, left: map<nat, Gen>, i: Gen) {
    && (forall p :: p in left ==> p in s.disk && left[p] == s.disk[p] && s.disk[p] <= i)
    && (forall p :: p in s.disk && s.disk[p] <= i ==> p in left)
  }

  lemma UpToStep(s: System, left: map<nat, Gen>, i: Gen)
    requires Inv(s) && UpTo(s, left, i) && 0 < i <= s.header + 1
    ensures UpTo(s, left - {Path(i)}, i - 1)
    ensures Path(i) !in left ==> (i == s.header + 1 || left == map[])
  {
    forall p | p in s.disk ensures Path(s.disk[p]) == p && (p == Path(i) && s.disk[p] <= i ==> s.disk[p] == i) {
      assert FileOk(s, p);
      if p == Path(i) && s.disk[p] <= i { SamePath(s.disk[p], i); }
    }
    forall p | p in left ensures p in s.disk && FileOk(s, p) { }
  }

  /** grn_dat_remove: the next generation's path, then downwards until a file is missing.  No
      trie file is left behind. */
  method Remove(header: Gen, disk: map<nat, Gen>, ghost s: System) returns (left: map<nat, Gen>)
    requires Inv(s) && s.header == header && s.disk == disk
    ensures left == map[]
  {
    assert UpTo(s, disk, header + 1) by { assert forall p :: p in disk ==> FileOk(s, p); }
    UpToStep(s, disk, header + 1);
    left := disk - {Path(header + 1)};
    var i := header;
    while i > 0
      invariant 0 <= i <= header && UpTo(s, left, i)
    {
      UpToStep(s, left, i);
      if Path(i) !in left { return; }
      left := left - {Path(i)};
      i := i - 1;
    }
    assert forall p :: p in left ==> FileOk(s, p);
  }
}
