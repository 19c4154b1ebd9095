/** The write-ahead log of a double-array table (lib/dat.cpp, lib/wal.c): a call writes its log
    entry, changes the trie and then moves `wal_id`; a crash may come between any two of
    these, also while a recovery replays the log.  A `wal_id` is the number of log entries up
    to and including the one it names.  The first `cleared` entries are no longer in the log
    file: flushing the table removes the file. */
module DatWal {
  import opened DatTrie

  datatype Phase =
    | Idle                    // no call in progress
    | Logged                  // the last entry is written but not applied
    | Applied(ok: bool)       // ... applied, `wal_id` not moved yet
    | Down                    // crashed
    | Replaying(pos: nat)     // recovery is about to read entry pos
    | Replayed(pos: nat)      // ... has applied it, `wal_id` not moved yet

  datatype System = System(trie: Trie, walId: nat, log: seq<Op>, cleared: nat, phase: Phase)

  const NEW: System := System(EMPTY, 0, [], 0, Idle)

  datatype Event = Write(op: Op) | Change | Advance | Flush | Crash | Open | ReplayEntry | ReplayAdvance | Close

  /** Where the recovery starts to read: `skips` says that the reader passes over entries up
      to `wal_id`; otherwise it reads the whole file. */
  function ReadFrom(s: System, skips: bool): nat {
    if skips && s.walId > s.cleared then s.walId else s.cleared
  }

  predicate Enabled(s: System, e: Event) {
    match e
    case Write(_) => s.phase.Idle?
    case Change => s.phase.Logged? && s.log != []
    case Advance => s.phase.Applied?
    case Flush => s.phase.Idle?
    case Crash => true
    case Open => s.phase.Down?
    case ReplayEntry => s.phase.Replaying? && s.phase.pos < |s.log|
    case ReplayAdvance => s.phase.Replayed?
    case Close => s.phase.Replaying? && s.phase.pos >= |s.log|
  }

  function Next(s: System, e: Event, skips: bool): System
    requires Enabled(s, e)
  {
    match e
    case Write(op) => s.(log := s.log + [op], phase := Logged)
    case Change =>
      var op := s.log[|s.log| - 1];
      s.(trie := Apply(s.trie, op), phase := Applied(Succeeds(s.trie, op)))
    case Advance => s.(walId := if s.phase.ok then |s.log| else s.walId, phase := Idle)
    case Flush => s.(cleared := |s.log|)
    case Crash => s.(phase := Down)
    case Open => s.(phase := Replaying(ReadFrom(s, skips)))
    case ReplayEntry => s.(trie := Apply(s.trie, s.log[s.phase.pos]), phase := Replayed(s.phase.pos))
    case ReplayAdvance => s.(walId := s.phase.pos + 1, phase := Replaying(s.phase.pos + 1))
    case Close => s.(cleared := |s.log|, phase := Idle)
  }

  /** The trie when exactly the first k logged operations have been carried out. */
  function After(s: System, k: nat): Trie requires k <= |s.log| { ApplyAll(EMPTY, s.log[..k]) }

  lemma AfterNext(s: System, k: nat)
    requires k < |s.log|
    ensures After(s, k + 1) == Apply(After(s, k), s.log[k])
    ensures Ok(After(s, k))
  {
    assert s.log[..k + 1][..k] == s.log[..k];
    ApplyAllOk(EMPTY, s.log[..k]);
  }

  lemma AfterSame(s: System, s': System, k: nat)
    requires k <= |s.log| && s.log <= s'.log
    ensures After(s', k) == After(s, k)
  {
    assert s'.log[..k] == s.log[..k];
  }

  // ----- a reader that passes over entries up to wal_id -----

  /** All entries but the last are behind `wal_id`, and the trie is where `wal_id` says or one
      operation further. */
  ghost predicate Inv(s: System) {
    && s.cleared <= |s.log|
    && s.walId <= |s.log| <= s.walId + 1
    && match s.phase
       case Idle => s.walId == |s.log| && s.trie == After(s, |s.log|)
       case Logged => s.walId + 1 == |s.log| && s.cleared <= s.walId && s.trie == After(s, s.walId)
                      && Succeeds(s.trie, s.log[s.walId])
       case Applied(ok) => s.walId + 1 == |s.log| && s.cleared <= s.walId && ok && s.trie == After(s, |s.log|)
       case Down => s.cleared <= s.walId && (s.trie == After(s, s.walId) || s.trie == After(s, |s.log|))
       case Replaying(pos) => pos == s.walId && s.cleared <= s.walId
                      && (s.trie == After(s, s.walId) || s.trie == After(s, |s.log|))
       case Replayed(pos) => pos == s.walId < |s.log| && s.cleared <= s.walId && s.trie == After(s, |s.log|)
  }

  lemma NextInv(s: System, e: Event)
    requires Inv(s) && Enabled(s, e) && (e.Write? ==> Succeeds(s.trie, e.op))
    ensures Inv(Next(s, e, true))
  {
    var s' := Next(s, e, true);
    AfterSame(s, s', s.walId);
    AfterSame(s, s', |s.log|);
    match e
    case Change => AfterNext(s, s.walId);
    case ReplayEntry =>
      AfterNext(s, s.walId);
      ApplyTwice(After(s, s.walId), s.log[s.walId]);
    case _ =>
  }

  /** A run; `strict` demands that every logged operation succeeds. */
  ghost predicate Runs(s: System, events: seq<Event>, end: System, skips: bool, strict: bool)
    decreases |events|
  {
    if events == [] then end == s
    else
      && Enabled(s, events[0])
      && (strict && events[0].Write? ==> Succeeds(s.trie, events[0].op))
      && Runs(Next(s, events[0], skips), events[1..], end, skips, strict)
  }

  lemma {:induction false} RunInv(s: System, events: seq<Event>, end: System)
    requires Inv(s) && Runs(s, events, end, true, true)
    ensures Inv(end)
    decreases |events|
  {
    if events != [] {
      NextInv(s, events[0]);
      RunInv(Next(s, events[0], true), events[1..], end);
    }
  }

  /** A crash may come at any point; the trie, the log and `wal_id` stay as they are. */
  lemma CrashesAnywhere(s: System, skips: bool)
    ensures Enabled(s, Crash) && Next(s, Crash, skips) == s.(phase := Down)
  {
  }

  /** The operations of the calls that were made, in order. */
  function Called(events: seq<Event>): seq<Op> {
    if events == [] then [] else (if events[0].Write? then [events[0].op] else []) + Called(events[1..])
  }

  /** The log is the calls that were made, whatever happens in between. */
  lemma {:induction false} LogIsCalled(s: System, events: seq<Event>, end: System, skips: bool, strict: bool)
    requires Runs(s, events, end, skips, strict)
    ensures end.log == s.log + Called(events)
    decreases |events|
  {
    if events != [] { LogIsCalled(Next(s, events[0], skips), events[1..], end, skips, strict); }
  }

  /** Whatever crashes happened, also during recoveries, a table that is up again holds exactly
      what carrying out the operation of every call once gives, and nothing is left to replay. */
  lemma RecoversWhenSkipping(events: seq<Event>, end: System)
    requires Runs(NEW, events, end, true, true)
    ensures end.log == Called(events)
    ensures end.phase.Idle? ==> end.trie == ApplyAll(EMPTY, Called(events)) && end.walId == |Called(events)|
  {
    RunInv(NEW, events, end);
    LogIsCalled(NEW, events, end, true, true);
    assert end.log[..|end.log|] == end.log;
  }
}
