/** The table calls of lib/dat.cpp that change a table, and its recovery, as they run. */
module DatTable {
  import opened DatTrie
  import opened DatWal

  /** Arguments that are turned away before anything is logged: empty keys and the nil id. */
  predicate Acceptable(op: Op) {
    match op
    case Add(key) => key.bytes != []
    case DeleteKey(key) => key.bytes != []
    case DeleteId(id) => id != 0
    case UpdateKey(_, dest) => dest.bytes != []
    case UpdateId(_, dest) => dest.bytes != []
  }

  lemma AcceptableExactly(op: Op)
    ensures !Acceptable(op) <==>
      op in {Add(Key([])), DeleteKey(Key([])), DeleteId(0)} || ((op.UpdateKey? || op.UpdateId?) && op.dest == Key([]))
  {
  }

  /** The events of replaying n entries. */
  function Replays(n: nat): (events: seq<Event>) {
    if n == 0 then [] else Replays(n - 1) + [ReplayEntry] + [ReplayAdvance]
  }

  lemma {:induction false} RunsFurther(s: System, events: seq<Event>, m: System, e: Event)
    requires Runs(s, events, m, false, false) && Enabled(m, e)
    ensures Runs(s, events + [e], Next(m, e, false), false, false)
    decreases |events|
  {
    if events == [] {
      assert ([] + [e])[1..] == [] && Runs(Next(m, e, false), [], Next(m, e, false), false, false);
    } else {
      assert (events + [e])[1..] == events[1..] + [e];
      RunsFurther(Next(s, events[0], false), events[1..], m, e);
    }
  }

  function AfterOne(m: System): System requires m.phase.Replaying? && m.phase.pos < |m.log| {
    System(Apply(m.trie, m.log[m.phase.pos]), m.phase.pos + 1, m.log, m.cleared, Replaying(m.phase.pos + 1))
  }

  lemma OpensLog(s: System)
    requires s.phase.Down?
    ensures Runs(s, [Open] + Replays(0), s.(phase := Replaying(s.cleared)), false, false)
  {
    assert Runs(s, [], s, false, false);
    RunsFurther(s, [], s, Open);
    assert [] + [Open] == [Open] + Replays(0);
  }

  lemma ReplaysOne(s: System, n: nat, m: System)
    requires Runs(s, [Open] + Replays(n), m, false, false) && m.phase.Replaying? && m.phase.pos < |m.log|
    ensures Runs(s, [Open] + Replays(n + 1), AfterOne(m), false, false)
  {
    var events := [Open] + Replays(n);
    RunsFurther(s, events, m, ReplayEntry);
    RunsFurther(s, events + [ReplayEntry], Next(m, ReplayEntry, false), ReplayAdvance);
    assert events + [ReplayEntry] + [ReplayAdvance] == [Open] + Replays(n + 1);
  }

  /** The system after k entries are replayed. */
  function ReplayedTo(s: System, k: nat): (m: System)
    requires s.cleared + k <= |s.log|
    ensures m.log == s.log && m.cleared == s.cleared && m.phase == Replaying(s.cleared + k)
  {
    if k == 0 then s.(phase := Replaying(s.cleared)) else AfterOne(ReplayedTo(s, k - 1))
  }

  lemma {:induction false} ReplayApplies(s: System, k: nat, file: seq<Op>)
    requires s.cleared + k <= |s.log| && file == s.log[s.cleared..]
    ensures ReplayedTo(s, k).trie == ApplyAll(s.trie, file[..k])
  {
    if k > 0 {
      ReplayApplies(s, k - 1, file);
      var ops := file[..k];
      assert ops[..k - 1] == file[..k - 1];
      assert ReplayedTo(s, k).trie == Apply(ReplayedTo(s, k - 1).trie, ops[k - 1]);
    }
  }

  lemma {:induction false} ReplayRuns(s: System, k: nat)
    requires s.phase.Down? && s.cleared + k <= |s.log|
    ensures Runs(s, [Open] + Replays(k), ReplayedTo(s, k), false, false)
  {
    if k == 0 {
      OpensLog(s);
    } else {
      ReplayRuns(s, k - 1);
      ReplaysOne(s, k - 1, ReplayedTo(s, k - 1));
    }
  }

  /** A crashed table after its recovery. */
  function Recovered(s: System): System requires s.cleared <= |s.log| {
    ReplayedTo(s, |s.log| - s.cleared).(cleared := |s.log|, phase := Idle)
  }

  /** A recovery carries out the whole file once more. */
  lemma RecoveryApplies(s: System)
    requires s.cleared <= |s.log|
    ensures Recovered(s).trie == ApplyAll(s.trie, s.log[s.cleared..])
    ensures Recovered(s).log == s.log && Recovered(s).cleared == |s.log|
    ensures Recovered(s).walId == if s.cleared < |s.log| then |s.log| else s.walId
    ensures Ok(s.trie) ==> Ok(Recovered(s).trie)
  {
    var k := |s.log| - s.cleared;
    ReplayApplies(s, k, s.log[s.cleared..]);
    assert s.log[s.cleared..][..k] == s.log[s.cleared..];
    if Ok(s.trie) { ApplyAllOk(s.trie, s.log[s.cleared..]); }
  }

  /** A recovery is a run of the crash model, with the reader that skips nothing. */
  lemma RecoveryRuns(s: System)
    requires s.phase.Down? && s.cleared <= |s.log|
    ensures Runs(s, [Open] + Replays(|s.log| - s.cleared) + [Close], Recovered(s), false, false)
  {
    var k := |s.log| - s.cleared;
    ReplayRuns(s, k);
    RunsFurther(s, [Open] + Replays(k), ReplayedTo(s, k), Close);
  }

  class Dat {
    /** Whether the table has a trie; the first addition creates it. */
    var created: bool
    var trie: Trie
    var walId: nat
    var log: seq<Op>
    var cleared: nat

    ghost function View(phase: Phase): System reads this { System(trie, walId, log, cleared, phase) }

    /** Without a trie the log file is empty or begins with an addition. */
    predicate Valid() reads this {
      cleared <= |log| && (created || cleared == |log| || log[cleared].Add?)
    }

    constructor ()
      ensures Valid() && !created && View(Idle) == NEW
    {
      created, trie, walId, log, cleared := false, EMPTY, 0, [], 0;
    }

    predicate Refuses(op: Op) reads this { !Acceptable(op) || (!created && !op.Add?) }

    /** grn_dat_add, grn_dat_delete(_by_id) and grn_dat_update(_by_id): log, change, and move
        `wal_id` only after a success. */
    method Perform(op: Op) returns (ok: bool)
      requires Valid()
      modifies this
      ensures Valid() && created == (old(created) || !old(Refuses(op)))
      ensures old(Refuses(op)) ==> !ok && View(Idle) == old(View(Idle))
      ensures !old(Refuses(op)) ==>
        var s := Next(Next(Next(old(View(Idle)), Write(op), true), Change, true), Advance, true);
        View(Idle) == s && ok == Succeeds(old(trie), op)
      ensures !old(Refuses(op)) ==> log == old(log) + [op] && trie == Apply(old(trie), op) && cleared == old(cleared)
      ensures !old(Refuses(op)) ==> walId == if ok then |log| else old(walId)
    {
      if Refuses(op) { return false; }
      log := log + [op];
      created := true;
      ok := Succeeds(trie, op);
      trie := Apply(trie, op);
      if ok { walId := |log|; }
    }

    /** WALRecoverer::recover: every entry of the file is carried out again, in order, and then
        the table is flushed, which removes the file. */
    method Recover()
      requires Valid()
      modifies this
      ensures Valid() && View(Idle) == Recovered(old(View(Down)))
    {
      ghost var down := View(Down);
      var pos := cleared;
      while pos < |log|
        invariant old(cleared) == cleared <= pos <= |log| && log == old(log)
        invariant created || pos == |log| || (pos == cleared && log[pos].Add?)
        invariant View(Replaying(pos)) == ReplayedTo(down, pos - cleared)
      {
        // an entry other than an addition finds a trie
        assert created || log[pos].Add?;
        created := true;
        trie := Apply(trie, log[pos]);
        pos := pos + 1;
        walId := pos;
      }
      cleared := |log|;
    }
  }
}
