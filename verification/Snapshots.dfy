/// What the restored tree is, during a run.  While operations run in the order of their numbers it is the
/// monitored part of the live tree as it was after some logged operation; module Reorder treats the rest.
module Snapshots {
  import opened Wrappers
  import opened PathNames
  import opened FileTree
  import opened PathText
  import opened IoLog
  import opened Restore
  import opened Replay
  import opened Pipeline

  /// What the replay needs of a step in any order: paths fit a record with a NUL behind them, a short write
  /// is faithful all the same, and an operation on a monitored path that is not logged changes nothing.
  /// The last concerns writes to files that were opened with flags 1.
  ghost predicate Truthful(c: Config, s: State, step: Step)
  {
    match step
    case Draw(op, _, _, _) => Loggable(op.path)
    case Run(i, granted) => i < |s.hooks| && s.hooks[i].Drawn? && Faithful(s.live, s.hooks[i].op, granted)
    case Unlogged(op, _, granted) => Monitored(c.keys, op.path) ==> Live(s.live, op, granted).0 == s.live
    case _ => true
  }

  ghost predicate TruthfulRun(c: Config, s: State, steps: seq<Step>)
    requires Possible(c, s, steps)
    decreases |steps|
  {
    steps != [] ==> Truthful(c, s, steps[0]) && TruthfulRun(c, After(c, s, steps[0]), steps[1..])
  }

  /// What a record does to the target.
  function Effect(fs: Fs, t: Path, e: LogEntry): Fs
  {
    if e.done && e.op.path != [] then Transferred(fs, t, e.op) else fs
  }

  /// The records of a log, restored in order.
  function ReplayLog(fs: Fs, t: Path, log: seq<LogEntry>): Fs
    decreases |log|
  {
    if log == [] then fs else Effect(ReplayLog(fs, t, log[..|log| - 1]), t, log[|log| - 1])
  }

  lemma RestoredEffect(fs: Fs, targetdir: string, e: LogEntry)
    requires Loggable(e.op.path)
    ensures Absolute(RecordFor(e)) && Restored(fs, targetdir, RecordFor(e)) == Effect(fs, Split(targetdir), e)
  {
    hide Absolute, Restored, RecordOf, Transferred, Split;
    RestoredTransfers(fs, targetdir, e.op, e.stamp);
  }

  /// The record with this number is that of an operation that ran.
  ghost predicate Logged(log: seq<LogEntry>, number: nat, logfile: LogFile)
  {
    exists i | 0 <= i < |log| :: log[i].number == number && RecordFor(log[i]) == logfile
  }

  /// Hooks that have not run have numbers of their own; every other record is in the log.
  ghost predicate Placed(c: Config, s: State)
  {
    (forall h | h in s.hooks ::
       if h.Drawn? then Loggable(h.op.path) && Monitored(c.keys, h.op.path) && forall e | e in s.log :: e.number != h.number
       else Logged(s.log, h.number, h.logfile))
    && (forall e | e in s.queue :: Logged(s.log, e.name, e.logfile))
    && (s.writer.Some? ==> Logged(s.log, s.writer.value.name, s.writer.value.logfile))
    && (forall n | n in s.disk :: Logged(s.log, n, s.disk[n]))
  }

  /// The log holds different numbers that have been drawn.
  ghost predicate Distinct(c: Config, s: State)
  {
    (forall e | e in s.log :: c.first <= e.number < s.next && Loggable(e.op.path))
    && forall i, j | 0 <= i < j < |s.log| :: s.log[i].number != s.log[j].number
  }

  /// After every logged operation, the log so far replays to that tree.
  ghost predicate Snapshot(c: Config, s: State)
  {
    |s.trees| == |s.log| + 1 && Tree(s.live) && "" !in c.keys
    && (forall k | 0 <= k <= |s.log| ::
          Agree(c.keys, s.trees[k], ReplayLog(c.target, Split(c.targetdir), s.log[..k]), Split(c.targetdir)))
    && Agree(c.keys, s.live, ReplayLog(c.target, Split(c.targetdir), s.log), Split(c.targetdir))
  }

  ghost predicate Consistent(c: Config, s: State) { Inv(c, s) && Placed(c, s) && Distinct(c, s) && Snapshot(c, s) }

  lemma InitialConsistent(c: Config, s: State)
    requires Initial(c, s) && Tree(s.live) && "" !in c.keys && Agree(c.keys, s.live, c.target, Split(c.targetdir))
    ensures Consistent(c, s)
  {
    hide Agree, Tree;
    InitialInv(c, s);
    assert s.log[..0] == [];
  }

  // ----- one step -----

  lemma HooksDiffer(c: Config, s: State, i: nat, j: nat)
    requires Conserved(c, s) && i < |s.hooks| && j < |s.hooks| && i != j
    ensures s.hooks[i].number != s.hooks[j].number
  {
    var hs := s.hooks;
    HooksWithout(hs, i);
    var k := if j < i then j else j - 1;
    assert Without(hs, i)[k] == hs[j];
    assert HookNumbers(Without(hs, i))[k] == hs[j].number;
    assert hs[j].number in multiset(HookNumbers(Without(hs, i)));
    ExactlyOnce(c, s, hs[i].number);
  }

  lemma HookDrawn(c: Config, s: State, i: nat)
    requires Conserved(c, s) && i < |s.hooks|
    ensures c.first <= s.hooks[i].number < s.next
  {
    ExactlyOnce(c, s, s.hooks[i].number);
    assert HookNumbers(s.hooks)[i] == s.hooks[i].number;
  }

  lemma LoggedGrows(log: seq<LogEntry>, e: LogEntry)
    ensures forall n, r | Logged(log, n, r) :: Logged(log + [e], n, r)
    ensures Logged(log + [e], e.number, RecordFor(e))
  {
    hide RecordOf, RecordFor;
    forall n, r | Logged(log, n, r)
      ensures Logged(log + [e], n, r)
    {
      var i :| 0 <= i < |log| && log[i].number == n && RecordFor(log[i]) == r;
      assert (log + [e])[i] == log[i];
    }
    assert (log + [e])[|log|] == e;
  }

  lemma PlacedRun(c: Config, s: State, step: Step)
    requires Conserved(c, s) && Placed(c, s) && step.Run? && Enabled(c, s, step)
    ensures Placed(c, After(c, s, step))
  {
    hide Live, RecordOf, RecordFor, Loggable, Monitored, Numbers, Absolute, Restored, Logged;
    var t, h := After(c, s, step), s.hooks[step.i];
    var e := t.log[|s.log|];
    LoggedGrows(s.log, e);
    forall g | g in t.hooks
      ensures if g.Drawn? then Loggable(g.op.path) && Monitored(c.keys, g.op.path) && forall e | e in t.log :: e.number != g.number
              else Logged(t.log, g.number, g.logfile)
    {
      var j :| 0 <= j < |t.hooks| && t.hooks[j] == g;
      if j != step.i {
        assert s.hooks[j] == g && g in s.hooks;
        HooksDiffer(c, s, step.i, j);
      }
    }
  }

  lemma PlacedStep(c: Config, s: State, step: Step)
    requires Conserved(c, s) && Placed(c, s) && Distinct(c, s) && Enabled(c, s, step) && Truthful(c, s, step)
    ensures Placed(c, After(c, s, step))
  {
    hide Live, RecordOf, Loggable, Monitored, Faithful, Conserved, Absolute, Restored, Named, Logged;
    match step
    case Draw(_, _, _, _) =>
    case Run(_, _) =>
      PlacedRun(c, s, step);
    case Enqueue(i) =>
      assert s.hooks[i] in s.hooks;
    case Unlogged(_, _, _) =>
    case Dequeue =>
      assert s.queue[0] in s.queue;
    case WriteOut =>
    case Apply =>
  }

  lemma DistinctStep(c: Config, s: State, step: Step)
    requires Conserved(c, s) && Placed(c, s) && Distinct(c, s) && Enabled(c, s, step)
    ensures Distinct(c, After(c, s, step))
  {
    hide Live, RecordOf, Loggable, Monitored, Conserved, Absolute, Restored, Named, Logged;
    if step.Run? {
      assert s.hooks[step.i] in s.hooks;
      HookDrawn(c, s, step.i);
    }
  }

  lemma SnapshotRun(c: Config, s: State, step: Step)
    requires Placed(c, s) && Snapshot(c, s) && step.Run? && Enabled(c, s, step) && Truthful(c, s, step)
    ensures Snapshot(c, After(c, s, step))
  {
    hide Live, RecordOf, Loggable, Monitored, Faithful, Absolute, Restored, Agree, Split, Tree, Logged, Effect;
    var t, h, d := After(c, s, step), s.hooks[step.i], Split(c.targetdir);
    var e := t.log[|s.log|];
    assert h in s.hooks;
    RecordAgrees(c.keys, s.live, ReplayLog(c.target, d, s.log), c.targetdir, h.op, step.granted, h.stamp);
    RestoredEffect(ReplayLog(c.target, d, s.log), c.targetdir, e);
    assert t.log[..|s.log|] == s.log && t.log[..|t.log|] == t.log;
    forall k | 0 <= k <= |t.log|
      ensures Agree(c.keys, t.trees[k], ReplayLog(c.target, d, t.log[..k]), d)
    {
      if k <= |s.log| {
        assert t.log[..k] == s.log[..k];
      }
    }
  }

  lemma SnapshotStep(c: Config, s: State, step: Step)
    requires Placed(c, s) && Snapshot(c, s) && Enabled(c, s, step) && Truthful(c, s, step)
    ensures Snapshot(c, After(c, s, step))
  {
    hide Live, RecordOf, Loggable, Monitored, Faithful, Absolute, Restored, Agree, Split, Tree, Placed, NeedsLog;
    if step.Run? {
      SnapshotRun(c, s, step);
    } else if step.Unlogged? && !Monitored(c.keys, step.op.path) {
      LiveUnmonitored(c.keys, s.live, ReplayLog(c.target, Split(c.targetdir), s.log), Split(c.targetdir), step.op, step.granted);
    }
  }

  lemma ConsistentStep(c: Config, s: State, step: Step)
    requires Consistent(c, s) && Enabled(c, s, step) && Truthful(c, s, step)
    ensures Consistent(c, After(c, s, step))
  {
    hide Placed, Distinct, Snapshot, Conserved, Formed, InQueueOrder, Contiguous, Enabled, After, Truthful;
    InvStep(c, s, step);
    PlacedStep(c, s, step);
    DistinctStep(c, s, step);
    SnapshotStep(c, s, step);
  }

  lemma {:induction false} ConsistentRun(c: Config, s: State, steps: seq<Step>)
    requires Consistent(c, s) && Possible(c, s, steps) && TruthfulRun(c, s, steps)
    ensures Consistent(c, Final(c, s, steps))
    decreases |steps|
  {
    hide Consistent, Enabled, After, Truthful;
    if steps != [] {
      ConsistentStep(c, s, steps[0]);
      ConsistentRun(c, After(c, s, steps[0]), steps[1..]);
    }
  }

  // ----- operations in the order of their numbers -----

  /// No hook with a smaller number has yet to run its operation.
  ghost predicate OldestFirst(s: State, step: Step)
  {
    step.Run? ==> step.i < |s.hooks| && forall h | h in s.hooks && h.Drawn? :: s.hooks[step.i].number <= h.number
  }

  ghost predicate OrderlyRun(c: Config, s: State, steps: seq<Step>)
    requires Possible(c, s, steps)
    decreases |steps|
  {
    steps != [] ==> OldestFirst(s, steps[0]) && OrderlyRun(c, After(c, s, steps[0]), steps[1..])
  }

  ghost predicate Ordered(c: Config, s: State)
  {
    c.first + |s.log| <= s.next && forall k | 0 <= k < |s.log| :: s.log[k].number == c.first + k
  }

  lemma LoggedNumber(c: Config, s: State, number: nat, logfile: LogFile)
    requires Ordered(c, s) && Logged(s.log, number, logfile)
    ensures c.first <= number < c.first + |s.log| && RecordFor(s.log[number - c.first]) == logfile
  {
    hide RecordFor;
  }

  lemma HookLogged(c: Config, s: State, j: nat)
    requires Ordered(c, s) && Placed(c, s) && j < |s.hooks| && s.hooks[j].number == c.first + |s.log|
    ensures s.hooks[j].Drawn?
  {
    hide Logged, Loggable, Monitored;
    assert s.hooks[j] in s.hooks;
    if s.hooks[j].Ran? {
      LoggedNumber(c, s, s.hooks[j].number, s.hooks[j].logfile);
    }
  }

  /// The number that comes next, if it is drawn, is in a hook that has not run.
  lemma NextIsWaiting(c: Config, s: State) returns (j: nat)
    requires Conserved(c, s) && Placed(c, s) && Ordered(c, s) && c.first + |s.log| < s.next
    ensures j < |s.hooks| && s.hooks[j].Drawn? && s.hooks[j].number == c.first + |s.log|
  {
    hide Logged, Loggable, Monitored;
    var n := c.first + |s.log|;
    ExactlyOnce(c, s, n);
    forall r | Logged(s.log, n, r)
      ensures false
    {
      LoggedNumber(c, s, n, r);
    }
    assert n !in QueueNumbers(s.queue) && n !in QueueNumbers(InWriter(s.writer)) && n !in s.disk;
    assert n in HookNumbers(s.hooks);
    j :| 0 <= j < |s.hooks| && HookNumbers(s.hooks)[j] == n;
    HookLogged(c, s, j);
  }

  lemma NumberInLog(c: Config, s: State, n: nat)
    requires Ordered(c, s) && c.first <= n
    ensures n < c.first + |s.log| ==> exists e | e in s.log :: e.number == n
  {
    if n < c.first + |s.log| {
      assert s.log[n - c.first] in s.log;
    }
  }

  /// The oldest hook that has not run holds the number that follows those of all operations run.
  lemma NextToRun(c: Config, s: State, i: nat, granted: nat)
    requires Conserved(c, s) && Placed(c, s) && Ordered(c, s) && OldestFirst(s, Run(i, granted)) && s.hooks[i].Drawn?
    ensures s.hooks[i].number == c.first + |s.log| < s.next
  {
    hide Logged, Loggable, Monitored;
    HookDrawn(c, s, i);
    assert s.hooks[i] in s.hooks;
    var n := s.hooks[i].number;
    NumberInLog(c, s, n);
    var j := NextIsWaiting(c, s);
    assert s.hooks[j] in s.hooks;
  }

  lemma OrderedStep(c: Config, s: State, step: Step)
    requires Conserved(c, s) && Placed(c, s) && Ordered(c, s) && Enabled(c, s, step) && OldestFirst(s, step)
    ensures Ordered(c, After(c, s, step))
  {
    hide Placed, Conserved, Live, RecordFor, Restored, NeedsLog, Named, Absolute;
    if step.Run? {
      NextToRun(c, s, step.i, step.granted);
    }
  }

  lemma {:induction false} OrderedRun(c: Config, s: State, steps: seq<Step>)
    requires Consistent(c, s) && Ordered(c, s) && Possible(c, s, steps)
    requires TruthfulRun(c, s, steps) && OrderlyRun(c, s, steps)
    ensures Consistent(c, Final(c, s, steps)) && Ordered(c, Final(c, s, steps))
    decreases |steps|
  {
    hide Placed, Distinct, Snapshot, Conserved, Formed, InQueueOrder, Contiguous, Ordered, Enabled, After, Truthful, OldestFirst;
    if steps != [] {
      ConsistentStep(c, s, steps[0]);
      OrderedStep(c, s, steps[0]);
      OrderedRun(c, After(c, s, steps[0]), steps[1..]);
    }
  }

  /// The restorer, reading by number, has replayed a beginning of the log.
  lemma {:induction false} ReplayedLog(c: Config, s: State, end: nat)
    requires AllThere(s.disk, c.first, end) && Placed(c, s) && Distinct(c, s) && Ordered(c, s)
    ensures end - c.first <= |s.log|
    ensures Replayed(c.target, c.targetdir, s.disk, c.first, end)
         == ReplayLog(c.target, Split(c.targetdir), s.log[..end - c.first])
    decreases end
  {
    hide Restored, Absolute, Loggable, Monitored, Split, Logged, RecordFor, Effect;
    if c.first < end {
      ReplayedLog(c, s, end - 1);
      var k := end - c.first;
      LoggedNumber(c, s, end - 1, s.disk[end - 1]);
      assert s.log[..k][..k - 1] == s.log[..k - 1];
      assert s.log[k - 1] in s.log;
      RestoredEffect(ReplayLog(c.target, Split(c.targetdir), s.log[..k - 1]), c.targetdir, s.log[k - 1]);
    } else {
      assert s.log[..0] == [];
    }
  }

  lemma DrainedAll(c: Config, s: State)
    requires Conserved(c, s) && Contiguous(c, s) && Placed(c, s) && Ordered(c, s) && Drained(s)
    ensures s.iolognum == s.next == c.first + |s.log|
  {
    AppliedDrawn(c, s);
    if c.first + |s.log| < s.next {
      var j := NextIsWaiting(c, s);
    }
  }

  /// In every orderly run, at every moment, the restored tree agrees on all monitored paths with the live
  /// tree as it was after one of the logged operations; and with the live tree as it is, once the
  /// pipeline is drained.
  lemma RestoredIsSnapshot(c: Config, s: State, steps: seq<Step>)
    requires Initial(c, s) && Possible(c, s, steps) && TruthfulRun(c, s, steps) && OrderlyRun(c, s, steps)
    requires Tree(s.live) && "" !in c.keys && Agree(c.keys, s.live, c.target, Split(c.targetdir))
    ensures var t := Final(c, s, steps); var k := t.iolognum - c.first;
      0 <= k < |t.trees| && Agree(c.keys, t.trees[k], t.target, Split(c.targetdir))
    ensures var t := Final(c, s, steps); Drained(t) ==> Agree(c.keys, t.live, t.target, Split(c.targetdir))
  {
    hide Agree, Monitored, Tree, Possible, TruthfulRun, OrderlyRun, Final, Split, Placed, Conserved, Distinct, Drained;
    InitialConsistent(c, s);
    OrderedRun(c, s, steps);
    var t := Final(c, s, steps);
    ReplayedLog(c, t, t.iolognum);
    if Drained(t) {
      DrainedAll(c, t);
      assert t.log[..|t.log|] == t.log;
    }
  }

  /// An unlogged write to a monitored file: target and live tree still agree if and only if it changed
  /// nothing.
  lemma UnloggedWrite(keys: set<string>, live: Fs, target: Fs, t: Path, op: Op, granted: nat)
    requires Tree(live) && Agree(keys, live, target, t) && Monitored(keys, op.path) && op.Write?
    ensures Agree(keys, Live(live, op, granted).0, target, t) <==> Live(live, op, granted).0 == live
  {
    hide Monitored;
    var after := Live(live, op, granted).0;
    if after != live {
      AgreeAt(keys, live, target, t, op.path);
      assert after == live[op.path := after[op.path]];
      assert live == live[op.path := live[op.path]];
      DisagreeAt(keys, after, target, t, op.path);
    }
  }
}
