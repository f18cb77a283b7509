/// Runs in which operations do not run in the order of their numbers.
module Reorder {
  import opened Wrappers
  import opened PathNames
  import opened FileTree
  import opened PathText
  import opened IoLog
  import opened Restore
  import opened Replay
  import opened Pipeline
  import opened Snapshots
  import opened Commute

  /// Two operations whose records may be restored in either order on every tree.
  predicate Independent(e: LogEntry, g: LogEntry) { !e.done || !g.done || Unrelated(e.op.path, g.op.path) }

  lemma EffectTree(fs: Fs, t: Path, e: LogEntry)
    requires Tree(fs)
    ensures Tree(Effect(fs, t, e))
  {
    hide Transferred, Tree;
    if e.done && e.op.path != [] {
      TransferredAt(fs, t, e.op);
    }
  }

  lemma EffectsCommute(fs: Fs, t: Path, e: LogEntry, g: LogEntry)
    requires Tree(fs) && Independent(e, g)
    ensures Effect(Effect(fs, t, e), t, g) == Effect(Effect(fs, t, g), t, e)
  {
    hide Transferred, Tree;
    if e.done && g.done && e.op.path != [] && g.op.path != [] {
      UnrelatedCommute(fs, t, e.op, g.op);
    }
  }

  lemma {:induction false} ReplayTree(fs: Fs, t: Path, log: seq<LogEntry>)
    requires Tree(fs)
    ensures Tree(ReplayLog(fs, t, log))
    decreases |log|
  {
    hide Effect, Tree;
    if log != [] {
      ReplayTree(fs, t, log[..|log| - 1]);
      EffectTree(ReplayLog(fs, t, log[..|log| - 1]), t, log[|log| - 1]);
    }
  }

  function Dropped(log: seq<LogEntry>, k: nat): seq<LogEntry>
    requires k < |log|
  {
    log[..k] + log[k + 1..]
  }

  /// A record that is independent of all later ones may be restored last.
  lemma {:induction false} MoveLast(fs: Fs, t: Path, log: seq<LogEntry>, k: nat)
    requires Tree(fs) && k < |log| && forall j | k < j < |log| :: Independent(log[k], log[j])
    ensures ReplayLog(fs, t, log) == Effect(ReplayLog(fs, t, Dropped(log, k)), t, log[k])
    decreases |log|
  {
    hide Effect, Tree, Independent;
    var n := |log| - 1;
    if k == n {
      assert Dropped(log, k) == log[..n];
    } else {
      var rest := Dropped(log[..n], k);
      MoveLast(fs, t, log[..n], k);
      assert Dropped(log, k)[..|log| - 2] == rest && Dropped(log, k)[|log| - 2] == log[n];
      ReplayTree(fs, t, rest);
      EffectsCommute(ReplayLog(fs, t, rest), t, log[k], log[n]);
    }
  }

  /// Any two operations that ran out of the order of their numbers are independent.
  ghost predicate InversionsIndependent(log: seq<LogEntry>)
  {
    forall i, j | 0 <= i < j < |log| && log[i].number > log[j].number :: Independent(log[i], log[j])
  }

  /// The log is a permutation of the records first, …, end - 1 on the disk.
  ghost predicate Permuted(log: seq<LogEntry>, disk: map<nat, LogFile>, first: nat, end: nat)
  {
    (forall e | e in log :: first <= e.number < end && Loggable(e.op.path))
    && (forall i, j | 0 <= i < j < |log| :: log[i].number != log[j].number)
    && AllThere(disk, first, end) && (forall n | first <= n < end :: Logged(log, n, disk[n]))
  }

  lemma DroppedAt(log: seq<LogEntry>, k: nat)
    requires k < |log|
    ensures |Dropped(log, k)| == |log| - 1
    ensures forall i | 0 <= i < |log| - 1 :: Dropped(log, k)[i] == log[if i < k then i else i + 1]
  {}

  lemma DroppedInversions(log: seq<LogEntry>, k: nat)
    requires k < |log| && InversionsIndependent(log)
    ensures InversionsIndependent(Dropped(log, k))
  {
    hide Dropped, Independent;
    DroppedAt(log, k);
  }

  lemma DroppedPermuted(log: seq<LogEntry>, disk: map<nat, LogFile>, first: nat, end: nat, k: nat)
    requires first < end && Permuted(log, disk, first, end) && k < |log| && log[k].number == end - 1
    ensures Permuted(Dropped(log, k), disk, first, end - 1)
  {
    hide Dropped, Loggable, RecordFor, Absolute, Logged;
    DroppedAt(log, k);
    var rest := Dropped(log, k);
    forall e | e in rest
      ensures first <= e.number < end - 1 && Loggable(e.op.path)
    {
      var i :| 0 <= i < |rest| && rest[i] == e;
      var j := if i < k then i else i + 1;
      assert log[j] == e && e in log;
      assert if j < k then log[j].number != log[k].number else log[k].number != log[j].number;
    }
    forall n | first <= n < end - 1
      ensures Logged(rest, n, disk[n])
    {
      DroppedLogged(log, k, n, disk[n]);
    }
  }

  lemma DroppedLogged(log: seq<LogEntry>, k: nat, n: nat, logfile: LogFile)
    requires k < |log| && Logged(log, n, logfile) && log[k].number != n
    ensures Logged(Dropped(log, k), n, logfile)
  {
    hide Dropped, RecordFor;
    DroppedAt(log, k);
    var i :| 0 <= i < |log| && log[i].number == n && RecordFor(log[i]) == logfile;
    assert Dropped(log, k)[if i < k then i else i - 1] == log[i];
  }

  lemma EmptyTogether(log: seq<LogEntry>, disk: map<nat, LogFile>, first: nat, end: nat)
    requires Permuted(log, disk, first, end)
    ensures log == [] <==> first == end
  {
    hide Loggable, RecordFor, Absolute;
    if log != [] {
      FirstInRange(log, first, end);
    }
    if first < end {
      assert Logged(log, first, disk[first]);
    }
  }

  lemma FirstInRange(log: seq<LogEntry>, first: nat, end: nat)
    requires log != [] && forall e | e in log :: first <= e.number < end
    ensures first < end
  {
    assert log[0] in log;
  }

  /// The record with the greatest number may be restored last.
  lemma LastNumber(log: seq<LogEntry>, disk: map<nat, LogFile>, first: nat, end: nat) returns (k: nat)
    requires Permuted(log, disk, first, end) && InversionsIndependent(log) && first < end
    ensures k < |log| && log[k].number == end - 1 && RecordFor(log[k]) == disk[end - 1] && Loggable(log[k].op.path)
    ensures forall j | k < j < |log| :: Independent(log[k], log[j])
  {
    hide Independent, Loggable, RecordFor, Absolute;
    assert Logged(log, end - 1, disk[end - 1]);
    k :| 0 <= k < |log| && log[k].number == end - 1 && RecordFor(log[k]) == disk[end - 1];
    assert log[k] in log;
    forall j | k < j < |log|
      ensures Independent(log[k], log[j])
    {
      assert log[j] in log && log[j].number != log[k].number;
    }
  }

  /// Restoring by number is restoring in the order in which the operations ran.
  lemma {:induction false} SortedReplay(c: Config, log: seq<LogEntry>, disk: map<nat, LogFile>, end: nat)
    requires Tree(c.target) && Permuted(log, disk, c.first, end) && InversionsIndependent(log)
    ensures AllThere(disk, c.first, end)
    ensures Replayed(c.target, c.targetdir, disk, c.first, end) == ReplayLog(c.target, Split(c.targetdir), log)
    decreases end
  {
    hide Effect, Tree, Independent, Loggable, Restored, Absolute, Split, RecordFor, Dropped, InversionsIndependent, Logged;
    EmptyTogether(log, disk, c.first, end);
    if c.first != end {
      var k := LastNumber(log, disk, c.first, end);
      MoveLast(c.target, Split(c.targetdir), log, k);
      DroppedPermuted(log, disk, c.first, end, k);
      DroppedInversions(log, k);
      SortedReplay(c, Dropped(log, k), disk, end - 1);
      RestoredEffect(ReplayLog(c.target, Split(c.targetdir), Dropped(log, k)), c.targetdir, log[k]);
    }
  }

  lemma DrainedPermuted(c: Config, s: State)
    requires Consistent(c, s) && Drained(s)
    ensures s.iolognum == s.next && Permuted(s.log, s.disk, c.first, s.next)
  {
    hide Conserved, Logged, Loggable, Monitored, Agree, Tree, Absolute, Snapshot;
    AppliedDrawn(c, s);
  }

  /// In every run, whatever the order: once the pipeline is drained the target agrees with the live tree,
  /// provided that operations that succeeded and ran out of the order of their numbers have unrelated paths.
  lemma DrainedAgrees(c: Config, s: State, steps: seq<Step>)
    requires Initial(c, s) && Possible(c, s, steps) && TruthfulRun(c, s, steps)
    requires Tree(s.live) && Tree(c.target) && "" !in c.keys && Agree(c.keys, s.live, c.target, Split(c.targetdir))
    requires Drained(Final(c, s, steps)) && InversionsIndependent(Final(c, s, steps).log)
    ensures Agree(c.keys, Final(c, s, steps).live, Final(c, s, steps).target, Split(c.targetdir))
  {
    hide Agree, Tree, Possible, TruthfulRun, Final, Split, InversionsIndependent, Permuted, Drained, Conserved, Formed,
         InQueueOrder, Placed, Distinct;
    InitialConsistent(c, s);
    ConsistentRun(c, s, steps);
    var t := Final(c, s, steps);
    DrainedPermuted(c, t);
    SortedReplay(c, t.log, t.disk, t.next);
  }
}
