/// The rtb_vfs_* hooks of hookvfs.c, each one undisturbed, and how they are made of the pipeline's steps.
module Hooks {
  import opened Wrappers
  import opened PathNames
  import opened FileTree
  import opened MonitorIndex
  import opened IoLog
  import opened Replay
  import opened Pipeline
  import opened Sets

  /// The keys of an index.
  ghost function Keys(es: seq<Entry>): set<string> { set e | e in es :: e.monitorFile }

  /// What is logged: the lookup of a path finds something exactly when the path is monitored.
  lemma LookupMonitored(s: Shape, p: seq<string>)
    requires Sorted(Entries(s)) && PrefixFree(Entries(s))
    ensures Lookup(s, Render(p)) != null <==> Monitored(Keys(Entries(s)), p)
  {
    LookupSound(s, Render(p));
    var found := Lookup(s, Render(p));
    if found != null {
      assert found.monitorFile in Keys(Entries(s));
    }
    if Monitored(Keys(Entries(s)), p) {
      var k :| k in Keys(Entries(s)) && k <= Render(p);
      var e :| e in Entries(s) && e.monitorFile == k;
      LookupComplete(s, Render(p), e);
    }
  }

  lemma OneCovers(es: seq<Entry>, d: Entry, e: Entry)
    requires PrefixFree(es) && d in es && e in es && (Covers(d, e.monitorFile) || Covers(e, d.monitorFile))
    ensures d == e
  {
    var i :| 0 <= i < |es| && es[i] == d;
    var j :| 0 <= j < |es| && es[j] == e;
  }

  /// If no key begins another one, no path is monitored for two sets.
  lemma SetsExclusive(es: seq<Entry>, setOf: map<Entry, SetId>, cs: Configs)
    requires PrefixFree(es) && forall e | e in es :: e in setOf
    requires forall g, k | g in cs && k in cs[g].keys :: exists e | e in es :: e.monitorFile == k && setOf[e] == g
    ensures Exclusive(cs)
  {
    forall g, h, p | g in cs && h in cs && Monitored(cs[g].keys, p) && Monitored(cs[h].keys, p)
      ensures g == h
    {
      var k :| k in cs[g].keys && k <= Render(p);
      var l :| l in cs[h].keys && l <= Render(p);
      var d :| d in es && d.monitorFile == k && setOf[d] == g;
      var e :| e in es && e.monitorFile == l && setOf[e] == h;
      BothCover(d, e, Render(p));
      OneCovers(es, d, e);
    }
  }

  /// The operation itself, on the live tree.
  method RunOperation(live: FileSystem, op: Op, granted: nat) returns (done: bool)
    modifies live
    ensures (live.tree, done) == Live(old(live.tree), op, granted)
  {
    var (tree, ok) := Live(live.tree, op, granted);
    live.tree := tree;
    return ok;
  }

  /// FileReplData: the configuration, the counters of the monitored entries and of their sets, and the queue.
  class ReplData {
    var bValid: bool
    var bNormalRunning: bool
    var entrySeqNo: map<Entry, nat>
    var setSeqNo: map<SetId, nat>
    const setOf: map<Entry, SetId>
    const monitorFiles: Index
    const iowrite: LogQueue

    constructor (monitorFiles: Index, setOf: map<Entry, SetId>, entrySeqNo: map<Entry, nat>,
                 setSeqNo: map<SetId, nat>, iowrite: LogQueue)
      ensures bValid && bNormalRunning && this.entrySeqNo == entrySeqNo && this.setSeqNo == setSeqNo
      ensures this.monitorFiles == monitorFiles && this.setOf == setOf && this.iowrite == iowrite
    {
      bValid, bNormalRunning := true, true;
      this.entrySeqNo, this.setSeqNo := entrySeqNo, setSeqNo;
      this.monitorFiles, this.setOf, this.iowrite := monitorFiles, setOf, iowrite;
    }

    /// Every entry of the index has its counter and a set with one.
    ghost predicate Counted()
      reads this, monitorFiles
    {
      forall e | e in Entries(monitorFiles.shape) :: e in entrySeqNo && e in setOf && setOf[e] in setSeqNo
    }

    /// The entry for which the operation is to be logged; a file opened with flags 1 is passed over.
    ghost function LogsFor(tree: Fs, op: Op, flags: nat): Entry?
      reads this, monitorFiles
    {
      if !bNormalRunning || !bValid || (op.Create? && Exists(tree, op.path)) || (op.Write? && flags == 1) then null
      else Lookup(monitorFiles.shape, Render(op.path))
    }

    /// GetMonitorFileSeqNoByMonitorFileEntry: both counters are read and stepped under one lock.
    method DrawNumbers(pmfe: Entry, time: nat) returns (stamp: Stamp)
      requires pmfe in entrySeqNo && pmfe in setOf && setOf[pmfe] in setSeqNo
      modifies this`entrySeqNo, this`setSeqNo
      ensures stamp == Stamp(old(entrySeqNo)[pmfe], old(setSeqNo)[setOf[pmfe]], time)
      ensures entrySeqNo == old(entrySeqNo)[pmfe := old(entrySeqNo)[pmfe] + 1]
      ensures setSeqNo == old(setSeqNo)[setOf[pmfe] := old(setSeqNo)[setOf[pmfe]] + 1]
    {
      stamp := Stamp(entrySeqNo[pmfe], setSeqNo[setOf[pmfe]], time);
      entrySeqNo := entrySeqNo[pmfe := entrySeqNo[pmfe] + 1];
      setSeqNo := setSeqNo[setOf[pmfe] := setSeqNo[setOf[pmfe]] + 1];
    }

    /// The operation on a monitored path: draw the numbers, run it, queue its record or an error record for
    /// the directory of the set.  A write that cannot be logged stops the logging.
    method RunLogged(pmfe: Entry, live: FileSystem, op: Op, granted: nat, time: nat, memory: bool) returns (done: bool)
      requires pmfe in entrySeqNo && pmfe in setOf && setOf[pmfe] in setSeqNo
      modifies this, iowrite`queue, live
      ensures (live.tree, done) == Live(old(live.tree), op, granted)
      ensures setSeqNo == old(setSeqNo)[setOf[pmfe] := old(setSeqNo)[setOf[pmfe]] + 1]
      ensures entrySeqNo == old(entrySeqNo)[pmfe := old(entrySeqNo)[pmfe] + 1]
      ensures iowrite.queue == old(iowrite.queue) + if memory then [NewContext(old(entrySeqNo), old(setSeqNo), pmfe, op, done, time)] else []
      ensures bNormalRunning == (old(bNormalRunning) && (memory || !op.Write?)) && bValid == old(bValid)
    {
      var stamp := DrawNumbers(pmfe, time);
      done := RunOperation(live, op, granted);
      var iret := iowrite.LogOperation(setOf[pmfe], op, done, stamp, memory);
      if iret != 0 && op.Write? {
        bNormalRunning := false;
      }
    }

    /// The record of an operation, with the numbers that the counters stood at.
    function NewContext(entries: map<Entry, nat>, sets: map<SetId, nat>, pmfe: Entry, op: Op, done: bool, time: nat): Context<FileName>
      requires pmfe in entries && pmfe in setOf && setOf[pmfe] in sets
    {
      var n := sets[setOf[pmfe]];
      Context((setOf[pmfe], n), RecordOf(op, done, Stamp(entries[pmfe], n, time)))
    }

    /// One hook.  It logs the operation if its path is monitored; without its path buffers it only runs it.
    method Intercept(live: FileSystem, op: Op, flags: nat, granted: nat, time: nat, buffers: bool, memory: bool)
      returns (done: bool)
      requires monitorFiles.Valid() && Counted()
      modifies this, iowrite`queue, live
      ensures (live.tree, done) == Live(old(live.tree), op, granted)
      ensures var pmfe := if buffers then old(LogsFor(live.tree, op, flags)) else null;
        if pmfe == null then
          iowrite.queue == old(iowrite.queue) && setSeqNo == old(setSeqNo) && entrySeqNo == old(entrySeqNo)
          && bNormalRunning == old(bNormalRunning)
        else
          && pmfe in old(entrySeqNo) && pmfe in setOf && setOf[pmfe] in old(setSeqNo)
          && setSeqNo == old(setSeqNo)[setOf[pmfe] := old(setSeqNo)[setOf[pmfe]] + 1]
          && entrySeqNo == old(entrySeqNo)[pmfe := old(entrySeqNo)[pmfe] + 1]
          && iowrite.queue == old(iowrite.queue) +
               (if memory then [NewContext(old(entrySeqNo), old(setSeqNo), pmfe, op, done, time)] else [])
          && bNormalRunning == (memory || !op.Write?)
      ensures bValid == old(bValid)
      ensures !old(bValid) || !old(bNormalRunning) || !buffers ==>
        iowrite.queue == old(iowrite.queue) && setSeqNo == old(setSeqNo) && entrySeqNo == old(entrySeqNo)
      ensures op.Create? && Exists(old(live.tree), op.path) ==> iowrite.queue == old(iowrite.queue)
      ensures op.Write? && flags == 1 ==> iowrite.queue == old(iowrite.queue)
    {
      hide Live, NewContext, Lookup, RecordOf;
      if !bNormalRunning || !bValid || (op.Create? && Exists(live.tree, op.path)) || (op.Write? && flags == 1) || !buffers {
        done := RunOperation(live, op, granted);
        return;
      }
      LookupSound(monitorFiles.shape, Render(op.path));
      var pmfe := monitorFiles.Search(Render(op.path));
      if pmfe == null {
        done := RunOperation(live, op, granted);
      } else {
        done := RunLogged(pmfe, live, op, granted, time, memory);
      }
    }
  }

  /// The record carries the number of the entry and that of its set, which also names its file, and the time.
  lemma ContextNumbers(data: ReplData, entries: map<Entry, nat>, sets: map<SetId, nat>, pmfe: Entry, op: Op, done: bool, time: nat)
    requires pmfe in entries && pmfe in data.setOf && data.setOf[pmfe] in sets
    ensures var e := data.NewContext(entries, sets, pmfe, op, done, time); var g := data.setOf[pmfe];
      && e.name == (g, sets[g]) && e.logfile.ullSeqNo == entries[pmfe]
      && e.logfile.ullGlobalSeqNo == sets[g] && e.logfile.liSystemTime == time
      && (done <==> e.logfile.ulType != Error)
  {}

  /// An operation is logged for an entry if and only if logging is on and valid, the operation does not
  /// create a file that exists or write one that was opened with flags 1, and the entry's path begins the
  /// operation's.
  lemma LogsExact(data: ReplData, tree: Fs, op: Op, flags: nat, e: Entry)
    requires data.monitorFiles.Valid() && PrefixFree(Entries(data.monitorFiles.shape))
    ensures data.LogsFor(tree, op, flags) == e <==>
      data.bValid && data.bNormalRunning && !(op.Create? && Exists(tree, op.path)) && !(op.Write? && flags == 1)
      && e in Entries(data.monitorFiles.shape) && e.monitorFile <= Render(op.path)
  {
    hide Lookup;
    LookupExact(data.monitorFiles.shape, Render(op.path), e);
  }

  /// An undisturbed hook that does not log is one step, which changes the live tree alone.
  lemma PassIsOneStep(c: Config, s: State, op: Op, flags: nat, granted: nat)
    requires !Monitored(c.keys, op.path) || (op.Create? && Exists(s.live, op.path)) || (op.Write? && flags == 1)
    ensures Possible(c, s, [Unlogged(op, flags, granted)])
    ensures Final(c, s, [Unlogged(op, flags, granted)]) == s.(live := Live(s.live, op, granted).0)
  {
    hide Live;
    var steps := [Unlogged(op, flags, granted)];
    assert steps[1..] == [];
    var t := After(c, s, steps[0]);
    assert Possible(c, t, []) && Final(c, t, []) == t;
  }

  /// On a prefix-free index the hook logs exactly what the pipeline's steps log.
  lemma LogsIsNeedsLog(c: Config, data: ReplData, tree: Fs, op: Op, flags: nat)
    requires data.monitorFiles.Valid() && PrefixFree(Entries(data.monitorFiles.shape))
    requires c.keys == Keys(Entries(data.monitorFiles.shape)) && data.bNormalRunning && data.bValid
    ensures data.LogsFor(tree, op, flags) != null <==> NeedsLog(c, tree, op, flags)
  {
    LookupMonitored(data.monitorFiles.shape, op.path);
  }

  /// An undisturbed hook is three steps of the pipeline, and has the effect that Intercept has.
  lemma HookIsThreeSteps(c: Config, s: State, op: Op, flags: nat, granted: nat, seqNo: nat, time: nat)
    requires NeedsLog(c, s.live, op, flags) && Named(op.path)
    ensures var steps := [Draw(op, flags, seqNo, time), Run(|s.hooks|, granted), Enqueue(|s.hooks|)];
      Possible(c, s, steps)
      && var t := Final(c, s, steps);
      t.live == Live(s.live, op, granted).0 && t.next == s.next + 1 && t.hooks == s.hooks
      && t.queue == s.queue + [Context(s.next, RecordOf(op, Live(s.live, op, granted).1, Stamp(seqNo, s.next, time)))]
      && t.disk == s.disk && t.target == s.target && t.iolognum == s.iolognum
  {
    hide Live, RecordOf, NeedsLog, Named;
    var n := |s.hooks|;
    var steps := [Draw(op, flags, seqNo, time), Run(n, granted), Enqueue(n)];
    var s1 := After(c, s, steps[0]);
    var s2 := After(c, s1, steps[1]);
    var s3 := After(c, s2, steps[2]);
    assert s3.hooks == s.hooks;
    assert steps[1..] == [Run(n, granted), Enqueue(n)] && steps[1..][1..] == [Enqueue(n)] && steps[1..][1..][1..] == [];
    assert Possible(c, s3, []) && Final(c, s3, []) == s3;
    assert Possible(c, s2, [Enqueue(n)]) && Final(c, s2, [Enqueue(n)]) == s3;
    assert Possible(c, s1, steps[1..]) && Final(c, s1, steps[1..]) == s3;
  }
}
