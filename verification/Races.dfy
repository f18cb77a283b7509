/// Two hooks whose operations run in the reverse order of their numbers, as a run of the pipeline.
module Races {
  import opened Wrappers
  import opened PathNames
  import opened FileTree
  import opened PathText
  import opened IoLog
  import opened Restore
  import opened Replay
  import opened Pipeline
  import opened Inversion

  lemma {:induction false} OneMoreStep(c: Config, s: State, steps: seq<Step>, step: Step)
    requires Possible(c, s, steps) && Enabled(c, Final(c, s, steps), step)
    ensures Possible(c, s, steps + [step]) && Final(c, s, steps + [step]) == After(c, Final(c, s, steps), step)
    decreases |steps|
  {
    hide Enabled, After;
    if steps != [] {
      assert (steps + [step])[1..] == steps[1..] + [step];
      OneMoreStep(c, After(c, s, steps[0]), steps[1..], step);
    } else {
      assert steps + [step] == [step] && [step][1..] == [];
    }
  }

  /// What a hook is called with, and what the kernel will grant.
  datatype Call = Call(op: Op, flags: nat, seqNo: nat, time: nat, granted: nat)
  {
    function DrawStep(): Step { Draw(op, flags, seqNo, time) }
    function StampFor(number: nat): Stamp { Stamp(seqNo, number, time) }
  }

  /// a draws its number before b, but b runs first.
  function RaceSteps(a: Call, b: Call): seq<Step>
  {
    [a.DrawStep(), b.DrawStep(), Run(1, b.granted), Run(0, a.granted), Enqueue(0), Enqueue(0),
     Dequeue, WriteOut, Dequeue, WriteOut, Apply, Apply]
  }

  ghost predicate Leads(c: Config, s: State, steps: seq<Step>, t: State)
  {
    Possible(c, s, steps) && Final(c, s, steps) == t
  }

  lemma LeadsOn(c: Config, s: State, steps: seq<Step>, t: State, step: Step)
    requires Leads(c, s, steps, t) && Enabled(c, t, step)
    ensures Leads(c, s, steps + [step], After(c, t, step))
  {
    OneMoreStep(c, s, steps, step);
  }

  lemma LeadsNowhere(c: Config, s: State)
    ensures Leads(c, s, [], s)
  {}

  lemma RacePrefix(a: Call, b: Call)
    ensures RaceSteps(a, b)[..6]
      == [a.DrawStep()] + [b.DrawStep()] + [Run(1, b.granted)] + [Run(0, a.granted)] + [Enqueue(0)] + [Enqueue(0)]
    ensures RaceSteps(a, b) == RaceSteps(a, b)[..6] + [Dequeue] + [WriteOut] + [Dequeue] + [WriteOut] + [Apply] + [Apply]
  {}

  /// The two hooks, from their draws to their queueing.
  lemma RaceHooks(c: Config, s: State, a: Call, b: Call) returns (t: State)
    requires s.hooks == [] && s.queue == []
    requires NeedsLog(c, s.live, a.op, a.flags) && NeedsLog(c, s.live, b.op, b.flags) && Named(a.op.path) && Named(b.op.path)
    ensures Leads(c, s, RaceSteps(a, b)[..6], t)
    ensures var (middle, db) := Live(s.live, b.op, b.granted); var (after, da) := Live(middle, a.op, a.granted);
      && t.live == after && t.hooks == [] && t.writer == s.writer && t.disk == s.disk
      && t.iolognum == s.iolognum && t.target == s.target
      && t.queue == [Context(s.next, RecordOf(a.op, da, a.StampFor(s.next))),
                     Context(s.next + 1, RecordOf(b.op, db, b.StampFor(s.next + 1)))]
  {
    hide Restored, RecordOf, Monitored, Live, Absolute, Leads, RaceSteps, NeedsLog, Named;
    var k, sa, sb := s.next, a.StampFor(s.next), b.StampFor(s.next + 1);
    RacePrefix(a, b);
    LeadsNowhere(c, s);
    var t1, steps1 := After(c, s, a.DrawStep()), [a.DrawStep()];
    assert steps1 == [] + [a.DrawStep()];
    LeadsOn(c, s, [], s, a.DrawStep());
    var t2, steps2 := After(c, t1, b.DrawStep()), steps1 + [b.DrawStep()];
    LeadsOn(c, s, steps1, t1, b.DrawStep());
    assert t2.hooks == [Drawn(k, a.op, sa), Drawn(k + 1, b.op, sb)];
    var t3, steps3 := After(c, t2, Run(1, b.granted)), steps2 + [Run(1, b.granted)];
    LeadsOn(c, s, steps2, t2, Run(1, b.granted));
    var t4, steps4 := After(c, t3, Run(0, a.granted)), steps3 + [Run(0, a.granted)];
    LeadsOn(c, s, steps3, t3, Run(0, a.granted));
    var (middle, db) := Live(s.live, b.op, b.granted);
    var (after, da) := Live(middle, a.op, a.granted);
    assert t4.hooks == [Ran(k, RecordOf(a.op, da, sa)), Ran(k + 1, RecordOf(b.op, db, sb))];
    var t5, steps5 := After(c, t4, Enqueue(0)), steps4 + [Enqueue(0)];
    LeadsOn(c, s, steps4, t4, Enqueue(0));
    t := After(c, t5, Enqueue(0));
    LeadsOn(c, s, steps5, t5, Enqueue(0));
  }

  /// The writer and the restorer, on any two records.
  lemma TwoRestored(c: Config, s: State, steps: seq<Step>, t: State, r1: LogFile, r2: LogFile) returns (u: State)
    requires Leads(c, s, steps, t) && Absolute(r1) && Absolute(r2)
    requires t.hooks == [] && t.writer.None? && t.iolognum + 2 !in t.disk
    requires t.queue == [Context(t.iolognum, r1), Context(t.iolognum + 1, r2)]
    ensures Leads(c, s, steps + [Dequeue] + [WriteOut] + [Dequeue] + [WriteOut] + [Apply] + [Apply], u)
    ensures Drained(u) && u.live == t.live
    ensures u.target == Restored(Restored(t.target, c.targetdir, r1), c.targetdir, r2)
  {
    hide Restored, Absolute, Leads;
    var t1, steps1 := After(c, t, Dequeue), steps + [Dequeue];
    LeadsOn(c, s, steps, t, Dequeue);
    var t2, steps2 := After(c, t1, WriteOut), steps1 + [WriteOut];
    LeadsOn(c, s, steps1, t1, WriteOut);
    var t3, steps3 := After(c, t2, Dequeue), steps2 + [Dequeue];
    LeadsOn(c, s, steps2, t2, Dequeue);
    var t4, steps4 := After(c, t3, WriteOut), steps3 + [WriteOut];
    LeadsOn(c, s, steps3, t3, WriteOut);
    var t5, steps5 := After(c, t4, Apply), steps4 + [Apply];
    LeadsOn(c, s, steps4, t4, Apply);
    u := After(c, t5, Apply);
    LeadsOn(c, s, steps5, t5, Apply);
  }

  /// From every drained state in which target and live tree agree: after such a race the drained pipeline
  /// leaves them in agreement if and only if one of the operations failed or the pair is harmless.
  lemma RaceExact(c: Config, s: State, a: Call, b: Call)
    requires Inv(c, s) && Drained(s) && Tree(s.live) && Tree(s.target) && "" !in c.keys
    requires Agree(c.keys, s.live, s.target, Split(c.targetdir))
    requires NeedsLog(c, s.live, a.op, a.flags) && NeedsLog(c, s.live, b.op, b.flags)
    requires Loggable(a.op.path) && Loggable(b.op.path)
    requires Faithful(s.live, b.op, b.granted) && Faithful(Live(s.live, b.op, b.granted).0, a.op, a.granted)
    ensures Possible(c, s, RaceSteps(a, b)) && Drained(Final(c, s, RaceSteps(a, b)))
    ensures var t := Final(c, s, RaceSteps(a, b));
      var (middle, db) := Live(s.live, b.op, b.granted); var (after, da) := Live(middle, a.op, a.granted);
      Agree(c.keys, t.live, t.target, Split(c.targetdir)) <==> !da || !db || Harmless(a.op, b.op)
  {
    hide Restored, RecordOf, Split, Agree, Monitored, Absolute, Final, Possible, RaceSteps, Live, Faithful, Harmless,
         Conserved, Formed, InQueueOrder, Contiguous, Tree;
    AppliedDrawn(c, s);
    var (middle, db) := Live(s.live, b.op, b.granted);
    var (after, da) := Live(middle, a.op, a.granted);
    var sa, sb := a.StampFor(s.next), b.StampFor(s.next + 1);
    InvertedPair(c.keys, s.live, s.target, c.targetdir, a.op, b.op, a.granted, b.granted, sa, sb);
    var t := RaceHooks(c, s, a, b);
    RacePrefix(a, b);
    var u := TwoRestored(c, s, RaceSteps(a, b)[..6], t, RecordOf(a.op, da, sa), RecordOf(b.op, db, sb));
  }

  ghost predicate LastFile(live: Fs, p: Path, name: string)
  {
    p != [] && IsDir(live, p) && IsFile(live, p + [name])
    && forall q | q in live && q != [] && Parent(q) == p :: q == p + [name]
  }

  lemma LastFileRemoved(live: Fs, p: Path, name: string)
    requires LastFile(live, p, name)
    ensures Live(live, Unlink(p + [name]), 1) == (live - {p + [name]}, true)
    ensures Live(live - {p + [name]}, Rmdir(p), 1).1
    ensures !Harmless(Rmdir(p), Unlink(p + [name]))
  {
    assert p <= p + [name] && p != p + [name];
  }

  /// For example: the last file of a directory is removed, then the directory; if the directory's hook drew
  /// its number first, the directory stays on the target.
  lemma RemovedDirectoryStays(c: Config, s: State, p: Path, name: string, time: nat)
    requires Inv(c, s) && Drained(s) && Tree(s.live) && Tree(s.target) && "" !in c.keys
    requires Agree(c.keys, s.live, s.target, Split(c.targetdir))
    requires Monitored(c.keys, p) && Loggable(p) && Loggable(p + [name]) && LastFile(s.live, p, name)
    ensures var a, b := Call(Rmdir(p), 0, 0, time, 1), Call(Unlink(p + [name]), 0, 0, time, 1);
      Possible(c, s, RaceSteps(a, b)) && !Agree(c.keys, Final(c, s, RaceSteps(a, b)).live,
                                                Final(c, s, RaceSteps(a, b)).target, Split(c.targetdir))
  {
    hide Agree, Monitored, Possible, Final, RaceSteps, Inv, Loggable, Split, Drained, LastFile, Live, Harmless;
    LastFileRemoved(s.live, p, name);
    MonitoredBelow(c.keys, p, p + [name]);
    RaceExact(c, s, Call(Rmdir(p), 0, 0, time, 1), Call(Unlink(p + [name]), 0, 0, time, 1));
  }
}
