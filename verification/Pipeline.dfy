/// The log pipeline as a step system: hooks that draw a number, run the operation and queue a record
/// (hookvfs.c), the one writer (iowritethread.c), and the restorer (test/RestoreIolog.c).
module Pipeline {
  import opened Wrappers
  import opened PathNames
  import opened FileTree
  import opened PathText
  import opened IoLog
  import opened Restore
  import opened Replay

  /// A hook between its draw and the end of its queueing.
  datatype Hook = Drawn(number: nat, op: Op, stamp: Stamp) | Ran(number: nat, logfile: LogFile)

  /// An operation that ran: its number, whether it succeeded, and what its record needs.
  datatype LogEntry = LogEntry(number: nat, op: Op, done: bool, stamp: Stamp)

  function RecordFor(e: LogEntry): LogFile { RecordOf(e.op, e.done, e.stamp) }

  datatype Config = Config(keys: set<string>, first: nat, targetdir: string, target: Fs)

  /// The last four fields record the past: the records in queueing order and in writing order, the logged
  /// operations in the order in which they ran, and the live tree before the first logged operation and after each.
  datatype State = State(
    next: nat,
    live: Fs,
    hooks: seq<Hook>,
    queue: seq<Context<nat>>,
    writer: Option<Context<nat>>,
    disk: map<nat, LogFile>,
    iolognum: nat,
    target: Fs,
    queued: seq<Context<nat>>,
    written: seq<Context<nat>>,
    log: seq<LogEntry>,
    trees: seq<Fs>)

  datatype Step =
    | Draw(op: Op, flags: nat, seqNo: nat, time: nat)
    | Run(i: nat, granted: nat)
    | Enqueue(i: nat)
    | Unlogged(op: Op, flags: nat, granted: nat)
    | Dequeue
    | WriteOut
    | Apply

  /// A hook looks the path up; rtb_vfs_create passes over files that exist, and rtb_vfs_write over files
  /// opened with flags 1.
  ghost predicate NeedsLog(c: Config, live: Fs, op: Op, flags: nat)
  {
    Monitored(c.keys, op.path) && !(op.Create? && Exists(live, op.path)) && !(op.Write? && flags == 1)
  }

  /// What the kernel guarantees of names.
  ghost predicate Named(p: Path) { p != [] && Names(p) && NUL !in Render(p) }

  ghost predicate Enabled(c: Config, s: State, step: Step)
  {
    match step
    case Draw(op, flags, _, _) => NeedsLog(c, s.live, op, flags) && Named(op.path)
    case Run(i, _) => i < |s.hooks| && s.hooks[i].Drawn?
    case Enqueue(i) => i < |s.hooks| && s.hooks[i].Ran?
    case Unlogged(op, flags, _) => !NeedsLog(c, s.live, op, flags)
    case Dequeue => s.writer.None? && s.queue != []
    case WriteOut => s.writer.Some?
    case Apply => s.iolognum in s.disk && Absolute(s.disk[s.iolognum])
  }

  function Without(hs: seq<Hook>, i: nat): seq<Hook>
    requires i < |hs|
  {
    hs[..i] + hs[i + 1..]
  }

  ghost function After(c: Config, s: State, step: Step): State
    requires Enabled(c, s, step)
  {
    match step
    case Draw(op, _, seqNo, time) =>
      s.(next := s.next + 1, hooks := s.hooks + [Drawn(s.next, op, Stamp(seqNo, s.next, time))])
    case Run(i, granted) =>
      var (number, op) := (s.hooks[i].number, s.hooks[i].op);
      var (after, done) := Live(s.live, op, granted);
      var entry := LogEntry(number, op, done, s.hooks[i].stamp);
      s.(live := after, hooks := s.hooks[i := Ran(number, RecordFor(entry))],
         log := s.log + [entry], trees := s.trees + [after])
    case Enqueue(i) =>
      var piowc := Context(s.hooks[i].number, s.hooks[i].logfile);
      s.(hooks := Without(s.hooks, i), queue := s.queue + [piowc], queued := s.queued + [piowc])
    case Unlogged(op, _, granted) => s.(live := Live(s.live, op, granted).0)
    case Dequeue => s.(writer := Some(s.queue[0]), queue := s.queue[1..])
    case WriteOut =>
      var piowc := s.writer.value;
      s.(writer := None, disk := s.disk[piowc.name := piowc.logfile], written := s.written + [piowc])
    case Apply =>
      s.(iolognum := s.iolognum + 1, target := Restored(s.target, c.targetdir, s.disk[s.iolognum]))
  }

  ghost predicate Initial(c: Config, s: State)
  {
    s.next == c.first && s.hooks == [] && s.queue == [] && s.writer.None? && s.disk == map[]
    && s.iolognum == c.first && s.target == c.target
    && s.queued == [] && s.written == [] && s.log == [] && s.trees == [s.live]
  }

  ghost predicate Possible(c: Config, s: State, steps: seq<Step>)
    decreases |steps|
  {
    steps != [] ==> Enabled(c, s, steps[0]) && Possible(c, After(c, s, steps[0]), steps[1..])
  }

  ghost function Final(c: Config, s: State, steps: seq<Step>): State
    requires Possible(c, s, steps)
    decreases |steps|
  {
    if steps == [] then s else Final(c, After(c, s, steps[0]), steps[1..])
  }

  // ----- numbers -----

  function HookNumbers(hs: seq<Hook>): (r: seq<nat>)
    ensures |r| == |hs|
  {
    seq(|hs|, i requires 0 <= i < |hs| => hs[i].number)
  }

  function QueueNumbers(es: seq<Context<nat>>): (r: seq<nat>)
    ensures |r| == |es|
  {
    seq(|es|, i requires 0 <= i < |es| => es[i].name)
  }

  function InWriter(w: Option<Context<nat>>): seq<Context<nat>> { if w.Some? then [w.value] else [] }

  /// Every number, as often as it occurs anywhere.
  function Numbers(s: State): multiset<nat>
  {
    multiset(HookNumbers(s.hooks)) + multiset(QueueNumbers(s.queue)) + multiset(QueueNumbers(InWriter(s.writer)))
    + multiset(s.disk.Keys)
  }

  function Interval(first: nat, next: nat): (r: set<nat>)
    ensures forall n :: n in r <==> first <= n < next
  {
    if next <= first then {} else Interval(first, next - 1) + {next - 1}
  }

  lemma OneMore(a: set<nat>, n: nat)
    requires n !in a
    ensures multiset(a + {n}) == multiset(a) + multiset{n}
  {}

  ghost predicate Conserved(c: Config, s: State)
  {
    c.first <= s.next && Numbers(s) == multiset(Interval(c.first, s.next))
  }

  /// Each drawn number is in exactly one hook, queue entry, writer or file, and no other number is.
  lemma ExactlyOnce(c: Config, s: State, n: nat)
    requires Conserved(c, s)
    ensures multiset(HookNumbers(s.hooks))[n] + multiset(QueueNumbers(s.queue))[n]
      + multiset(QueueNumbers(InWriter(s.writer)))[n] + (if n in s.disk then 1 else 0)
      == if c.first <= n < s.next then 1 else 0
  {
    assert Numbers(s)[n] == multiset(Interval(c.first, s.next))[n];
    assert multiset(s.disk.Keys)[n] == if n in s.disk then 1 else 0;
  }

  lemma HooksWithout(hs: seq<Hook>, i: nat)
    requires i < |hs|
    ensures multiset(HookNumbers(hs)) == multiset(HookNumbers(Without(hs, i))) + multiset{hs[i].number}
  {
    assert HookNumbers(hs) == HookNumbers(hs[..i]) + [hs[i].number] + HookNumbers(hs[i + 1..]);
    assert HookNumbers(Without(hs, i)) == HookNumbers(hs[..i]) + HookNumbers(hs[i + 1..]);
  }

  lemma HooksAppend(hs: seq<Hook>, h: Hook)
    ensures multiset(HookNumbers(hs + [h])) == multiset(HookNumbers(hs)) + multiset{h.number}
  {
    assert HookNumbers(hs + [h]) == HookNumbers(hs) + [h.number];
  }

  lemma HooksUpdate(hs: seq<Hook>, i: nat, h: Hook)
    requires i < |hs| && h.number == hs[i].number
    ensures HookNumbers(hs[i := h]) == HookNumbers(hs)
  {}

  lemma QueueAppend(es: seq<Context<nat>>, e: Context<nat>)
    ensures multiset(QueueNumbers(es + [e])) == multiset(QueueNumbers(es)) + multiset{e.name}
    ensures multiset(QueueNumbers([e])) == multiset{e.name}
  {
    assert QueueNumbers(es + [e]) == QueueNumbers(es) + [e.name];
    assert QueueNumbers([e]) == [e.name];
  }

  lemma QueueHead(es: seq<Context<nat>>)
    requires es != []
    ensures multiset(QueueNumbers(es)) == multiset{es[0].name} + multiset(QueueNumbers(es[1..]))
  {
    assert QueueNumbers(es) == [es[0].name] + QueueNumbers(es[1..]);
  }

  lemma ConservedStep(c: Config, s: State, step: Step)
    requires Conserved(c, s) && Enabled(c, s, step)
    ensures Conserved(c, After(c, s, step))
  {
    hide Interval, Enabled, After, NeedsLog, Named, RecordOf, Live, Restored, Absolute;
    match step
    case Draw(_, _, _, _) => DrawConserves(c, s, step);
    case Run(i, _) => RunConserves(c, s, step);
    case Enqueue(i) => EnqueueConserves(c, s, step);
    case Unlogged(_, _, _) => RunConserves(c, s, step);
    case Dequeue => DequeueConserves(c, s, step);
    case WriteOut => WriteConserves(c, s, step);
    case Apply => RunConserves(c, s, step);
  }

  lemma DrawConserves(c: Config, s: State, step: Step)
    requires Conserved(c, s) && step.Draw? && Enabled(c, s, step)
    ensures Conserved(c, After(c, s, step))
  {
    hide Interval, HookNumbers, QueueNumbers, NeedsLog, Named, RecordOf, Live, Restored, Absolute;
    HooksAppend(s.hooks, Drawn(s.next, step.op, Stamp(step.seqNo, s.next, step.time)));
    OneMore(Interval(c.first, s.next), s.next);
    assert Interval(c.first, s.next + 1) == Interval(c.first, s.next) + {s.next};
  }

  lemma RunConserves(c: Config, s: State, step: Step)
    requires Conserved(c, s) && (step.Run? || step.Unlogged? || step.Apply?) && Enabled(c, s, step)
    ensures Conserved(c, After(c, s, step))
  {
    hide Interval, HookNumbers, QueueNumbers, NeedsLog, Named, RecordOf, Live, Restored, Absolute;
    if step.Run? {
      var h := s.hooks[step.i];
      HooksUpdate(s.hooks, step.i, Ran(h.number, RecordOf(h.op, Live(s.live, h.op, step.granted).1, h.stamp)));
    }
  }

  lemma EnqueueConserves(c: Config, s: State, step: Step)
    requires Conserved(c, s) && step.Enqueue? && Enabled(c, s, step)
    ensures Conserved(c, After(c, s, step))
  {
    hide Interval, HookNumbers, QueueNumbers, NeedsLog, Named, RecordOf, Live, Restored, Absolute;
    HooksWithout(s.hooks, step.i);
    QueueAppend(s.queue, Context(s.hooks[step.i].number, s.hooks[step.i].logfile));
  }

  lemma DequeueConserves(c: Config, s: State, step: Step)
    requires Conserved(c, s) && step.Dequeue? && Enabled(c, s, step)
    ensures Conserved(c, After(c, s, step))
  {
    hide Interval, HookNumbers, QueueNumbers, NeedsLog, Named, RecordOf, Live, Restored, Absolute;
    QueueHead(s.queue);
    QueueAppend([], s.queue[0]);
    assert QueueNumbers([]) == [];
  }

  lemma WriteConserves(c: Config, s: State, step: Step)
    requires Conserved(c, s) && step.WriteOut? && Enabled(c, s, step)
    ensures Conserved(c, After(c, s, step)) && s.writer.value.name !in s.disk
  {
    hide Interval, HookNumbers, QueueNumbers, NeedsLog, Named, RecordOf, Live, Restored, Absolute;
    var n := s.writer.value.name;
    QueueAppend([], s.writer.value);
    ExactlyOnce(c, s, n);
    OneMore(s.disk.Keys, n);
    assert After(c, s, step).disk.Keys == s.disk.Keys + {n};
    assert QueueNumbers([]) == [];
  }

  // ----- every run -----

  /// The record has a path and carries its number.
  ghost predicate WellFormed(number: nat, logfile: LogFile) { Absolute(logfile) && logfile.ullGlobalSeqNo == number }

  /// Only well-formed records are about.
  ghost predicate Formed(s: State)
  {
    (forall h | h in s.hooks ::
       if h.Drawn? then Named(h.op.path) && h.stamp.globalSeqNo == h.number else WellFormed(h.number, h.logfile))
    && (forall e | e in s.queue :: WellFormed(e.name, e.logfile))
    && (s.writer.Some? ==> WellFormed(s.writer.value.name, s.writer.value.logfile))
    && forall n | n in s.disk :: WellFormed(n, s.disk[n])
  }

  /// Records are written in the order in which they were queued, and none is written over.
  ghost predicate InQueueOrder(s: State)
  {
    s.queued == s.written + InWriter(s.writer) + s.queue && s.disk == Written(map[], s.written)
  }

  /// The restorer has applied exactly the numbers from the first up to where it stands, in order.
  ghost predicate Contiguous(c: Config, s: State)
  {
    AllThere(s.disk, c.first, s.iolognum) && s.target == Replayed(c.target, c.targetdir, s.disk, c.first, s.iolognum)
  }

  ghost predicate Inv(c: Config, s: State)
  {
    Conserved(c, s) && Formed(s) && InQueueOrder(s) && Contiguous(c, s)
  }

  lemma InitialInv(c: Config, s: State)
    requires Initial(c, s)
    ensures Inv(c, s)
  {
    assert Numbers(s) == multiset{};
  }

  lemma RecordAbsolute(op: Op, done: bool, stamp: Stamp)
    requires Named(op.path)
    ensures WellFormed(stamp.globalSeqNo, RecordOf(op, done, stamp))
  {
    hide Render, Behind;
    RenderAbsolute(op.path);
    var logfile := RecordOf(op, done, stamp);
    assert logfile.wszFilePath[0] == Render(op.path)[0] == '/';
    assert PathRead(logfile)[0] == '/';
  }

  lemma FormedStep(c: Config, s: State, step: Step)
    requires Formed(s) && Enabled(c, s, step)
    ensures Formed(After(c, s, step))
  {
    hide Absolute, Named, RecordOf, Live, Restored;
    match step
    case Draw(_, _, _, _) =>
    case Run(i, granted) =>
      var op := s.hooks[i].op;
      assert s.hooks[i] in s.hooks;
      RecordAbsolute(op, Live(s.live, op, granted).1, s.hooks[i].stamp);
    case Enqueue(i) =>
      assert s.hooks[i] in s.hooks;
    case Unlogged(_, _, _) =>
    case Dequeue =>
      assert s.queue[0] in s.queue;
    case WriteOut =>
    case Apply =>
  }

  lemma {:induction false} WrittenAppend(disk: map<nat, LogFile>, es: seq<Context<nat>>, e: Context<nat>)
    ensures Written(disk, es + [e]) == Written(disk, es)[e.name := e.logfile]
    decreases |es|
  {
    if es == [] {
      assert es + [e] == [e];
    } else {
      assert (es + [e])[1..] == es[1..] + [e];
      WrittenAppend(disk[es[0].name := es[0].logfile], es[1..], e);
    }
  }

  lemma InQueueOrderStep(c: Config, s: State, step: Step)
    requires InQueueOrder(s) && Enabled(c, s, step)
    ensures InQueueOrder(After(c, s, step))
  {
    hide Absolute, Named, RecordOf, Live, Restored, Written;
    if step.WriteOut? {
      WrittenAppend(map[], s.written, s.writer.value);
    }
  }

  lemma ContiguousStep(c: Config, s: State, step: Step)
    requires Conserved(c, s) && Contiguous(c, s) && Enabled(c, s, step)
    ensures Contiguous(c, After(c, s, step))
  {
    hide Absolute, Named, RecordOf, Live, Restored, Numbers, Conserved;
    if step.WriteOut? {
      WriteConserves(c, s, step);
      ReplayedGrows(c.target, c.targetdir, s.disk, After(c, s, step).disk, c.first, s.iolognum);
    }
  }

  lemma InvStep(c: Config, s: State, step: Step)
    requires Inv(c, s) && Enabled(c, s, step)
    ensures Inv(c, After(c, s, step))
  {
    hide Conserved, Formed, InQueueOrder, Contiguous, Enabled, After;
    ConservedStep(c, s, step);
    FormedStep(c, s, step);
    InQueueOrderStep(c, s, step);
    ContiguousStep(c, s, step);
  }

  lemma {:induction false} InvRun(c: Config, s: State, steps: seq<Step>)
    requires Inv(c, s) && Possible(c, s, steps)
    ensures Inv(c, Final(c, s, steps))
    decreases |steps|
  {
    hide Inv, Enabled, After;
    if steps != [] {
      InvStep(c, s, steps[0]);
      InvRun(c, After(c, s, steps[0]), steps[1..]);
    }
  }

  /// In every interleaving each drawn number is in exactly one place, records are written in the order
  /// of queueing, and the restorer has applied exactly the numbers from the first up to where it stands.
  lemma EveryRun(c: Config, s: State, steps: seq<Step>)
    requires Initial(c, s) && Possible(c, s, steps)
    ensures var t := Final(c, s, steps);
      && (forall n: nat ::
            multiset(HookNumbers(t.hooks))[n] + multiset(QueueNumbers(t.queue))[n]
            + multiset(QueueNumbers(InWriter(t.writer)))[n] + (if n in t.disk then 1 else 0)
            == if c.first <= n < t.next then 1 else 0)
      && t.queued == t.written + InWriter(t.writer) + t.queue && t.disk == Written(map[], t.written)
      && AllThere(t.disk, c.first, t.iolognum)
      && t.target == Replayed(c.target, c.targetdir, t.disk, c.first, t.iolognum)
      && (forall n | n in t.disk :: t.disk[n].ullGlobalSeqNo == n)
  {
    hide Final, Possible, Initial, Conserved, AllThere, Absolute, HookNumbers, QueueNumbers;
    InitialInv(c, s);
    InvRun(c, s, steps);
    var t := Final(c, s, steps);
    forall n: nat
      ensures multiset(HookNumbers(t.hooks))[n] + multiset(QueueNumbers(t.queue))[n]
        + multiset(QueueNumbers(InWriter(t.writer)))[n] + (if n in t.disk then 1 else 0)
        == if c.first <= n < t.next then 1 else 0
    {
      ExactlyOnce(c, t, n);
    }
  }

  // ----- the end of a run -----

  /// Nothing is on its way, and the restorer has come to a number that has no file.
  ghost predicate Drained(s: State)
  {
    s.hooks == [] && s.queue == [] && s.writer.None? && s.iolognum !in s.disk
  }

  lemma AppliedDrawn(c: Config, s: State)
    requires Conserved(c, s) && Contiguous(c, s)
    ensures c.first <= s.iolognum <= s.next && (s.iolognum in s.disk ==> s.iolognum < s.next)
    ensures Drained(s) ==> s.iolognum == s.next
    ensures forall n | n in s.disk :: c.first <= n < s.next
  {
    hide Replayed, Absolute;
    ExactlyOnce(c, s, s.iolognum);
    if s.iolognum > s.next {
      ExactlyOnce(c, s, s.next);
    }
    forall n | n in s.disk
      ensures c.first <= n < s.next
    {
      ExactlyOnce(c, s, n);
    }
  }
}
