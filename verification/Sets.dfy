/// Several monitored sets: each has a counter, a directory of log files and a restorer of its own, but the
/// hooks, the queue and the writer are shared.  Every run of all of them is, for each set, a run of the
/// pipeline of that set alone.
module Sets {
  import opened Wrappers
  import opened FileTree
  import opened IoLog
  import opened Restore
  import opened Replay
  import opened PathText
  import opened Pipeline
  import opened Snapshots
  import opened Reorder

  datatype Owned<T> = Owned(owner: SetId, value: T)

  /// MONITOR_SET_ENTRY with its directory and the restorer that reads it.
  datatype SetState = SetState(next: nat, disk: map<nat, LogFile>, iolognum: nat, target: Fs,
                               queued: seq<Context<nat>>, written: seq<Context<nat>>, log: seq<LogEntry>, trees: seq<Fs>)

  datatype Shared = Shared(live: Fs, hooks: seq<Owned<Hook>>, queue: seq<Owned<Context<nat>>>, writer: Option<Owned<Context<nat>>>,
                           sets: map<SetId, SetState>)

  datatype SharedStep =
    | Draws(g: SetId, op: Op, flags: nat, seqNo: nat, time: nat)
    | Runs(i: nat, granted: nat)
    | Enqueues(i: nat)
    | Passes(op: Op, flags: nat, granted: nat)
    | Dequeues
    | WritesOut
    | Applies(g: SetId)

  type Configs = map<SetId, Config>

  /// No path is monitored for two sets.
  ghost predicate Exclusive(cs: Configs)
  {
    forall g, h, p | g in cs && h in cs && Monitored(cs[g].keys, p) && Monitored(cs[h].keys, p) :: g == h
  }

  ghost predicate CanTake(cs: Configs, m: Shared, step: SharedStep)
  {
    match step
    case Draws(g, op, flags, _, _) => g in cs && NeedsLog(cs[g], m.live, op, flags) && Named(op.path)
    case Runs(i, _) => i < |m.hooks| && m.hooks[i].value.Drawn?
    case Enqueues(i) => i < |m.hooks| && m.hooks[i].value.Ran?
    case Passes(op, flags, _) => forall g | g in cs :: !NeedsLog(cs[g], m.live, op, flags)
    case Dequeues => m.writer.None? && m.queue != []
    case WritesOut => m.writer.Some?
    case Applies(g) => g in cs && g in m.sets && m.sets[g].iolognum in m.sets[g].disk
                       && Absolute(m.sets[g].disk[m.sets[g].iolognum])
  }

  /// Every set that is about has a configuration, and hooks belong to the set that monitors their path.
  ghost predicate WellOwned(cs: Configs, m: Shared)
  {
    m.sets.Keys == cs.Keys
    && (forall i | 0 <= i < |m.hooks| :: m.hooks[i].owner in cs
          && (m.hooks[i].value.Drawn? ==> Monitored(cs[m.hooks[i].owner].keys, m.hooks[i].value.op.path)))
    && (forall i | 0 <= i < |m.queue| :: m.queue[i].owner in cs)
    && (m.writer.Some? ==> m.writer.value.owner in cs)
  }

  ghost function Next(cs: Configs, m: Shared, step: SharedStep): Shared
    requires WellOwned(cs, m) && CanTake(cs, m, step)
  {
    match step
    case Draws(g, op, _, seqNo, time) =>
      var s := m.sets[g];
      m.(hooks := m.hooks + [Owned(g, Drawn(s.next, op, Stamp(seqNo, s.next, time)))], sets := m.sets[g := s.(next := s.next + 1)])
    case Runs(i, granted) =>
      var (g, h) := (m.hooks[i].owner, m.hooks[i].value);
      var (after, done) := Live(m.live, h.op, granted);
      var (entry, s) := (LogEntry(h.number, h.op, done, h.stamp), m.sets[g]);
      m.(live := after, hooks := m.hooks[i := Owned(g, Ran(h.number, RecordFor(entry)))],
         sets := m.sets[g := s.(log := s.log + [entry], trees := s.trees + [after])])
    case Enqueues(i) =>
      var (g, h) := (m.hooks[i].owner, m.hooks[i].value);
      var (piowc, s) := (Context(h.number, h.logfile), m.sets[g]);
      m.(hooks := m.hooks[..i] + m.hooks[i + 1..], queue := m.queue + [Owned(g, piowc)],
         sets := m.sets[g := s.(queued := s.queued + [piowc])])
    case Passes(op, _, granted) => m.(live := Live(m.live, op, granted).0)
    case Dequeues => m.(writer := Some(m.queue[0]), queue := m.queue[1..])
    case WritesOut =>
      var (g, piowc) := (m.writer.value.owner, m.writer.value.value);
      var s := m.sets[g];
      m.(writer := None, sets := m.sets[g := s.(disk := s.disk[piowc.name := piowc.logfile], written := s.written + [piowc])])
    case Applies(g) =>
      var s := m.sets[g];
      m.(sets := m.sets[g := s.(iolognum := s.iolognum + 1, target := Restored(s.target, cs[g].targetdir, s.disk[s.iolognum]))])
  }

  // ----- one set's view -----

  /// What belongs to set g, in order.
  function Own<T>(xs: seq<Owned<T>>, g: SetId): seq<T>
  {
    if xs == [] then []
    else Own(xs[..|xs| - 1], g) + if xs[|xs| - 1].owner == g then [xs[|xs| - 1].value] else []
  }

  lemma {:induction false} OwnAppend<T>(xs: seq<Owned<T>>, ys: seq<Owned<T>>, g: SetId)
    ensures Own(xs + ys, g) == Own(xs, g) + Own(ys, g)
    decreases |ys|
  {
    if ys == [] {
      assert xs + ys == xs;
    } else {
      var k := |ys| - 1;
      assert (xs + ys)[..|xs + ys| - 1] == xs + ys[..k];
      OwnAppend(xs, ys[..k], g);
    }
  }

  lemma OwnOne<T>(x: Owned<T>, g: SetId)
    ensures Own([x], g) == if x.owner == g then [x.value] else []
  {
    assert [x][..0] == [];
  }

  lemma OwnNone<T>(g: SetId)
    ensures Own<T>([], g) == []
  {}

  /// Around position i: what set g owns before it, there and behind it.
  lemma OwnSplit<T>(xs: seq<Owned<T>>, i: nat, g: SetId)
    requires i < |xs|
    ensures Own(xs, g) == Own(xs[..i], g) + (if xs[i].owner == g then [xs[i].value] else []) + Own(xs[i + 1..], g)
  {
    assert xs == xs[..i] + [xs[i]] + xs[i + 1..];
    OwnAppend(xs[..i] + [xs[i]], xs[i + 1..], g);
    OwnAppend(xs[..i], [xs[i]], g);
    OwnOne(xs[i], g);
  }

  function OwnWriter(w: Option<Owned<Context<nat>>>, g: SetId): Option<Context<nat>>
  {
    if w.Some? && w.value.owner == g then Some(w.value.value) else None
  }

  function ViewOf(m: Shared, g: SetId): State
    requires g in m.sets
  {
    var s := m.sets[g];
    State(s.next, m.live, Own(m.hooks, g), Own(m.queue, g), OwnWriter(m.writer, g), s.disk, s.iolognum, s.target,
          s.queued, s.written, s.log, s.trees)
  }

  /// The steps that set g sees: its own, and changes of the live tree.
  function Seen(m: Shared, step: SharedStep, g: SetId): seq<Step>
    requires step.Runs? || step.Enqueues? ==> step.i < |m.hooks|
    requires step.Runs? ==> m.hooks[step.i].value.Drawn?
    requires step.Dequeues? ==> m.queue != []
    requires step.WritesOut? ==> m.writer.Some?
  {
    match step
    case Draws(h, op, flags, seqNo, time) => if h == g then [Draw(op, flags, seqNo, time)] else []
    case Runs(i, granted) =>
      if m.hooks[i].owner == g then [Run(|Own(m.hooks[..i], g)|, granted)] else [Unlogged(m.hooks[i].value.op, 0, granted)]
    case Enqueues(i) => if m.hooks[i].owner == g then [Enqueue(|Own(m.hooks[..i], g)|)] else []
    case Passes(op, flags, granted) => [Unlogged(op, flags, granted)]
    case Dequeues => if m.queue[0].owner == g then [Dequeue] else []
    case WritesOut => if m.writer.value.owner == g then [WriteOut] else []
    case Applies(h) => if h == g then [Apply] else []
  }

  ghost predicate Refines(cs: Configs, m: Shared, step: SharedStep, g: SetId)
    requires WellOwned(cs, m) && CanTake(cs, m, step) && g in cs
  {
    var seen := Seen(m, step, g);
    if seen == [] then ViewOf(Next(cs, m, step), g) == ViewOf(m, g)
    else Enabled(cs[g], ViewOf(m, g), seen[0]) && After(cs[g], ViewOf(m, g), seen[0]) == ViewOf(Next(cs, m, step), g)
  }

  lemma DrawsRefines(cs: Configs, m: Shared, step: SharedStep, g: SetId)
    requires WellOwned(cs, m) && CanTake(cs, m, step) && g in cs && step.Draws?
    ensures Refines(cs, m, step, g)
  {
    hide NeedsLog, Named, Own;
    var x := Owned(step.g, Drawn(m.sets[step.g].next, step.op, Stamp(step.seqNo, m.sets[step.g].next, step.time)));
    OwnAppend(m.hooks, [x], g);
    OwnOne(x, g);
  }

  lemma RunsRefines(cs: Configs, m: Shared, step: SharedStep, g: SetId)
    requires WellOwned(cs, m) && CanTake(cs, m, step) && g in cs && step.Runs? && Exclusive(cs)
    ensures Refines(cs, m, step, g)
  {
    hide Own, Live, RecordFor, Monitored;
    var i, next := step.i, Next(cs, m, step);
    OwnSplit(m.hooks, i, g);
    OwnSplit(next.hooks, i, g);
    assert next.hooks[..i] == m.hooks[..i] && next.hooks[i + 1..] == m.hooks[i + 1..];
  }

  lemma EnqueuesRefines(cs: Configs, m: Shared, step: SharedStep, g: SetId)
    requires WellOwned(cs, m) && CanTake(cs, m, step) && g in cs && step.Enqueues?
    ensures Refines(cs, m, step, g)
  {
    hide Own;
    var i, h := step.i, m.hooks[step.i];
    OwnSplit(m.hooks, i, g);
    OwnAppend(m.hooks[..i], m.hooks[i + 1..], g);
    var x := Owned(h.owner, Context(h.value.number, h.value.logfile));
    OwnAppend(m.queue, [x], g);
    OwnOne(x, g);
  }

  lemma DequeuesRefines(cs: Configs, m: Shared, step: SharedStep, g: SetId)
    requires WellOwned(cs, m) && CanTake(cs, m, step) && g in cs && step.Dequeues?
    ensures Refines(cs, m, step, g)
  {
    hide Own;
    OwnSplit(m.queue, 0, g);
    OwnNone<Context<nat>>(g);
    assert m.queue[..0] == [];
  }

  lemma StepRefines(cs: Configs, m: Shared, step: SharedStep, g: SetId)
    requires WellOwned(cs, m) && CanTake(cs, m, step) && g in cs && Exclusive(cs)
    ensures Refines(cs, m, step, g)
  {
    hide Own, NeedsLog, Named, Live, Restored, Absolute, Exclusive;
    match step
    case Draws(_, _, _, _, _) => DrawsRefines(cs, m, step, g);
    case Runs(_, _) => RunsRefines(cs, m, step, g);
    case Enqueues(_) => EnqueuesRefines(cs, m, step, g);
    case Passes(_, _, _) =>
    case Dequeues => DequeuesRefines(cs, m, step, g);
    case WritesOut =>
    case Applies(_) =>
  }

  lemma NextWellOwned(cs: Configs, m: Shared, step: SharedStep)
    requires WellOwned(cs, m) && CanTake(cs, m, step)
    ensures WellOwned(cs, Next(cs, m, step))
  {
    hide Monitored, Named, Live, RecordFor, Restored, Absolute;
  }

  // ----- runs -----

  ghost predicate CanRun(cs: Configs, m: Shared, steps: seq<SharedStep>)
    requires WellOwned(cs, m)
    decreases |steps|
  {
    steps != [] ==>
      CanTake(cs, m, steps[0])
      && (NextWellOwned(cs, m, steps[0]); CanRun(cs, Next(cs, m, steps[0]), steps[1..]))
  }

  ghost function End(cs: Configs, m: Shared, steps: seq<SharedStep>): (r: Shared)
    requires WellOwned(cs, m) && CanRun(cs, m, steps)
    ensures WellOwned(cs, r)
    decreases |steps|
  {
    if steps == [] then m
    else
      NextWellOwned(cs, m, steps[0]);
      End(cs, Next(cs, m, steps[0]), steps[1..])
  }

  /// What set g sees of a run.
  ghost function SeenRun(cs: Configs, m: Shared, steps: seq<SharedStep>, g: SetId): seq<Step>
    requires WellOwned(cs, m) && CanRun(cs, m, steps)
    decreases |steps|
  {
    if steps == [] then []
    else
      NextWellOwned(cs, m, steps[0]);
      Seen(m, steps[0], g) + SeenRun(cs, Next(cs, m, steps[0]), steps[1..], g)
  }

  lemma SeenShort(m: Shared, step: SharedStep, g: SetId, rest: seq<Step>)
    requires (step.Runs? || step.Enqueues? ==> step.i < |m.hooks|) && (step.Runs? ==> m.hooks[step.i].value.Drawn?)
    requires (step.Dequeues? ==> m.queue != []) && (step.WritesOut? ==> m.writer.Some?)
    ensures var seen := Seen(m, step, g);
      if seen == [] then seen + rest == rest else |seen| == 1 && (seen + rest)[0] == seen[0] && (seen + rest)[1..] == rest
  {}

  /// Every run of all sets is a run of each.
  lemma {:induction false} RunRefines(cs: Configs, m: Shared, steps: seq<SharedStep>, g: SetId)
    requires WellOwned(cs, m) && Exclusive(cs) && CanRun(cs, m, steps) && g in cs
    ensures Possible(cs[g], ViewOf(m, g), SeenRun(cs, m, steps, g))
    ensures Final(cs[g], ViewOf(m, g), SeenRun(cs, m, steps, g)) == ViewOf(End(cs, m, steps), g)
    decreases |steps|
  {
    hide WellOwned, Exclusive, NeedsLog, Named, Absolute, Next, Enabled, After, ViewOf, Seen;
    if steps != [] {
      NextWellOwned(cs, m, steps[0]);
      StepRefines(cs, m, steps[0], g);
      var next := Next(cs, m, steps[0]);
      RunRefines(cs, next, steps[1..], g);
      SeenShort(m, steps[0], g, SeenRun(cs, next, steps[1..], g));
    }
  }

  ghost predicate AllInitial(cs: Configs, m: Shared)
  {
    m.hooks == [] && m.queue == [] && m.writer.None? && m.sets.Keys == cs.Keys
    && forall g | g in cs :: Initial(cs[g], ViewOf(m, g))
  }

  /// In every interleaving of all hooks, the one writer and all restorers: for each set, each number it has
  /// drawn is in exactly one hook, queue entry, writer or file of its directory, records are written in the
  /// order of queueing, and its restorer has applied a gapless range.
  lemma EveryRunOfEverySet(cs: Configs, m: Shared, steps: seq<SharedStep>, g: SetId)
    requires AllInitial(cs, m) && Exclusive(cs) && WellOwned(cs, m) && CanRun(cs, m, steps) && g in cs
    ensures var t := ViewOf(End(cs, m, steps), g); var c := cs[g];
      && (forall n: nat ::
            multiset(HookNumbers(t.hooks))[n] + multiset(QueueNumbers(t.queue))[n]
            + multiset(QueueNumbers(InWriter(t.writer)))[n] + (if n in t.disk then 1 else 0)
            == if c.first <= n < t.next then 1 else 0)
      && t.queued == t.written + InWriter(t.writer) + t.queue && t.disk == Written(map[], t.written)
      && AllThere(t.disk, c.first, t.iolognum)
      && t.target == Replayed(c.target, c.targetdir, t.disk, c.first, t.iolognum)
      && (forall n | n in t.disk :: t.disk[n].ullGlobalSeqNo == n)
  {
    hide WellOwned, Exclusive, CanRun, End, ViewOf, Initial, Possible, Final, HookNumbers, QueueNumbers, SeenRun;
    RunRefines(cs, m, steps, g);
    EveryRun(cs[g], ViewOf(m, g), SeenRun(cs, m, steps, g));
  }

  // ----- agreement -----

  ghost predicate TruthfulStep(cs: Configs, m: Shared, step: SharedStep)
    requires CanTake(cs, m, step)
  {
    match step
    case Draws(_, op, _, _, _) => Loggable(op.path)
    case Runs(i, granted) => Faithful(m.live, m.hooks[i].value.op, granted)
    case Passes(op, _, granted) =>
      forall g | g in cs && Monitored(cs[g].keys, op.path) :: Live(m.live, op, granted).0 == m.live
    case _ => true
  }

  ghost predicate TruthfulSteps(cs: Configs, m: Shared, steps: seq<SharedStep>)
    requires WellOwned(cs, m) && CanRun(cs, m, steps)
    decreases |steps|
  {
    steps != [] ==>
      TruthfulStep(cs, m, steps[0])
      && (NextWellOwned(cs, m, steps[0]); TruthfulSteps(cs, Next(cs, m, steps[0]), steps[1..]))
  }

  lemma SeenTruthful(cs: Configs, m: Shared, step: SharedStep, g: SetId)
    requires WellOwned(cs, m) && CanTake(cs, m, step) && g in cs && Exclusive(cs) && TruthfulStep(cs, m, step)
    ensures Seen(m, step, g) != [] ==> Truthful(cs[g], ViewOf(m, g), Seen(m, step, g)[0])
  {
    hide Own, Monitored, Live, Faithful, Loggable, NeedsLog, Named, Absolute;
    if step.Runs? {
      OwnSplit(m.hooks, step.i, g);
    }
  }

  lemma {:induction false} RunTruthful(cs: Configs, m: Shared, steps: seq<SharedStep>, g: SetId)
    requires WellOwned(cs, m) && Exclusive(cs) && CanRun(cs, m, steps) && g in cs && TruthfulSteps(cs, m, steps)
    ensures Possible(cs[g], ViewOf(m, g), SeenRun(cs, m, steps, g))
    ensures TruthfulRun(cs[g], ViewOf(m, g), SeenRun(cs, m, steps, g))
    decreases |steps|
  {
    hide WellOwned, Exclusive, NeedsLog, Named, Absolute, Next, Enabled, After, ViewOf, Seen, Truthful, TruthfulStep;
    RunRefines(cs, m, steps, g);
    if steps != [] {
      NextWellOwned(cs, m, steps[0]);
      StepRefines(cs, m, steps[0], g);
      SeenTruthful(cs, m, steps[0], g);
      var next := Next(cs, m, steps[0]);
      RunTruthful(cs, next, steps[1..], g);
      SeenShort(m, steps[0], g, SeenRun(cs, next, steps[1..], g));
    }
  }

  /// Each set on its own: when nothing of it is on its way, its target agrees with the live tree, provided
  /// that its operations that succeeded and ran out of the order of their numbers have unrelated paths.
  lemma DrainedSetAgrees(cs: Configs, m: Shared, steps: seq<SharedStep>, g: SetId)
    requires AllInitial(cs, m) && Exclusive(cs) && WellOwned(cs, m) && CanRun(cs, m, steps) && TruthfulSteps(cs, m, steps)
    requires g in cs && Tree(m.live) && Tree(cs[g].target) && "" !in cs[g].keys
    requires Agree(cs[g].keys, m.live, cs[g].target, Split(cs[g].targetdir))
    requires Drained(ViewOf(End(cs, m, steps), g)) && InversionsIndependent(End(cs, m, steps).sets[g].log)
    ensures Agree(cs[g].keys, End(cs, m, steps).live, End(cs, m, steps).sets[g].target, Split(cs[g].targetdir))
  {
    hide WellOwned, Exclusive, CanRun, End, Initial, Possible, Final, SeenRun, TruthfulSteps, TruthfulRun, Agree, Tree,
         Drained, InversionsIndependent, Own, OwnWriter;
    RunRefines(cs, m, steps, g);
    RunTruthful(cs, m, steps, g);
    DrainedAgrees(cs[g], ViewOf(m, g), SeenRun(cs, m, steps, g));
  }
}
