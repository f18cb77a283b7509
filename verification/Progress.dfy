/// Every drawn number takes five steps, whatever the kernel grants: run, enqueue, dequeue, write, apply.
module Progress {
  import opened Wrappers
  import opened FileTree
  import opened IoLog
  import opened Restore
  import opened Replay
  import opened Pipeline

  /// The hooks that have not run.
  function Waiting(hs: seq<Hook>): nat
  {
    if hs == [] then 0 else (if hs[0].Drawn? then 1 else 0) + Waiting(hs[1..])
  }

  lemma {:induction false} WaitingSplit(hs: seq<Hook>, i: nat)
    requires i < |hs|
    ensures Waiting(hs) == Waiting(hs[..i]) + (if hs[i].Drawn? then 1 else 0) + Waiting(hs[i + 1..])
  {
    if i > 0 {
      assert hs[1..][..i - 1] == hs[..i][1..] && hs[1..][i..] == hs[i + 1..];
      WaitingSplit(hs[1..], i - 1);
    }
  }

  lemma {:induction false} WaitingAppend(hs: seq<Hook>, gs: seq<Hook>)
    ensures Waiting(hs + gs) == Waiting(hs) + Waiting(gs)
  {
    if hs != [] {
      assert (hs + gs)[1..] == hs[1..] + gs;
      WaitingAppend(hs[1..], gs);
    } else {
      assert hs + gs == gs;
    }
  }

  lemma RunWaits(hs: seq<Hook>, i: nat, h: Hook)
    requires i < |hs| && hs[i].Drawn? && h.Ran?
    ensures Waiting(hs[i := h]) == Waiting(hs) - 1
  {
    WaitingSplit(hs, i);
    WaitingSplit(hs[i := h], i);
    assert hs[i := h][..i] == hs[..i] && hs[i := h][i + 1..] == hs[i + 1..];
  }

  function Busy(s: State): nat { if s.writer.Some? then 1 else 0 }

  /// The steps that the drawn numbers still have to take.
  function Work(s: State): int
  {
    s.next - s.iolognum + 3 * |s.hooks| + Waiting(s.hooks) + 2 * |s.queue| + Busy(s)
  }

  /// A step that moves a number on.
  predicate Moves(step: Step) { !step.Draw? && !step.Unlogged? }

  lemma StepWork(c: Config, s: State, step: Step)
    requires Enabled(c, s, step)
    ensures Work(After(c, s, step)) == Work(s) + if step.Draw? then 5 else if Moves(step) then -1 else 0
  {
    hide Absolute, Named, NeedsLog, RecordOf, Live, Restored, Waiting;
    match step
    case Draw(op, _, seqNo, time) =>
      var h := Drawn(s.next, op, Stamp(seqNo, s.next, time));
      WaitingAppend(s.hooks, [h]);
      OneWaiting(h);
    case Run(i, granted) =>
      RunWaits(s.hooks, i, After(c, s, step).hooks[i]);
    case Enqueue(i) =>
      WaitingSplit(s.hooks, i);
      WaitingAppend(s.hooks[..i], s.hooks[i + 1..]);
    case Unlogged(_, _, _) =>
    case Dequeue =>
    case WriteOut =>
    case Apply =>
  }

  lemma OneWaiting(h: Hook)
    ensures Waiting([h]) == if h.Drawn? then 1 else 0
  {
    assert [h][1..] == [];
  }

  /// The pipeline is drained exactly when no work is left, which is exactly when no step moves a number.
  lemma WorkLeft(c: Config, s: State)
    requires Inv(c, s)
    ensures Work(s) >= 0 && (Work(s) == 0 <==> Drained(s))
    ensures Drained(s) <==> forall step | Enabled(c, s, step) :: !Moves(step)
  {
    hide Conserved, InQueueOrder, Contiguous, Absolute, Named, NeedsLog;
    AppliedDrawn(c, s);
    if !Drained(s) {
      var step := NextStep(c, s);
    }
  }

  lemma NextStep(c: Config, s: State) returns (step: Step)
    requires Inv(c, s) && !Drained(s)
    ensures Enabled(c, s, step) && Moves(step)
  {
    hide Conserved, InQueueOrder, Contiguous, Absolute, Named;
    if s.hooks != [] {
      step := if s.hooks[0].Drawn? then Run(0, 0) else Enqueue(0);
    } else if s.writer.Some? {
      step := WriteOut;
    } else if s.queue != [] {
      step := Dequeue;
    } else {
      step := Apply;
    }
  }

  function DrawCount(steps: seq<Step>): nat
  {
    if steps == [] then 0 else (if steps[0].Draw? then 1 else 0) + DrawCount(steps[1..])
  }

  function MoveCount(steps: seq<Step>): nat
  {
    if steps == [] then 0 else (if Moves(steps[0]) then 1 else 0) + MoveCount(steps[1..])
  }

  lemma {:induction false} RunWork(c: Config, s: State, steps: seq<Step>)
    requires Possible(c, s, steps)
    ensures Work(Final(c, s, steps)) == Work(s) + 5 * DrawCount(steps) - MoveCount(steps)
    decreases |steps|
  {
    hide Enabled, After, Work;
    if steps != [] {
      StepWork(c, s, steps[0]);
      RunWork(c, After(c, s, steps[0]), steps[1..]);
    }
  }

  /// Whatever the kernel grants and whatever the order: a run is drained exactly when it has moved numbers
  /// five times as often as it has drawn one, and until then some step can move one.
  lemma EveryRunDrains(c: Config, s: State, steps: seq<Step>)
    requires Initial(c, s) && Possible(c, s, steps)
    ensures var t := Final(c, s, steps);
      && MoveCount(steps) <= 5 * DrawCount(steps)
      && (Drained(t) <==> MoveCount(steps) == 5 * DrawCount(steps))
      && (Drained(t) <==> forall step | Enabled(c, t, step) :: !Moves(step))
  {
    hide Possible, Final, Inv, Drained, Enabled, Moves;
    InitialInv(c, s);
    InvRun(c, s, steps);
    RunWork(c, s, steps);
    WorkLeft(c, Final(c, s, steps));
  }
}
