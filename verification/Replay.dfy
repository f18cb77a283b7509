/// Replaying the log: each record does to the target what its operation did to the monitored part of
/// the live tree (createiolog.c with test/RestoreIolog.c).
module Replay {
  import opened Bytes
  import opened PathNames
  import opened FileTree
  import opened PathText
  import opened IoLog
  import opened Restore

  /// A path is backed up when a monitored key begins its text.
  ghost predicate Monitored(keys: set<string>, p: Path) { exists k | k in keys :: k <= Render(p) }

  /// An unmonitored directory on the way to a monitored key.
  ghost predicate Above(keys: set<string>, q: Path) { exists k | k in keys :: Render(q) + "/" <= k }

  lemma RenderPrefix(q: Path, p: Path)
    requires q <= p
    ensures Render(q) <= Render(p) && (q != p ==> Render(q) + "/" <= Render(p))
    decreases |p|
  {
    if q != p {
      var c := p[|p| - 1];
      assert p == p[..|p| - 1] + [c] && q == p[..|p| - 1][..|q|];
      RenderAppend(p[..|p| - 1], c);
      RenderPrefix(q, p[..|p| - 1]);
    }
  }

  /// What is below a monitored path is monitored; what is above is monitored or above a key.
  lemma MonitoredBelow(keys: set<string>, q: Path, p: Path)
    requires q <= p
    ensures Monitored(keys, q) ==> Monitored(keys, p)
    ensures Monitored(keys, p) && q != p ==> Monitored(keys, q) || Above(keys, q)
  {
    RenderPrefix(q, p);
    if Monitored(keys, q) {
      var k :| k in keys && k <= Render(q);
      assert Render(p)[..|Render(q)|][..|k|] == Render(p)[..|k|];
    }
    if Monitored(keys, p) && q != p {
      var k :| k in keys && k <= Render(p);
      var s := Render(q) + "/";
      if |k| <= |Render(q)| {
        assert Render(q)[..|k|] == Render(p)[..|Render(q)|][..|k|] == k;
      } else {
        assert k[..|s|] == Render(p)[..|k|][..|s|] == s;
      }
    }
  }

  // ----- the live tree -----

  /// The operation on the live tree: granted is 0 where the kernel refuses, and bounds what a write
  /// writes.  The second part is what the hook sees: ret == 0, or ret > 0 for a write.
  function Live(fs: Fs, op: Op, granted: nat): (Fs, bool)
  {
    if granted == 0 || !Applicable(fs, op) || (op.Write? && op.data == []) then (fs, false)
    else if op.Write? && granted < |op.data| then (Try(fs, op.(data := op.data[..granted])), true)
    else (Try(fs, op), true)
  }

  /// An operation succeeds exactly if it applies and is granted, a write of no bytes excepted.  A write puts
  /// as many bytes into the file as were granted.
  lemma LiveExact(fs: Fs, op: Op, granted: nat)
    ensures Live(fs, op, granted).1 <==> granted > 0 && Applicable(fs, op) && (op.Write? ==> |op.data| > 0)
    ensures !Live(fs, op, granted).1 ==> Live(fs, op, granted).0 == fs
    ensures Live(fs, op, granted).1 && !op.Write? ==> Live(fs, op, granted).0 == Try(fs, op)
    ensures Live(fs, op, granted).1 && op.Write? ==>
      var (p, n) := (op.path, if granted < |op.data| then granted else |op.data|);
      var (content, after) := (fs[p].content, Live(fs, op, granted).0);
      && p in after && after == fs[p := after[p]] && after[p].File?
      && (forall i | 0 <= i < |after[p].content| ::
            after[p].content[i] == if op.pos <= i < op.pos + n then op.data[i - op.pos]
                                   else if i < |content| then content[i] else 0)
      && |after[p].content| == if op.pos + n <= |content| then |content| else op.pos + n
  {
    hide Spliced;
    if Live(fs, op, granted).1 && op.Write? {
      var n := if granted < |op.data| then granted else |op.data|;
      var content := fs[op.path].content;
      assert op.data[..n] == if granted < |op.data| then op.data[..granted] else op.data;
      SplicedAt(content, op.pos, op.data[..n], 0);
      forall i | 0 <= i < |Spliced(content, op.pos, op.data[..n])|
        ensures Spliced(content, op.pos, op.data[..n])[i]
             == if op.pos <= i < op.pos + n then op.data[i - op.pos] else if i < |content| then content[i] else 0
      {
        SplicedAt(content, op.pos, op.data[..n], i);
      }
    }
  }

  /// The record of a write holds all the bytes that were to be written.  It tells the truth about a short
  /// write only when the bytes that were not written are in the file already.
  predicate Faithful(fs: Fs, op: Op, granted: nat)
  {
    op.Write? && 0 < granted < |op.data| && Applicable(fs, op) ==>
      op.pos + |op.data| <= |fs[op.path].content|
      && fs[op.path].content[op.pos + granted..op.pos + |op.data|] == op.data[granted..]
  }

  lemma ShortWrite(content: seq<Byte>, pos: nat, data: seq<Byte>, granted: nat)
    requires 0 < granted < |data|
    ensures Spliced(content, pos, data[..granted]) == Spliced(content, pos, data) <==>
      pos + |data| <= |content| && content[pos + granted..pos + |data|] == data[granted..]
  {
    hide Spliced;
    var short, full := Spliced(content, pos, data[..granted]), Spliced(content, pos, data);
    SplicedAt(content, pos, data[..granted], |short|);
    SplicedAt(content, pos, data, |full|);
    if pos + |data| <= |content| {
      forall i | 0 <= i < |content|
        ensures short[i] == if pos <= i < pos + granted then data[i - pos] else content[i]
        ensures full[i] == if pos <= i < pos + |data| then data[i - pos] else content[i]
      {
        SplicedAt(content, pos, data[..granted], i);
        SplicedAt(content, pos, data, i);
      }
      RestEqual(content, pos, data, granted, short, full);
    }
  }

  lemma RestEqual(content: seq<Byte>, pos: nat, data: seq<Byte>, granted: nat, short: seq<Byte>, full: seq<Byte>)
    requires granted <= |data| && pos + |data| <= |content| == |short| == |full|
    requires forall i | 0 <= i < |content| :: short[i] == if pos <= i < pos + granted then data[i - pos] else content[i]
    requires forall i | 0 <= i < |content| :: full[i] == if pos <= i < pos + |data| then data[i - pos] else content[i]
    ensures short == full <==> content[pos + granted..pos + |data|] == data[granted..]
  {
    var rest := content[pos + granted..pos + |data|];
    assert forall k | 0 <= k < |rest| :: rest[k] == short[pos + granted + k] && data[granted..][k] == full[pos + granted + k];
    if rest == data[granted..] {
      forall i | pos + granted <= i < pos + |data|
        ensures short[i] == full[i]
      {
        var k := i - pos - granted;
        assert rest[k] == data[granted..][k];
      }
    }
  }

  /// A path that a record can hold with a NUL behind it.
  ghost predicate Loggable(p: Path) { p != [] && Names(p) && NUL !in Render(p) && |Render(p)| < PATH_FIELD }

  // ----- one record -----

  /// The same operation below the target directory; missing directories above are made.
  function Transferred(fs: Fs, t: Path, op: Op): Fs
    requires op.path != []
  {
    match op
    case Mkdir(p) => MkdirP(fs, t + p).0
    case Create(p) => Try(MkdirP(fs, t + Parent(p)).0, Create(t + p))
    case Write(p, pos, data) => Try(fs, Write(t + p, pos, data))
    case Unlink(p) => Try(fs, Unlink(t + p))
    case Rmdir(p) => Try(fs, Rmdir(t + p))
  }

  lemma RenderAbsolute(p: Path)
    requires p != []
    ensures "/" <= Render(p)
  {
    assert Render(p)[..1] == "/";
  }

  /// The text of a record's path is resolved to the names it was made of.
  lemma RestoredTransfers(fs: Fs, targetdir: string, op: Op, stamp: Stamp)
    requires Loggable(op.path)
    ensures Absolute(RecordOf(op, true, stamp)) && Absolute(RecordOf(op, false, stamp))
    ensures Restored(fs, targetdir, RecordOf(op, true, stamp)) == Transferred(fs, Split(targetdir), op)
    ensures Restored(fs, targetdir, RecordOf(op, false, stamp)) == fs
  {
    hide MkdirAll, Scan, Applicable, Try, Render, PathRead, PathField;
    var p, parent := op.path, Parent(op.path);
    var name := p[|p| - 1];
    PathSurvives(Render(p), RecordOf(op, true, stamp));
    PathSurvives(Render(p), RecordOf(op, false, stamp));
    RenderAbsolute(p);
    SplitRender(targetdir, p);
    if op.Create? {
      assert p == parent + [name] && name in p && forall c | c in parent :: c in p;
      RenderAppend(parent, name);
      UpToSlashAppend(targetdir + Render(parent), name);
      assert targetdir + Render(parent) + "/" + name == targetdir + Render(p);
      ScanSlash(targetdir + Render(parent));
      SplitRender(targetdir, parent);
    }
  }

  // ----- agreement -----

  /// The target, below its directory t, agrees with the live tree on every monitored path, and no file
  /// is in the way to t or to a monitored key.
  ghost predicate Agree(keys: set<string>, live: Fs, target: Fs, t: Path)
  {
    (forall p | Monitored(keys, p) :: p in live <==> t + p in target)
    && (forall p | Monitored(keys, p) && p in live :: live[p] == target[t + p])
    && (forall q | q <= t && q in target :: target[q] == Dir)
    && (forall q | Above(keys, q) && !Monitored(keys, q) && t + q in target :: target[t + q] == Dir)
  }

  /// How restoring begins: nothing monitored is there yet, on either side, and the target holds only
  /// directories.
  lemma FreshTarget(keys: set<string>, live: Fs, target: Fs, t: Path)
    requires forall p | p in live :: !Monitored(keys, p)
    requires forall q | q in target :: target[q] == Dir && (t < q ==> !Monitored(keys, q[|t|..]))
    requires "" !in keys
    ensures Agree(keys, live, target, t)
  {
    forall p | Monitored(keys, p)
      ensures t + p !in target
    {
      assert p != [];
      assert (t + p)[|t|..] == p;
    }
  }

  lemma SamePath(t: Path, p: Path, q: Path)
    ensures t + p == t + q <==> p == q
  {
    assert (t + p)[|t|..] == p && (t + q)[|t|..] == q;
  }

  /// No file is on the way to p, where the live tree has the directory of p.
  lemma WayClear(keys: set<string>, live: Fs, target: Fs, t: Path, p: Path)
    requires Tree(live) && Agree(keys, live, target, t) && Monitored(keys, p) && p != [] && IsDir(live, Parent(p))
    requires p in live ==> live[p] == Dir
    ensures forall q | q <= t + p && q in target :: target[q] == Dir
  {
    forall q | q <= t + p && q in target
      ensures target[q] == Dir
    {
      if |q| <= |t| {
        assert q == (t + p)[..|q|] == t[..|q|];
      } else {
        var k := |q| - |t|;
        assert q == (t + p)[..|q|] == t + p[..k];
        MonitoredBelow(keys, p[..k], p);
        if k < |p| {
          AncestorsAreDirs(live, Parent(p), k);
          assert Parent(p)[..k] == p[..k];
        } else {
          assert p[..k] == p;
        }
      }
    }
  }

  /// What is on the way to p and monitored is not new.
  lemma NothingNew(keys: set<string>, live: Fs, target: Fs, t: Path, p: Path, q: Path)
    requires Tree(live) && Agree(keys, live, target, t) && Exists(live, p) && "" !in keys
    requires Monitored(keys, q) && t + q <= t + p
    ensures t + q in target
  {
    assert q == (t + q)[|t|..] == (t + p)[..|t + q|][|t|..] == p[..|q|];
    ExistsAbove(live, p, |q|);
  }

  /// Directories added on the way to an existing path change nothing that is monitored.
  lemma MadeAgrees(keys: set<string>, live: Fs, target: Fs, t: Path, p: Path, made: Fs)
    requires Tree(live) && Agree(keys, live, target, t) && Exists(live, p) && "" !in keys
    requires forall q | q in target :: q in made && made[q] == target[q]
    requires forall q | q in made && q !in target :: q <= t + p && made[q] == Dir
    ensures Agree(keys, live, made, t)
  {
    forall q | Monitored(keys, q) && t + q in made
      ensures t + q in target
    {
      if t + q !in target {
        NothingNew(keys, live, target, t, p, q);
      }
    }
  }

  lemma ExistsAbove(fs: Fs, p: Path, k: nat)
    requires Tree(fs) && Exists(fs, p) && k <= |p|
    ensures Exists(fs, p[..k])
  {
    if k < |p| {
      AncestorsAreDirs(fs, p, k);
    } else {
      assert p[..k] == p;
    }
  }

  lemma PutAgrees(keys: set<string>, live: Fs, target: Fs, t: Path, p: Path, node: Node)
    requires Agree(keys, live, target, t) && Monitored(keys, p) && p != []
    ensures Agree(keys, live[p := node], target[t + p := node], t)
  {
    forall q
      ensures t + q == t + p <==> q == p
    {
      SamePath(t, p, q);
    }
  }

  lemma DropAgrees(keys: set<string>, live: Fs, target: Fs, t: Path, p: Path)
    requires Agree(keys, live, target, t) && Monitored(keys, p) && p != []
    ensures Agree(keys, live - {p}, target - {t + p}, t)
  {
    forall q
      ensures t + q == t + p <==> q == p
    {
      SamePath(t, p, q);
    }
  }

  lemma {:induction false} MkdirAllPrefix(fs: Fs, cs: Path, ds: Path, k: nat)
    requires k <= |cs| && k <= |ds| && cs[..k] == ds[..k]
    ensures MkdirAll(fs, cs, k) == MkdirAll(fs, ds, k)
  {
    if k > 0 {
      assert cs[..k - 1] == cs[..k][..k - 1] == ds[..k - 1];
      MkdirAllPrefix(fs, cs, ds, k - 1);
    }
  }

  lemma ParentBelow(t: Path, p: Path)
    requires p != []
    ensures t + p != [] && Parent(t + p) == t + Parent(p)
  {}

  /// mkdir_p on the parent prepares the target for what the live tree could do.
  lemma ParentMade(keys: set<string>, live: Fs, target: Fs, t: Path, p: Path)
    requires Tree(live) && Agree(keys, live, target, t) && "" !in keys && Monitored(keys, p) && p != []
    requires !Exists(live, p) && IsDir(live, Parent(p))
    ensures var made := MkdirP(target, t + Parent(p));
      made.1 && Agree(keys, live, made.0, t) && !Exists(made.0, t + p) && IsDir(made.0, Parent(t + p))
  {
    var cs := t + Parent(p);
    assert cs[..|cs|] == cs;
    ParentBelow(t, p);
    WayClear(keys, live, target, t, p);
    forall q | AncestorOrSelf(q, cs, |cs|)
      ensures q <= t + p
    {
      assert q == cs[..|q|] == (t + p)[..|cs|][..|q|] == (t + p)[..|q|];
    }
    MkdirAllComplete(target, cs, |cs|);
    MkdirAllOnlyAdds(target, cs, |cs|);
    var made := MkdirP(target, cs).0;
    MadeAgrees(keys, live, target, t, Parent(p), made);
    assert cs != [] ==> AncestorOrSelf(cs, cs, |cs|);
  }

  /// mkdir_p of a path is mkdir_p of its parent and one more mkdir.
  lemma MkdirPParent(fs: Fs, t: Path, p: Path)
    requires p != [] && MkdirP(fs, t + Parent(p)).1
    ensures MkdirP(fs, t + p).0 == Try(MkdirP(fs, t + Parent(p)).0, Mkdir(t + p))
  {
    var cs, n := t + p, |t + p|;
    assert cs[..n] == cs && cs[..n - 1] == (t + Parent(p))[..n - 1];
    MkdirAllPrefix(fs, cs, t + Parent(p), n - 1);
  }

  lemma ChildBelow(t: Path, p: Path, q: Path) returns (r: Path)
    requires q != [] && Parent(q) == t + p
    ensures r != [] && Parent(r) == p && p <= r && q == t + r
  {
    r := p + [q[|q| - 1]];
    assert q == Parent(q) + [q[|q| - 1]];
  }

  lemma EmptyBelow(keys: set<string>, live: Fs, target: Fs, t: Path, p: Path)
    requires Agree(keys, live, target, t) && Monitored(keys, p) && p != [] && NoChildren(live, p)
    ensures NoChildren(target, t + p)
  {
    forall q | q in target && q != []
      ensures Parent(q) != t + p
    {
      if Parent(q) == t + p {
        var r := ChildBelow(t, p, q);
        MonitoredBelow(keys, p, r);
      }
    }
  }

  /// An operation that the live tree allows does the same to the target.
  lemma TransferAgrees(keys: set<string>, live: Fs, target: Fs, t: Path, op: Op)
    requires Tree(live) && Agree(keys, live, target, t) && "" !in keys && Monitored(keys, op.path) && op.path != []
    requires Applicable(live, op)
    ensures Agree(keys, Try(live, op), Transferred(target, t, op), t)
  {
    hide MkdirAll, Agree, Monitored, Tree;
    var p := op.path;
    match op
    case Mkdir(_) =>
      ParentMade(keys, live, target, t, p);
      MkdirPParent(target, t, p);
      PutAgrees(keys, live, MkdirP(target, t + Parent(p)).0, t, p, Dir);
    case Create(_) =>
      ParentMade(keys, live, target, t, p);
      PutAgrees(keys, live, MkdirP(target, t + Parent(p)).0, t, p, File([]));
    case Write(_, pos, data) =>
      AgreeAt(keys, live, target, t, p);
      PutAgrees(keys, live, target, t, p, File(Spliced(live[p].content, pos, data)));
    case Unlink(_) =>
      AgreeAt(keys, live, target, t, p);
      DropAgrees(keys, live, target, t, p);
    case Rmdir(_) =>
      AgreeAt(keys, live, target, t, p);
      EmptyBelow(keys, live, target, t, p);
      DropAgrees(keys, live, target, t, p);
  }

  lemma AgreeAt(keys: set<string>, live: Fs, target: Fs, t: Path, p: Path)
    requires Agree(keys, live, target, t) && Monitored(keys, p) && p in live
    ensures t + p in target && target[t + p] == live[p]
  {}

  lemma DisagreeAt(keys: set<string>, live: Fs, target: Fs, t: Path, p: Path)
    requires Monitored(keys, p) && p in live && (t + p in target ==> target[t + p] != live[p])
    ensures !Agree(keys, live, target, t)
  {}

  /// An operation elsewhere changes nothing that is monitored.
  lemma UnmonitoredAgrees(keys: set<string>, live: Fs, target: Fs, t: Path, op: Op)
    requires Tree(live) && Agree(keys, live, target, t) && !Monitored(keys, op.path)
    ensures Agree(keys, Try(live, op), target, t)
  {
    TryTree(live, op);
  }

  /// The record of an operation on a monitored path, error record or not, keeps the target in agreement
  /// with the live tree, exactly when it is faithful: only a short write can be unfaithful.
  lemma RecordAgrees(keys: set<string>, live: Fs, target: Fs, targetdir: string, op: Op, granted: nat,
                     stamp: Stamp)
    requires Tree(live) && Agree(keys, live, target, Split(targetdir)) && "" !in keys
    requires Monitored(keys, op.path) && Loggable(op.path)
    ensures Tree(Live(live, op, granted).0) && Absolute(RecordOf(op, Live(live, op, granted).1, stamp))
    ensures
      Agree(keys, Live(live, op, granted).0, Restored(target, targetdir, RecordOf(op, Live(live, op, granted).1, stamp)),
            Split(targetdir))
      <==> Faithful(live, op, granted)
  {
    hide Agree, Monitored, Tree, Restored, RecordOf, Split, Spliced, Absolute;
    var t := Split(targetdir);
    RestoredTransfers(target, targetdir, op, stamp);
    var (after, done) := Live(live, op, granted);
    TryTree(live, op);
    if done && op.Write? && granted < |op.data| {
      TryTree(live, op.(data := op.data[..granted]));
      TransferAgrees(keys, live, target, t, op);
      ShortWriteAgrees(keys, live, target, t, op, granted);
    } else if done {
      TransferAgrees(keys, live, target, t, op);
    }
  }

  lemma ShortWriteAgrees(keys: set<string>, live: Fs, target: Fs, t: Path, op: Op, granted: nat)
    requires op.Write? && Applicable(live, op) && 0 < granted < |op.data| && Monitored(keys, op.path)
    requires Agree(keys, Try(live, op), Transferred(target, t, op), t)
    ensures Agree(keys, Try(live, op.(data := op.data[..granted])), Transferred(target, t, op), t)
      <==> Faithful(live, op, granted)
  {
    hide Monitored, Spliced, Transferred, Agree;
    var p, content := op.path, live[op.path].content;
    ShortWrite(content, op.pos, op.data, granted);
    var short, full := Spliced(content, op.pos, op.data[..granted]), Spliced(content, op.pos, op.data);
    assert Try(live, op.(data := op.data[..granted])) == live[p := File(short)];
    assert Try(live, op) == live[p := File(full)];
    AgreeAt(keys, Try(live, op), Transferred(target, t, op), t, p);
    if short != full {
      DisagreeAt(keys, live[p := File(short)], Transferred(target, t, op), t, p);
    }
  }

  // ----- histories -----

  /// What one hook after another does: the operation, and the record if the path is monitored.
  datatype Event = Event(op: Op, granted: nat, stamp: Stamp)

  ghost function LiveAfter(live: Fs, history: seq<Event>): Fs
    decreases |history|
  {
    if history == [] then live else LiveAfter(Live(live, history[0].op, history[0].granted).0, history[1..])
  }

  /// Every logged path fits a record, and every write to one is faithful.
  ghost predicate Recordable(keys: set<string>, live: Fs, history: seq<Event>)
    decreases |history|
  {
    history != [] ==>
      var e := history[0];
      (Monitored(keys, e.op.path) ==> Loggable(e.op.path) && Faithful(live, e.op, e.granted))
      && Recordable(keys, Live(live, e.op, e.granted).0, history[1..])
  }

  /// The target after the records of the history were restored in order.
  ghost function TargetAfter(keys: set<string>, live: Fs, target: Fs, targetdir: string, history: seq<Event>): Fs
    requires Recordable(keys, live, history)
    decreases |history|
  {
    if history == [] then target
    else
      var e := history[0];
      var (after, done) := Live(live, e.op, e.granted);
      if Monitored(keys, e.op.path) then
        RestoredTransfers(target, targetdir, e.op, e.stamp);
        TargetAfter(keys, after, Restored(target, targetdir, RecordOf(e.op, done, e.stamp)), targetdir, history[1..])
      else TargetAfter(keys, after, target, targetdir, history[1..])
  }

  /// Replaying the log of any history reproduces the monitored part of the live tree.
  lemma {:induction false} HistoryReplays(keys: set<string>, live: Fs, target: Fs, targetdir: string, history: seq<Event>)
    requires Tree(live) && Agree(keys, live, target, Split(targetdir)) && "" !in keys
    requires Recordable(keys, live, history)
    ensures Agree(keys, LiveAfter(live, history), TargetAfter(keys, live, target, targetdir, history), Split(targetdir))
    decreases |history|
  {
    hide Agree, Monitored, Loggable, Faithful, Live, Restored, RecordOf, Tree, Split;
    if history != [] {
      var e := history[0];
      var (after, done) := Live(live, e.op, e.granted);
      if Monitored(keys, e.op.path) {
        RecordAgrees(keys, live, target, targetdir, e.op, e.granted, e.stamp);
        HistoryReplays(keys, after, Restored(target, targetdir, RecordOf(e.op, done, e.stamp)), targetdir, history[1..]);
      } else {
        LiveUnmonitored(keys, live, target, Split(targetdir), e.op, e.granted);
        HistoryReplays(keys, after, target, targetdir, history[1..]);
      }
    }
  }

  /// An operation elsewhere, or the creation of a file that exists, changes nothing that is monitored.
  lemma LiveUnmonitored(keys: set<string>, live: Fs, target: Fs, t: Path, op: Op, granted: nat)
    requires Tree(live) && Agree(keys, live, target, t)
    requires !(Monitored(keys, op.path) && !(op.Create? && Exists(live, op.path)))
    ensures Tree(Live(live, op, granted).0) && Agree(keys, Live(live, op, granted).0, target, t)
  {
    hide Agree, Monitored, Tree, Try;
    TryTree(live, op);
    if op.Write? && 0 < granted < |op.data| {
      var short := op.(data := op.data[..granted]);
      TryTree(live, short);
      if Applicable(live, op) {
        UnmonitoredAgrees(keys, live, target, t, short);
      }
    }
    if !Monitored(keys, op.path) {
      UnmonitoredAgrees(keys, live, target, t, op);
    }
  }
}
