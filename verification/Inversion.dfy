/// Two operations of which the one with the greater number ran first: exactly when restoring them by
/// number goes wrong.
module Inversion {
  import opened Wrappers
  import opened Bytes
  import opened PathNames
  import opened FileTree
  import opened PathText
  import opened IoLog
  import opened Restore
  import opened Replay
  import opened Commute

  predicate ProperlyBelow(p: Path, q: Path) { q <= p && q != p }

  /// Where both writes put a byte, it is the same byte.
  predicate SameOverlap(a: Op, b: Op)
    requires a.Write? && b.Write?
  {
    forall i | 0 <= i < |a.data| && 0 <= i + a.pos - b.pos < |b.data| :: a.data[i] == b.data[i + a.pos - b.pos]
  }

  /// Although b ran first, restoring a first is right: the paths are unrelated, or b wrote a file that a
  /// removed or wrote elsewhere, or b made a directory above a.
  predicate Harmless(a: Op, b: Op)
  {
    Unrelated(a.path, b.path)
    || (a.path == b.path && b.Write? && (a.Unlink? || (a.Write? && SameOverlap(a, b))))
    || (b.Mkdir? && ProperlyBelow(a.path, b.path))
  }

  // ----- writes -----

  /// The byte at i after b and then a were written.
  function TwiceAt(content: seq<Byte>, a: Op, b: Op, i: nat): Byte
    requires a.Write? && b.Write?
  {
    if a.pos <= i < a.pos + |a.data| then a.data[i - a.pos]
    else if b.pos <= i < b.pos + |b.data| then b.data[i - b.pos]
    else if i < |content| then content[i] else 0
  }

  lemma SplicedTwice(content: seq<Byte>, a: Op, b: Op, i: nat)
    requires a.Write? && b.Write?
    ensures var s := Spliced(Spliced(content, b.pos, b.data), a.pos, a.data);
      i < |s| ==> s[i] == TwiceAt(content, a, b, i)
    ensures var s := Spliced(Spliced(content, b.pos, b.data), a.pos, a.data);
      var end := if b.pos + |b.data| <= |content| then |content| else b.pos + |b.data|;
      |s| == if a.pos + |a.data| <= end then end else a.pos + |a.data|
  {
    hide Spliced;
    var first := Spliced(content, b.pos, b.data);
    SplicedAt(content, b.pos, b.data, i);
    SplicedAt(first, a.pos, a.data, i);
  }

  lemma WritesCommute(content: seq<Byte>, a: Op, b: Op)
    requires a.Write? && b.Write?
    ensures var s := Spliced(Spliced(content, b.pos, b.data), a.pos, a.data);
      var t := Spliced(Spliced(content, a.pos, a.data), b.pos, b.data);
      s == t <==> SameOverlap(a, b)
  {
    hide Spliced;
    var s, t := Spliced(Spliced(content, b.pos, b.data), a.pos, a.data), Spliced(Spliced(content, a.pos, a.data), b.pos, b.data);
    SplicedTwice(content, a, b, |s|);
    SplicedTwice(content, b, a, |t|);
    if SameOverlap(a, b) {
      forall i | 0 <= i < |s|
        ensures s[i] == t[i]
      {
        SplicedTwice(content, a, b, i);
        SplicedTwice(content, b, a, i);
        if a.pos <= i < a.pos + |a.data| && b.pos <= i < b.pos + |b.data| {
          assert a.data[i - a.pos] == b.data[i - a.pos + a.pos - b.pos];
        }
      }
    }
    if s == t {
      forall i | 0 <= i < |a.data| && 0 <= i + a.pos - b.pos < |b.data|
        ensures a.data[i] == b.data[i + a.pos - b.pos]
      {
        SplicedTwice(content, a, b, i + a.pos);
        SplicedTwice(content, b, a, i + a.pos);
      }
    }
  }

  // ----- what can have happened -----

  /// A target that agrees with live is left alone by a.
  ghost predicate Stuck(live: Fs, a: Op)
  {
    if a.Mkdir? || a.Create? then a.path in live else !Applicable(live, a)
  }

  lemma Successes(live: Fs, a: Op, b: Op)
    requires Tree(live) && Applicable(live, b) && Applicable(Try(live, b), a) && a.path != [] && b.path != []
    ensures Unrelated(a.path, b.path)
      || (b.Mkdir? && (a.Mkdir? || a.Create?) && ProperlyBelow(a.path, b.path))
      || (a.path == b.path && b.Write? && (a.Write? || a.Unlink?))
      || (Stuck(live, a) && !Harmless(a, b))
  {
    var after := Try(live, b);
    TryTree(live, b);
    var p, q := a.path, b.path;
    if ProperlyBelow(q, p) {
      assert q[..|p|] == p;
      ChildLeft(live, a, b);
    } else if ProperlyBelow(p, q) {
      assert p[..|q|] == q;
      AboveLeft(live, a, b);
    }
  }

  /// a is above b: then a removed the directory that b had emptied.
  lemma ChildLeft(live: Fs, a: Op, b: Op)
    requires Tree(live) && Applicable(live, b) && Applicable(Try(live, b), a) && a.path != []
    requires ProperlyBelow(b.path, a.path)
    ensures a.Rmdir? && Stuck(live, a)
  {
    var after, p, q := Try(live, b), a.path, b.path;
    TryTree(live, b);
    assert q[..|p|] == p;
    AncestorsAreDirs(live, Parent(q), |p|);
    assert Parent(q)[..|p|] == p;
    assert IsDir(after, p);
    if q in after {
      ChildOnTheWay(after, p, q);
    } else {
      ChildOnTheWay(live, p, q);
    }
  }

  /// A directory with something below it has a child.
  lemma {:induction false} ChildOnTheWay(fs: Fs, p: Path, q: Path)
    requires Tree(fs) && q in fs && ProperlyBelow(q, p) && p != []
    ensures !NoChildren(fs, p)
    decreases |q|
  {
    if Parent(q) != p {
      assert Parent(q)[..|p|] == p;
      ChildOnTheWay(fs, p, Parent(q));
    }
  }

  /// b is above a: then b made the directory.
  lemma AboveLeft(live: Fs, a: Op, b: Op)
    requires Tree(live) && Applicable(live, b) && Applicable(Try(live, b), a) && b.path != []
    requires ProperlyBelow(a.path, b.path)
    ensures b.Mkdir? && (a.Mkdir? || a.Create?)
  {
    var after, p, q := Try(live, b), a.path, b.path;
    TryTree(live, b);
    AncestorsAreDirs(after, Parent(p), |q|);
    assert p[..|q|] == q && Parent(p)[..|q|] == q;
    if p in after {
      assert p in live;
      AncestorsAreDirs(live, p, |q|);
    }
  }

  // ----- what the target becomes -----

  /// Two trees that agree with one target and differ at one monitored path at most are the same.
  lemma OneTree(keys: set<string>, live: Fs, other: Fs, target: Fs, t: Path, p: Path)
    requires Agree(keys, live, target, t) && Agree(keys, other, target, t) && Monitored(keys, p)
    requires forall q | q != p :: View(live, q) == View(other, q)
    ensures live == other
  {
    hide Monitored;
    assert p in live <==> p in other;
    assert View(live, p) == View(other, p);
    SameView(live, other);
  }

  lemma TryViews(fs: Fs, op: Op)
    requires Tree(fs)
    ensures forall q | q != op.path :: View(Try(fs, op), q) == View(fs, q)
    ensures Applicable(fs, op) && (op.Write? ==> Try(fs, op) != fs) ==> Try(fs, op) != fs
  {
    TryTree(fs, op);
    if Applicable(fs, op) && !op.Write? {
      assert op.path in fs <==> op.path !in Try(fs, op);
    }
  }

  lemma NothingAdded(fs: Fs, f: Path, node: Node)
    requires Tree(fs) && f in fs
    ensures forall x :: Added(fs, f, node, x) == View(fs, x)
  {
    hide Blocked;
    forall x
      ensures Added(fs, f, node, x) == View(fs, x)
    {
      if x != [] && x <= f {
        ExistsAbove(fs, f, |x|);
        assert f[..|x|] == x;
      }
    }
  }

  lemma StuckTarget(keys: set<string>, live: Fs, target: Fs, t: Path, a: Op)
    requires Tree(live) && Tree(target) && Agree(keys, live, target, t) && Monitored(keys, a.path) && a.path != []
    requires Stuck(live, a)
    ensures Transferred(target, t, a) == target
  {
    hide Monitored, MkdirAll, Blocked, Transferred;
    var p, f := a.path, t + a.path;
    TransferredAt(target, t, a);
    if a.Mkdir? || a.Create? {
      AgreeAt(keys, live, target, t, p);
      NothingAdded(target, f, Dir);
      NothingAdded(target, f, File([]));
    } else {
      if a.Rmdir? && IsDir(live, p) {
        var q :| q in live && q != [] && Parent(q) == p;
        assert q == p + [q[|q| - 1]] && p <= q;
        MonitoredBelow(keys, p, q);
        AgreeAt(keys, live, target, t, q);
        assert Parent(t + q) == f;
      }
      assert p in live <==> f in target;
      if p in live {
        AgreeAt(keys, live, target, t, p);
      }
    }
    SameView(Transferred(target, t, a), target);
  }

  /// When a has no effect because it comes too early, its effect is missing in the end.
  lemma StuckDiverges(keys: set<string>, live: Fs, target: Fs, t: Path, a: Op, b: Op)
    requires Tree(live) && Tree(target) && Agree(keys, live, target, t) && "" !in keys
    requires Monitored(keys, a.path) && Monitored(keys, b.path) && a.path != [] && b.path != []
    requires Applicable(live, b) && Applicable(Try(live, b), a) && Stuck(live, a) && Try(Try(live, b), a) != Try(live, b)
    ensures !Agree(keys, Try(Try(live, b), a), Transferred(Transferred(target, t, a), t, b), t)
  {
    hide Agree, Monitored, Tree, Transferred, Applicable, Try, View, Stuck;
    StuckTarget(keys, live, target, t, a);
    TransferAgrees(keys, live, target, t, b);
    TryTree(live, b);
    TryViews(Try(live, b), a);
    if Agree(keys, Try(Try(live, b), a), Transferred(target, t, b), t) {
      OneTree(keys, Try(Try(live, b), a), Try(live, b), Transferred(target, t, b), t, a.path);
    }
  }

  /// Where the two records commute on the target, it agrees.
  lemma CommutedAgrees(keys: set<string>, live: Fs, target: Fs, t: Path, a: Op, b: Op)
    requires Tree(live) && Agree(keys, live, target, t) && "" !in keys
    requires Monitored(keys, a.path) && Monitored(keys, b.path) && a.path != [] && b.path != []
    requires Applicable(live, b) && Applicable(Try(live, b), a)
    ensures Agree(keys, Try(Try(live, b), a), Transferred(Transferred(target, t, b), t, a), t)
  {
    hide Agree, Monitored, Tree, Transferred, Applicable, Try;
    TransferAgrees(keys, live, target, t, b);
    TryTree(live, b);
    TransferAgrees(keys, Try(live, b), Transferred(target, t, b), t, a);
  }

  /// A directory may be made before or after something below it.
  lemma DirectoryFirst(keys: set<string>, live: Fs, target: Fs, t: Path, a: Op, b: Op)
    requires Tree(live) && Tree(target) && Agree(keys, live, target, t) && "" !in keys
    requires Monitored(keys, a.path) && Monitored(keys, b.path) && a.path != [] && b.path != []
    requires Applicable(live, b) && Applicable(Try(live, b), a)
    requires b.Mkdir? && (a.Mkdir? || a.Create?) && ProperlyBelow(a.path, b.path)
    ensures Transferred(Transferred(target, t, a), t, b) == Transferred(Transferred(target, t, b), t, a)
  {
    hide Monitored, Transferred;
    var f, g := t + a.path, t + b.path;
    var one, two := Transferred(target, t, a), Transferred(target, t, b);
    TransferAgrees(keys, live, target, t, b);
    TryTree(live, b);
    WayClear(keys, Try(live, b), two, t, a.path);
    TransferredAt(target, t, a);
    TransferredAt(target, t, b);
    TransferredAt(one, t, b);
    TransferredAt(two, t, a);
    PrefixBelow(t, b.path, a.path);
    WayStaysClear(target, f, g, one, two, if a.Mkdir? then Dir else File([]));
    SameView(Transferred(one, t, b), Transferred(two, t, a));
  }

  lemma NotBlocked(fs: Fs, f: Path, g: Path)
    requires g <= f && forall q | q <= f && q in fs && q != f :: fs[q] == Dir
    ensures !Blocked(fs, g)
  {
    forall k | 0 < k < |g|
      ensures !IsFile(fs, g[..k])
    {
      assert g[..k] == f[..k] <= f;
    }
  }

  lemma WayStaysClear(fs: Fs, f: Path, g: Path, one: Fs, two: Fs, node: Node)
    requires ProperlyBelow(f, g) && g != []
    requires forall x :: View(one, x) == Added(fs, f, node, x)
    requires forall x :: View(two, x) == Added(fs, g, Dir, x)
    requires forall q | q <= f && q in two :: two[q] == Dir
    ensures forall x :: Added(one, g, Dir, x) == Added(two, f, node, x)
  {
    hide Blocked;
    forall q | q in fs
      ensures q in two && two[q] == fs[q]
    {
      assert View(two, q) == Added(fs, g, Dir, q);
    }
    NotBlocked(fs, f, f);
    NotBlocked(fs, f, g);
    NotBlocked(two, f, f);
    forall q | q <= f && q in one && q != f
      ensures one[q] == Dir
    {
      assert View(one, q) == Added(fs, f, node, q);
    }
    NotBlocked(one, f, g);
    forall x
      ensures Added(one, g, Dir, x) == Added(two, f, node, x)
    {
      assert View(one, x) == Added(fs, f, node, x) && View(two, x) == Added(fs, g, Dir, x);
      if x <= g {
        assert x == g[..|x|] == f[..|x|];
      }
    }
  }

  /// A file that was written and then removed is gone in either order.
  lemma WrittenThenRemoved(keys: set<string>, live: Fs, target: Fs, t: Path, a: Op, b: Op)
    requires Agree(keys, live, target, t) && Monitored(keys, a.path) && IsFile(live, a.path)
    requires a.path == b.path && a.Unlink? && b.Write?
    ensures Transferred(Transferred(target, t, a), t, b) == Transferred(Transferred(target, t, b), t, a)
  {
    hide Monitored;
    AgreeAt(keys, live, target, t, a.path);
    var f := t + a.path;
    var content := target[f].content;
    assert Transferred(target, t, a) == target - {f};
    assert Transferred(target, t, b) == target[f := File(Spliced(content, b.pos, b.data))];
    assert target[f := File(Spliced(content, b.pos, b.data))] - {f} == target - {f};
  }

  lemma WrittenTwice(keys: set<string>, live: Fs, target: Fs, t: Path, a: Op, b: Op)
    requires Agree(keys, live, target, t) && Monitored(keys, a.path) && IsFile(live, a.path)
    requires a.path == b.path && a.Write? && b.Write?
    ensures Agree(keys, Try(Try(live, b), a), Transferred(Transferred(target, t, a), t, b), t) <==> SameOverlap(a, b)
  {
    hide Monitored, Spliced, SameOverlap, Agree;
    AgreeAt(keys, live, target, t, a.path);
    var p, f, content := a.path, t + a.path, live[a.path].content;
    var s := Spliced(Spliced(content, b.pos, b.data), a.pos, a.data);
    var r := Spliced(Spliced(content, a.pos, a.data), b.pos, b.data);
    WritesCommute(content, a, b);
    var after := target[f := File(r)];
    assert Transferred(Transferred(target, t, a), t, b) == after;
    assert Try(Try(live, b), a) == live[p := File(s)];
    PutAgrees(keys, live, target, t, p, File(r));
    if s != r {
      DisagreeAt(keys, live[p := File(s)], after, t, p);
    }
  }

  /// Both succeeded.
  lemma BothSucceed(keys: set<string>, live: Fs, target: Fs, t: Path, a: Op, b: Op)
    requires Tree(live) && Tree(target) && Agree(keys, live, target, t) && "" !in keys
    requires Monitored(keys, a.path) && Monitored(keys, b.path) && a.path != [] && b.path != []
    requires Applicable(live, b) && Applicable(Try(live, b), a) && (a.Write? ==> a.data != [])
    ensures Agree(keys, Try(Try(live, b), a), Transferred(Transferred(target, t, a), t, b), t) <==> Harmless(a, b)
  {
    hide Agree, Monitored, Tree, Transferred, SameOverlap;
    Successes(live, a, b);
    if Unrelated(a.path, b.path) {
      UnrelatedCommute(target, t, a, b);
      CommutedAgrees(keys, live, target, t, a, b);
    } else if b.Mkdir? && (a.Mkdir? || a.Create?) && ProperlyBelow(a.path, b.path) {
      DirectoryFirst(keys, live, target, t, a, b);
      CommutedAgrees(keys, live, target, t, a, b);
    } else if a.path == b.path && b.Write? && a.Unlink? {
      WrittenThenRemoved(keys, live, target, t, a, b);
      CommutedAgrees(keys, live, target, t, a, b);
    } else if a.path == b.path && b.Write? && a.Write? {
      WrittenTwice(keys, live, target, t, a, b);
    } else {
      StuckChanges(live, a, b);
      StuckDiverges(keys, live, target, t, a, b);
    }
  }

  lemma StuckChanges(live: Fs, a: Op, b: Op)
    requires Tree(live) && Applicable(live, b) && Applicable(Try(live, b), a) && Stuck(live, a)
    requires a.Write? ==> a.data != []
    ensures Try(Try(live, b), a) != Try(live, b)
  {
    hide Tree, Spliced;
    TryTree(live, b);
    TryViews(Try(live, b), a);
    if a.Write? {
      assert b.Create? && b.path == a.path;
      SplicedAt([], a.pos, a.data, 0);
    }
  }

  /// What the hook saw and what the record says of a faithful operation are the same.
  lemma LiveFull(fs: Fs, op: Op, granted: nat)
    requires Faithful(fs, op, granted)
    ensures Live(fs, op, granted).1 ==>
      Applicable(fs, op) && Live(fs, op, granted).0 == Try(fs, op) && (op.Write? ==> op.data != [])
    ensures !Live(fs, op, granted).1 ==> Live(fs, op, granted).0 == fs
  {
    hide Spliced;
    if op.Write? && 0 < granted < |op.data| && Applicable(fs, op) {
      ShortWrite(fs[op.path].content, op.pos, op.data, granted);
    }
  }

  /// Two hooks with numbers n (for a) and n + 1 (for b), of which b ran first: restoring their records by
  /// number is right if and only if one of them failed or the pair is harmless.
  lemma InvertedPair(keys: set<string>, live: Fs, target: Fs, targetdir: string, a: Op, b: Op, ga: nat, gb: nat,
                     sa: Stamp, sb: Stamp)
    requires Tree(live) && Tree(target) && Agree(keys, live, target, Split(targetdir)) && "" !in keys
    requires Monitored(keys, a.path) && Monitored(keys, b.path) && Loggable(a.path) && Loggable(b.path)
    requires Faithful(live, b, gb) && Faithful(Live(live, b, gb).0, a, ga)
    ensures var (middle, db) := Live(live, b, gb); var (after, da) := Live(middle, a, ga);
      && Absolute(RecordOf(a, da, sa)) && Absolute(RecordOf(b, db, sb))
      && (Agree(keys, after, Restored(Restored(target, targetdir, RecordOf(a, da, sa)), targetdir, RecordOf(b, db, sb)),
                Split(targetdir))
          <==> !da || !db || Harmless(a, b))
  {
    hide Agree, Monitored, Tree, Restored, RecordOf, Split, Absolute, Live, Faithful, Harmless, Transferred, Try, Applicable;
    var t := Split(targetdir);
    var (middle, db) := Live(live, b, gb);
    var (after, da) := Live(middle, a, ga);
    LiveFull(live, b, gb);
    LiveFull(middle, a, ga);
    RestoredTransfers(target, targetdir, a, sa);
    var one := Restored(target, targetdir, RecordOf(a, da, sa));
    RestoredTransfers(one, targetdir, b, sb);
    if !db {
      RecordAgrees(keys, live, target, targetdir, a, ga, sa);
    } else if !da {
      RecordAgrees(keys, live, target, targetdir, b, gb, sb);
    } else {
      BothSucceed(keys, live, target, t, a, b);
    }
  }
}
