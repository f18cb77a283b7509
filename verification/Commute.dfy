/// When two records may be restored in either order.
module Commute {
  import opened Wrappers
  import opened Bytes
  import opened FileTree
  import opened PathText
  import opened IoLog
  import opened Restore
  import opened Replay

  /// Neither path is the other or above it.
  predicate Unrelated(p: Path, q: Path) { !(p <= q) && !(q <= p) }

  // ----- what a transferred operation does, path by path -----

  function View(fs: Fs, x: Path): Option<Node> { if x in fs then Some(fs[x]) else None }

  /// A file is in the way to f.
  ghost predicate Blocked(fs: Fs, f: Path) { exists k | 0 < k < |f| :: IsFile(fs, f[..k]) }

  ghost predicate Shielded(fs: Fs, cs: Path, k: nat)
    requires k <= |cs|
  {
    exists j | 0 < j < k :: IsFile(fs, cs[..j])
  }

  lemma AncestorsExist(fs: Fs, cs: Path, k: nat)
    requires Tree(fs) && k <= |cs| && cs[..k] in fs
    ensures forall q | AncestorOrSelf(q, cs, k) :: q in fs
  {
    forall q | AncestorOrSelf(q, cs, k)
      ensures q in fs
    {
      ExistsAbove(fs, cs[..k], |q|);
      assert q == cs[..k][..|q|];
    }
  }

  /// mkdir_p adds all missing ancestors, or, if a file is in the way, none.
  lemma {:induction false} MkdirAllExact(fs: Fs, cs: Path, k: nat)
    requires Tree(fs) && k <= |cs|
    ensures forall q :: q in MkdirAll(fs, cs, k).0 <==> q in fs || (!Shielded(fs, cs, k) && AncestorOrSelf(q, cs, k))
    ensures MkdirAll(fs, cs, k).1 <==> !Shielded(fs, cs, k)
    ensures k > 0 && Shielded(fs, cs, k) ==> cs[..k] !in fs
  {
    if k > 0 {
      MkdirAllExact(fs, cs, k - 1);
      MkdirAllOnlyAdds(fs, cs, k - 1);
      LongestPrefix(cs, k);
      assert Parent(cs[..k]) == cs[..k - 1];
      assert Shielded(fs, cs, k) <==> Shielded(fs, cs, k - 1) || (k > 1 && IsFile(fs, cs[..k - 1]));
      if cs[..k] in fs {
        AncestorsExist(fs, cs, k);
      }
      if k > 1 {
        assert AncestorOrSelf(cs[..k - 1], cs, k - 1);
        if cs[..k - 1] in fs {
          AncestorsExist(fs, cs, k - 1);
        }
      }
    }
  }

  lemma ShieldedBlocked(fs: Fs, f: Path)
    ensures Shielded(fs, f, |f|) <==> Blocked(fs, f)
  {}

  /// The node at x after op was transferred to path f.
  ghost function NodeAfter(fs: Fs, f: Path, op: Op, x: Path): Option<Node>
  {
    match op
    case Mkdir(_) => Added(fs, f, Dir, x)
    case Create(_) => Added(fs, f, File([]), x)
    case Write(_, pos, data) =>
      if x == f && IsFile(fs, f) then Some(File(Spliced(fs[f].content, pos, data))) else View(fs, x)
    case Unlink(_) => if x == f && IsFile(fs, f) then None else View(fs, x)
    case Rmdir(_) => if x == f && f != [] && IsDir(fs, f) && NoChildren(fs, f) then None else View(fs, x)
  }

  ghost function Added(fs: Fs, f: Path, node: Node, x: Path): Option<Node>
  {
    if x in fs then Some(fs[x])
    else if x == [] || !(x <= f) || Blocked(fs, f) then None
    else Some(if x == f then node else Dir)
  }

  lemma TransferredAt(fs: Fs, t: Path, op: Op)
    requires Tree(fs) && op.path != []
    ensures forall x :: View(Transferred(fs, t, op), x) == NodeAfter(fs, t + op.path, op, x)
    ensures Tree(Transferred(fs, t, op))
  {
    var f := t + op.path;
    match op
    case Mkdir(_) => MkdirAt(fs, f);
    case Create(p) =>
      ParentBelow(t, p);
      CreateAt(fs, f);
    case Write(_, pos, data) => TryTree(fs, Write(f, pos, data));
    case Unlink(_) => TryTree(fs, Unlink(f));
    case Rmdir(_) => TryTree(fs, Rmdir(f));
  }

  lemma {:induction false} MkdirAllTree(fs: Fs, cs: Path, k: nat)
    requires Tree(fs) && k <= |cs|
    ensures Tree(MkdirAll(fs, cs, k).0)
  {
    if k > 0 {
      MkdirAllTree(fs, cs, k - 1);
      TryTree(MkdirAll(fs, cs, k - 1).0, Mkdir(cs[..k]));
    }
  }

  lemma MkdirAt(fs: Fs, f: Path)
    requires Tree(fs) && f != []
    ensures forall x :: View(MkdirP(fs, f).0, x) == Added(fs, f, Dir, x)
    ensures Tree(MkdirP(fs, f).0)
  {
    assert f[..|f|] == f;
    MkdirAllExact(fs, f, |f|);
    MkdirAllOnlyAdds(fs, f, |f|);
    MkdirAllTree(fs, f, |f|);
    ShieldedBlocked(fs, f);
  }

  lemma CreateMade(fs: Fs, f: Path)
    requires Tree(fs) && f != []
    ensures var made := MkdirP(fs, Parent(f)).0;
      && Tree(made) && (forall q | q in fs :: q in made && made[q] == fs[q])
      && (forall x :: x in made <==> x in fs || (!Blocked(fs, f) && x != [] && x <= f && x != f))
      && (forall x | x in made && x !in fs :: made[x] == Dir)
      && (IsDir(made, Parent(f)) <==> !Blocked(fs, f))
  {
    var d := Parent(f);
    assert d[..|d|] == d;
    MkdirAllExact(fs, d, |d|);
    MkdirAllOnlyAdds(fs, d, |d|);
    MkdirAllTree(fs, d, |d|);
    BlockedParent(fs, f);
    forall x
      ensures AncestorOrSelf(x, d, |d|) <==> x != [] && x <= f && x != f
    {
      if x <= f && x != f {
        assert x == f[..|x|] == d[..|x|];
      }
    }
    assert d != [] ==> AncestorOrSelf(d, d, |d|);
    if d in fs {
      AncestorsExist(fs, d, |d|);
    }
  }

  lemma CreateAt(fs: Fs, f: Path)
    requires Tree(fs) && f != []
    ensures var made := MkdirP(fs, Parent(f)).0;
      (forall x :: View(Try(made, Create(f)), x) == Added(fs, f, File([]), x)) && Tree(Try(made, Create(f)))
  {
    hide MkdirAll, Blocked;
    CreateMade(fs, f);
    BlockedParent(fs, f);
    TryTree(MkdirP(fs, Parent(f)).0, Create(f));
  }

  /// What is in the way to a path is in the way to its parent, or is the parent.
  lemma BlockedParent(fs: Fs, f: Path)
    requires Tree(fs) && f != []
    ensures Blocked(fs, f) <==> Shielded(fs, Parent(f), |Parent(f)|) || IsFile(fs, Parent(f))
    ensures Blocked(fs, f) ==> f !in fs && !IsDir(fs, Parent(f))
  {
    var d := Parent(f);
    assert forall k | 0 < k < |d| :: d[..k] == f[..k];
    if Blocked(fs, f) {
      var k :| 0 < k < |f| && IsFile(fs, f[..k]);
      assert k == |d| ==> f[..k] == d;
      assert d[..k] == f[..k];
      if IsDir(fs, d) {
        AncestorsAreDirs(fs, d, k);
      }
    }
    if IsFile(fs, d) {
      assert f[..|d|] == d;
    }
  }

  // ----- unrelated paths -----

  lemma SameView(fs: Fs, gs: Fs)
    requires forall x :: View(fs, x) == View(gs, x)
    ensures fs == gs
  {
    assert forall x :: x in fs <==> View(fs, x).Some?;
    assert forall x :: x in gs <==> View(gs, x).Some?;
    assert forall x | x in fs :: View(fs, x) == Some(fs[x]) && View(gs, x) == Some(gs[x]);
  }

  lemma PrefixBelow(t: Path, p: Path, q: Path)
    ensures t + p <= t + q <==> p <= q
  {
    if t + p <= t + q {
      assert p == (t + p)[|t|..] == (t + q)[..|t + p|][|t|..] == q[..|p|];
    }
    if p <= q {
      assert (t + q)[..|t + p|] == t + q[..|p|];
    }
  }

  lemma UnrelatedBelow(t: Path, p: Path, q: Path)
    ensures Unrelated(t + p, t + q) <==> Unrelated(p, q)
  {
    PrefixBelow(t, p, q);
    PrefixBelow(t, q, p);
  }

  /// What an operation at f reads of the tree.
  ghost predicate SameReads(fs: Fs, gs: Fs, f: Path)
  {
    View(fs, f) == View(gs, f) && (Blocked(fs, f) <==> Blocked(gs, f)) && (NoChildren(fs, f) <==> NoChildren(gs, f))
  }

  lemma Through(g: Path, q: Path, f: Path)
    requires g <= q
    ensures q <= f ==> g <= f
  {
    if q <= f {
      assert f[..|q|][..|g|] == f[..|g|];
    }
  }

  /// An operation at f changes nothing that one at the unrelated path g reads.
  lemma ReadsKept(fs: Fs, f: Path, op: Op, g: Path, after: Fs)
    requires Unrelated(f, g) && forall x :: View(after, x) == NodeAfter(fs, f, op, x)
    ensures SameReads(fs, after, g)
  {
    assert g != f && !(g <= f);
    assert View(after, g) == View(fs, g);
    forall k | 0 < k < |g|
      ensures IsFile(after, g[..k]) <==> IsFile(fs, g[..k])
    {
      var x := g[..k];
      assert x <= g && x != f;
      assert View(after, x) == NodeAfter(fs, f, op, x);
      assert IsFile(fs, x) <==> View(fs, x).Some? && View(fs, x).value.File?;
      assert IsFile(after, x) <==> View(after, x).Some? && View(after, x).value.File?;
    }
    forall q | q != [] && Parent(q) == g
      ensures q in after <==> q in fs
    {
      assert g == q[..|g|] && g <= q;
      assert View(after, q) == NodeAfter(fs, f, op, q);
      Through(g, q, f);
    }
  }

  /// The node at a path x that was v, after an operation at f: x is f, or above f, or neither.
  function Changed(op: Op, v: Option<Node>, self: bool, above: bool, blocked: bool, empty: bool): Option<Node>
  {
    match op
    case Mkdir(_) => if v.None? && !blocked && (self || above) then Some(Dir) else v
    case Create(_) => if v.None? && !blocked && (self || above) then Some(if self then File([]) else Dir) else v
    case Write(_, pos, data) =>
      if self && v.Some? && v.value.File? then Some(File(Spliced(v.value.content, pos, data))) else v
    case Unlink(_) => if self && v.Some? && v.value.File? then None else v
    case Rmdir(_) => if self && v == Some(Dir) && empty then None else v
  }

  predicate ProperlyAbove(x: Path, f: Path) { x != [] && x <= f && x != f }

  lemma NodeChanged(fs: Fs, f: Path, op: Op, x: Path)
    requires f != []
    ensures NodeAfter(fs, f, op, x) == Changed(op, View(fs, x), x == f, ProperlyAbove(x, f), Blocked(fs, f), NoChildren(fs, f))
  {
    hide Blocked, NoChildren;
  }

  lemma ChangesCommute(op: Op, other: Op, v: Option<Node>, self: bool, above: bool, blocked: bool, empty: bool,
                       self': bool, above': bool, blocked': bool, empty': bool)
    requires !(self && self') && !(self && above') && !(self' && above)
    ensures Changed(other, Changed(op, v, self, above, blocked, empty), self', above', blocked', empty')
         == Changed(op, Changed(other, v, self', above', blocked', empty'), self, above, blocked, empty)
  {}

  /// What two operations at unrelated paths leave at x.
  lemma NodesCommute(fs: Fs, f: Path, op: Op, g: Path, other: Op, one: Fs, two: Fs, x: Path)
    requires Unrelated(f, g)
    requires forall y :: View(one, y) == NodeAfter(fs, f, op, y)
    requires forall y :: View(two, y) == NodeAfter(fs, g, other, y)
    ensures NodeAfter(one, g, other, x) == NodeAfter(two, f, op, x)
  {
    ReadsKept(fs, f, op, g, one);
    ReadsKept(fs, g, other, f, two);
    hide Blocked, NoChildren, NodeAfter, Changed, View;
    assert f != [] && g != [];
    NodeChanged(fs, f, op, x);
    NodeChanged(fs, g, other, x);
    NodeChanged(one, g, other, x);
    NodeChanged(two, f, op, x);
    ChangesCommute(op, other, View(fs, x), x == f, ProperlyAbove(x, f), Blocked(fs, f), NoChildren(fs, f),
                   x == g, ProperlyAbove(x, g), Blocked(fs, g), NoChildren(fs, g));
  }

  /// Operations at unrelated paths commute, on every tree.
  lemma UnrelatedCommute(fs: Fs, t: Path, op: Op, other: Op)
    requires Tree(fs) && op.path != [] && other.path != [] && Unrelated(op.path, other.path)
    ensures Transferred(Transferred(fs, t, op), t, other) == Transferred(Transferred(fs, t, other), t, op)
  {
    hide Transferred, NodeAfter, View;
    var f, g := t + op.path, t + other.path;
    var one, two := Transferred(fs, t, op), Transferred(fs, t, other);
    UnrelatedBelow(t, op.path, other.path);
    TransferredAt(fs, t, op);
    TransferredAt(fs, t, other);
    TransferredAt(one, t, other);
    TransferredAt(two, t, op);
    forall x
      ensures View(Transferred(one, t, other), x) == View(Transferred(two, t, op), x)
    {
      NodesCommute(fs, f, op, g, other, one, two, x);
    }
    SameView(Transferred(one, t, other), Transferred(two, t, op));
  }
}
