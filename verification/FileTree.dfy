/// File systems as maps from paths to nodes, and the system calls on them.
module FileTree {
  import opened Bytes

  /// The names from the root, or from the working directory, down.
  type Path = seq<string>

  datatype Node = Dir | File(content: seq<Byte>)

  /// The start of all paths is a directory that always exists; it is not in the map.
  type Fs = map<Path, Node>

  predicate Exists(fs: Fs, p: Path) { p == [] || p in fs }

  predicate IsDir(fs: Fs, p: Path) { p == [] || (p in fs && fs[p].Dir?) }

  predicate IsFile(fs: Fs, p: Path) { p != [] && p in fs && fs[p].File? }

  function Parent(p: Path): Path
    requires p != []
  {
    p[..|p| - 1]
  }

  predicate NoChildren(fs: Fs, p: Path) { forall q | q in fs && q != [] :: Parent(q) != p }

  /// Everything is in a directory.
  ghost predicate Tree(fs: Fs) { forall p | p in fs :: p != [] && IsDir(fs, Parent(p)) }

  datatype Op =
    | Mkdir(path: Path)
    | Create(path: Path)
    | Write(path: Path, pos: nat, data: seq<Byte>)
    | Unlink(path: Path)
    | Rmdir(path: Path)

  function Zeros(n: nat): seq<Byte> { seq(n, _ => 0) }

  /// A file after data was written at pos: a gap behind the old end reads as zeros.
  function Spliced(content: seq<Byte>, pos: nat, data: seq<Byte>): seq<Byte>
  {
    var padded := if |content| < pos then content + Zeros(pos - |content|) else content;
    padded[..pos] + data + if pos + |data| <= |content| then content[pos + |data|..] else []
  }

  lemma SplicedAt(content: seq<Byte>, pos: nat, data: seq<Byte>, i: nat)
    ensures |Spliced(content, pos, data)| == if pos + |data| <= |content| then |content| else pos + |data|
    ensures i < |Spliced(content, pos, data)| ==>
      Spliced(content, pos, data)[i]
        == if pos <= i < pos + |data| then data[i - pos] else if i < |content| then content[i] else 0
  {}

  predicate Applicable(fs: Fs, op: Op)
  {
    match op
    case Mkdir(p) => !Exists(fs, p) && IsDir(fs, Parent(p))
    case Create(p) => !Exists(fs, p) && IsDir(fs, Parent(p))
    case Write(p, _, _) => IsFile(fs, p)
    case Unlink(p) => IsFile(fs, p)
    case Rmdir(p) => p != [] && IsDir(fs, p) && NoChildren(fs, p)
  }

  /// The operation, without effect where it does not apply.
  function Try(fs: Fs, op: Op): Fs
  {
    if !Applicable(fs, op) then fs
    else match op
      case Mkdir(p) => fs[p := Dir]
      case Create(p) => fs[p := File([])]
      case Write(p, pos, data) => fs[p := File(Spliced(fs[p].content, pos, data))]
      case Unlink(p) => fs - {p}
      case Rmdir(p) => fs - {p}
  }

  /// No operation touches anything but its own path, or leaves something outside of a directory.
  lemma TryTree(fs: Fs, op: Op)
    requires Tree(fs)
    ensures Tree(Try(fs, op))
    ensures forall q | q != op.path :: q in Try(fs, op) <==> q in fs
    ensures forall q | q != op.path && q in fs :: Try(fs, op)[q] == fs[q]
  {
    var after := Try(fs, op);
    forall q | q in after
      ensures q != [] && IsDir(after, Parent(q))
    {
      assert q == op.path || q in fs;
    }
  }

  /// What each call leaves at its own path, where it applies, and that it changes nothing where it does not.
  lemma CallEffects(fs: Fs, op: Op)
    ensures !Applicable(fs, op) ==> Try(fs, op) == fs
    ensures Applicable(fs, op) ==>
      var (p, after) := (op.path, Try(fs, op));
      && (op.Mkdir? ==> p !in fs && p in after && after[p] == Dir)
      && (op.Create? ==> p !in fs && p in after && after[p] == File([]))
      && (op.Write? ==> p in fs && fs[p].File? && p in after && after[p].File?)
      && (op.Unlink? ==> p in fs && fs[p].File? && p !in after)
      && (op.Rmdir? ==> p in fs && fs[p].Dir? && p !in after && forall q | q in fs && q != [] :: q[..|q| - 1] != p)
      && (op.Mkdir? || op.Create? ==> p != [] && (p[..|p| - 1] == [] || (p[..|p| - 1] in fs && fs[p[..|p| - 1]].Dir?)))
  {}

  lemma {:induction false} AncestorsAreDirs(fs: Fs, p: Path, k: nat)
    requires Tree(fs) && k <= |p| && (IsDir(fs, p) || (Exists(fs, p) && k < |p|))
    ensures IsDir(fs, p[..k])
    decreases |p|
  {
    if k < |p| {
      AncestorsAreDirs(fs, Parent(p), k);
      assert Parent(p)[..k] == p[..k];
    } else {
      assert p[..k] == p;
    }
  }

  // ----- mkdir -p -----

  /// The directories cs[..1], …, cs[..k] in turn, up to the first that cannot be made.
  function MkdirAll(fs: Fs, cs: Path, k: nat): (r: (Fs, bool))
    requires k <= |cs|
  {
    if k == 0 then (fs, true)
    else
      var (made, ok) := MkdirAll(fs, cs, k - 1);
      if !ok then (made, false)
      else (Try(made, Mkdir(cs[..k])), Exists(Try(made, Mkdir(cs[..k])), cs[..k]))
  }

  predicate AncestorOrSelf(q: Path, cs: Path, k: nat)
    requires k <= |cs|
  {
    q != [] && q <= cs[..k]
  }

  /// Whatever was there stays, and only ancestors are added.
  lemma {:induction false} MkdirAllOnlyAdds(fs: Fs, cs: Path, k: nat)
    requires k <= |cs|
    ensures var made := MkdirAll(fs, cs, k).0;
      (forall q | q in fs :: q in made && made[q] == fs[q])
      && forall q | q in made && q !in fs :: AncestorOrSelf(q, cs, k) && made[q] == Dir
  {
    if k > 0 {
      MkdirAllOnlyAdds(fs, cs, k - 1);
      assert cs[..k - 1] == cs[..k][..k - 1];
    }
  }

  /// Where no file is in the way, exactly the missing ancestors are added.
  lemma {:induction false} MkdirAllComplete(fs: Fs, cs: Path, k: nat)
    requires k <= |cs|
    requires forall q | AncestorOrSelf(q, cs, k) && q in fs :: fs[q] == Dir
    ensures MkdirAll(fs, cs, k).1
    ensures forall q :: q in MkdirAll(fs, cs, k).0 <==> q in fs || AncestorOrSelf(q, cs, k)
  {
    MkdirAllOnlyAdds(fs, cs, k);
    if k > 0 {
      assert forall q :: AncestorOrSelf(q, cs, k) <==> AncestorOrSelf(q, cs, k - 1) || q == cs[..k] by {
        LongestPrefix(cs, k);
      }
      MkdirAllComplete(fs, cs, k - 1);
      var made := MkdirAll(fs, cs, k - 1).0;
      MkdirAllOnlyAdds(fs, cs, k - 1);
      assert Parent(cs[..k]) == cs[..k - 1];
      if k > 1 {
        assert AncestorOrSelf(cs[..k - 1], cs, k - 1);
      }
    }
  }

  lemma LongestPrefix(cs: Path, k: nat)
    requires 0 < k <= |cs|
    ensures forall q :: AncestorOrSelf(q, cs, k) <==> AncestorOrSelf(q, cs, k - 1) || q == cs[..k]
  {
    forall q
      ensures AncestorOrSelf(q, cs, k) <==> AncestorOrSelf(q, cs, k - 1) || q == cs[..k]
    {
      assert cs[..k - 1] == cs[..k][..k - 1];
      if AncestorOrSelf(q, cs, k) && |q| < k {
        assert q == cs[..k][..|q|] == cs[..k - 1][..|q|];
      }
    }
  }

  /// The file system of the machine the log is restored on, as the system calls change it.
  class FileSystem {
    var tree: Fs

    constructor (tree: Fs)
      ensures this.tree == tree
    {
      this.tree := tree;
    }

    /// mkdir(2): true, or EEXIST, or another error.
    method MakeDirectory(p: Path) returns (made: bool, eexist: bool)
      modifies this
      ensures tree == Try(old(tree), Mkdir(p))
      ensures made <==> Applicable(old(tree), Mkdir(p))
      ensures eexist <==> Exists(old(tree), p)
    {
      made, eexist := Applicable(tree, Mkdir(p)), Exists(tree, p);
      tree := Try(tree, Mkdir(p));
    }

    /// open(2) with O_CREAT, unlink(2), rmdir(2), or open, lseek and write, errors ignored.
    method Call(op: Op)
      modifies this
      ensures tree == Try(old(tree), op)
    {
      tree := Try(tree, op);
    }
  }
}
