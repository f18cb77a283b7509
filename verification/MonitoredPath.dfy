/// Which operations are backed up: the path built from a dentry, looked up among the monitored
/// directories (getpath.c with rb.c).
module MonitoredPath {
  import opened PathOrder
  import opened PathNames
  import opened MonitorIndex
  import opened DentryPath

  /// Each entry's path is the path of a directory, with a slash behind it.
  ghost predicate Directories(es: seq<Entry>, dir: map<Entry, Dentry>, all: set<Dentry>, root: Dentry)
    requires DentryTree(all, root)
    reads all
  {
    forall e | e in es :: e in dir && dir[e] in all && e.monitorFile == PathOf(all, root, dir[e]) + "/"
  }

  /// No monitored directory is inside another one.
  ghost predicate Antichain(es: seq<Entry>, dir: map<Entry, Dentry>, all: set<Dentry>, root: Dentry)
    requires DentryTree(all, root) && Directories(es, dir, all, root)
    reads all
  {
    forall e, f | e in es && f in es :: !Below(all, root, dir[f], dir[e])
  }

  /// One key begins another exactly when its directory is the same or above.
  lemma KeyOrder(all: set<Dentry>, root: Dentry, d: Dentry, a: Dentry)
    requires DentryTree(all, root) && SiblingsDiffer(all, root) && d in all && a in all
    ensures PathOf(all, root, a) + "/" <= PathOf(all, root, d) <==> Below(all, root, d, a)
    ensures PathOf(all, root, a) + "/" <= PathOf(all, root, d) + "/" <==> a == d || Below(all, root, d, a)
  {
    var cs, ds := Components(all, root, a), Components(all, root, d);
    AncestorNames(all, root, d, a);
    KeyPrefix(cs, ds);
    KeyOfKey(cs, ds);
    if cs == ds {
      ComponentsInjective(all, root, a, d);
    }
  }

  /// For keys of directories, the prefix-free condition that search needs says that no directory is
  /// inside another one.
  lemma AntichainPrefixFree(es: seq<Entry>, dir: map<Entry, Dentry>, all: set<Dentry>, root: Dentry)
    requires DentryTree(all, root) && SiblingsDiffer(all, root) && Directories(es, dir, all, root) && Sorted(es)
    ensures Antichain(es, dir, all, root) <==> PrefixFree(es)
  {
    forall i, j | 0 <= i < |es| && 0 <= j < |es| && i != j
      ensures es[i].monitorFile <= es[j].monitorFile <==> Below(all, root, dir[es[j]], dir[es[i]])
    {
      KeyOrder(all, root, dir[es[j]], dir[es[i]]);
      LessTotal(es[i].monitorFile, es[j].monitorFile);
    }
    forall e | e in es
      ensures !Below(all, root, dir[e], dir[e])
    {
      AncestorNames(all, root, dir[e], dir[e]);
    }
    if PrefixFree(es) {
      forall e, f | e in es && f in es
        ensures !Below(all, root, dir[f], dir[e])
      {
        var i :| 0 <= i < |es| && es[i] == e;
        var j :| 0 <= j < |es| && es[j] == f;
        assert i != j ==> !(es[i].monitorFile <= es[j].monitorFile);
      }
    }
  }

  /// GetMonitorFileEntryByabspath on the path of a dentry finds the monitored directory above it, and
  /// nothing when there is none; at most one monitored directory is above it.
  lemma MonitoredAncestor(s: Shape, dir: map<Entry, Dentry>, all: set<Dentry>, root: Dentry, d: Dentry, e: Entry)
    requires DentryTree(all, root) && SiblingsDiffer(all, root) && d in all
    requires Sorted(Entries(s)) && Directories(Entries(s), dir, all, root) && Antichain(Entries(s), dir, all, root)
    ensures Lookup(s, PathOf(all, root, d)) == e <==> e in Entries(s) && Below(all, root, d, dir[e])
  {
    AntichainPrefixFree(Entries(s), dir, all, root);
    LookupExact(s, PathOf(all, root, d), e);
    if e in Entries(s) {
      KeyOrder(all, root, d, dir[e]);
    }
  }

  lemma NoMonitoredAncestor(s: Shape, dir: map<Entry, Dentry>, all: set<Dentry>, root: Dentry, d: Dentry)
    requires DentryTree(all, root) && SiblingsDiffer(all, root) && d in all
    requires Sorted(Entries(s)) && Directories(Entries(s), dir, all, root) && Antichain(Entries(s), dir, all, root)
    ensures Lookup(s, PathOf(all, root, d)) == null <==> forall e | e in Entries(s) :: !Below(all, root, d, dir[e])
  {
    LookupSound(s, PathOf(all, root, d));
    forall e | e in Entries(s)
      ensures Lookup(s, PathOf(all, root, d)) == e <==> Below(all, root, d, dir[e])
    {
      MonitoredAncestor(s, dir, all, root, d, e);
    }
  }

  /// The path a hook builds in a fresh buffer.
  method FullPath(dentry: Dentry, ghost all: set<Dentry>, ghost root: Dentry) returns (path: string)
    requires DentryTree(all, root) && dentry in all
    ensures path == if dentry == root then "//" else PathOf(all, root, dentry)
  {
    var abspath := new PathBuffer();
    GetAbsFullPath(dentry, abspath, all, root);
    return abspath.text;
  }

  /// The two steps the hooks take before they run the operation: build the path, look it up.
  method MonitoredEntry(index: Index, dentry: Dentry, ghost dir: map<Entry, Dentry>, ghost all: set<Dentry>, ghost root: Dentry)
    returns (pmfe: Entry?)
    requires index.Valid() && DentryTree(all, root) && SiblingsDiffer(all, root) && dentry in all && dentry != root
    requires Directories(Entries(index.shape), dir, all, root) && Antichain(Entries(index.shape), dir, all, root)
    ensures pmfe != null ==> pmfe in Entries(index.shape) && Below(all, root, dentry, dir[pmfe])
    ensures forall e | e in Entries(index.shape) && Below(all, root, dentry, dir[e]) :: pmfe == e
  {
    LinkedAllocated(index.root, index.shape);
    ghost var s, path := index.shape, PathOf(all, root, dentry);
    forall e | e in Entries(s)
      ensures Lookup(s, path) == e <==> Below(all, root, dentry, dir[e])
    {
      MonitoredAncestor(s, dir, all, root, dentry, e);
    }
    LookupSound(s, path);
    var abspath := FullPath(dentry, all, root);
    pmfe := index.Search(abspath);
  }
}
