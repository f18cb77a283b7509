/// The search tree over monitored paths: mi_search, mi_insert and mi_remove of rb.c.
///
/// A Shape is the tree a set of linked nodes forms.  Search and insertion are first studied on shapes;
/// the class runs them on the linked nodes.  Rebalancing is foreign: it is any sequence of rotations.
module MonitorIndex {
  import opened PathOrder

  /// MONITOR_FILE_ENTRY with its embedded rb_node.
  class Entry {
    const monitorFile: string
    var left: Entry?
    var right: Entry?

    constructor (monitorFile: string)
      ensures this.monitorFile == monitorFile
    {
      this.monitorFile, left, right := monitorFile, null, null;
    }
  }

  datatype Shape = Nil | Fork(left: Shape, entry: Entry, right: Shape)

  /// The entries in order.
  function Entries(s: Shape): seq<Entry>
  {
    match s
    case Nil => []
    case Fork(l, e, r) => Entries(l) + [e] + Entries(r)
  }

  ghost predicate Sorted(es: seq<Entry>)
  {
    forall i, j | 0 <= i < j < |es| :: Less(es[i].monitorFile, es[j].monitorFile)
  }

  /// No monitored path begins another one.
  ghost predicate PrefixFree(es: seq<Entry>)
  {
    forall i, j | 0 <= i < |es| && 0 <= j < |es| && i != j :: !(es[i].monitorFile <= es[j].monitorFile)
  }

  predicate Covers(e: Entry, path: string) { e.monitorFile <= path }

  // ----- search -----

  /// The descent of mi_search.
  function Lookup(s: Shape, path: string): Entry?
  {
    match s
    case Nil => null
    case Fork(l, e, r) =>
      var result := StrnCmp(path, e.monitorFile);
      if result < 0 then Lookup(l, path) else if result > 0 then Lookup(r, path) else e
  }

  /// On every tree, an entry that is found covers the path.
  lemma {:induction false} LookupSound(s: Shape, path: string)
    ensures var e := Lookup(s, path); e != null ==> e in Entries(s) && Covers(e, path)
  {
    match s
    case Nil =>
    case Fork(l, e, r) =>
      StrnCmpSign(path, e.monitorFile);
      LookupSound(l, path);
      LookupSound(r, path);
  }

  lemma SubSorted(a: seq<Entry>, e: Entry, b: seq<Entry>)
    requires Sorted(a + [e] + b)
    ensures Sorted(a) && Sorted(b)
    ensures forall x | x in a :: Less(x.monitorFile, e.monitorFile)
    ensures forall x | x in b :: Less(e.monitorFile, x.monitorFile)
  {
    var es := a + [e] + b;
    assert es[|a|] == e;
    forall i, j | 0 <= i < j < |a|
      ensures Less(a[i].monitorFile, a[j].monitorFile)
    {
      assert es[i] == a[i] && es[j] == a[j];
    }
    forall i, j | 0 <= i < j < |b|
      ensures Less(b[i].monitorFile, b[j].monitorFile)
    {
      assert es[|a| + 1 + i] == b[i] && es[|a| + 1 + j] == b[j];
    }
    forall x | x in a
      ensures Less(x.monitorFile, e.monitorFile)
    {
      var i :| 0 <= i < |a| && a[i] == x;
      assert es[i] == x;
    }
    forall x | x in b
      ensures Less(e.monitorFile, x.monitorFile)
    {
      var i :| 0 <= i < |b| && b[i] == x;
      assert es[|a| + 1 + i] == x;
    }
  }

  lemma SubPrefixFree(a: seq<Entry>, e: Entry, b: seq<Entry>)
    requires PrefixFree(a + [e] + b)
    ensures PrefixFree(a) && PrefixFree(b)
    ensures forall x | x in a + b :: !Covers(x, e.monitorFile) && !Covers(e, x.monitorFile)
  {
    var es := a + [e] + b;
    assert es[|a|] == e;
    forall i, j | 0 <= i < |a| && 0 <= j < |a| && i != j
      ensures !(a[i].monitorFile <= a[j].monitorFile)
    {
      assert es[i] == a[i] && es[j] == a[j];
    }
    forall i, j | 0 <= i < |b| && 0 <= j < |b| && i != j
      ensures !(b[i].monitorFile <= b[j].monitorFile)
    {
      assert es[|a| + 1 + i] == b[i] && es[|a| + 1 + j] == b[j];
    }
    forall x | x in a + b
      ensures !Covers(x, e.monitorFile) && !Covers(e, x.monitorFile)
    {
      var i :| 0 <= i < |a + b| && (a + b)[i] == x;
      assert if i < |a| then es[i] == x else es[i + 1] == x;
    }
  }

  /// On a sorted prefix-free tree the descent finds the entry that covers the path.
  lemma {:induction false} LookupComplete(s: Shape, path: string, x: Entry)
    requires Sorted(Entries(s)) && PrefixFree(Entries(s)) && x in Entries(s) && Covers(x, path)
    ensures Lookup(s, path) == x
  {
    var Fork(l, e, r) := s;
    SubSorted(Entries(l), e, Entries(r));
    SubPrefixFree(Entries(l), e, Entries(r));
    StrnCmpSign(path, e.monitorFile);
    if x == e {
    } else if x in Entries(l) {
      LessTotal(x.monitorFile, e.monitorFile);
      if StrnCmp(path, e.monitorFile) > 0 {
        KeyBelowPrefix(x.monitorFile, path, e.monitorFile);
      } else if StrnCmp(path, e.monitorFile) == 0 {
        BothCover(x, e, path);
      } else {
        LookupComplete(l, path, x);
      }
    } else {
      LessTotal(x.monitorFile, e.monitorFile);
      if StrnCmp(path, e.monitorFile) < 0 {
        PrefixLess(x.monitorFile, path);
        if x.monitorFile != path {
          LessTransitive(x.monitorFile, path, e.monitorFile);
        }
      } else if StrnCmp(path, e.monitorFile) == 0 {
        BothCover(x, e, path);
      } else {
        LookupComplete(r, path, x);
      }
    }
  }

  /// Two prefixes of one path: one begins the other.
  lemma BothCover(x: Entry, y: Entry, path: string)
    requires Covers(x, path) && Covers(y, path)
    ensures Covers(x, y.monitorFile) || Covers(y, x.monitorFile)
  {
    var k := x.monitorFile;
    var m := y.monitorFile;
    assert if |k| <= |m| then m[..|k|] == path[..|k|] == k else k[..|m|] == path[..|m|] == m;
  }

  /// mi_search on a prefix-free tree returns exactly the covering entry: there is at most one, and NULL
  /// means there is none.
  lemma LookupExact(s: Shape, path: string, x: Entry)
    requires Sorted(Entries(s)) && PrefixFree(Entries(s))
    ensures x in Entries(s) && Covers(x, path) <==> Lookup(s, path) == x
  {
    LookupSound(s, path);
    if x in Entries(s) && Covers(x, path) {
      LookupComplete(s, path, x);
    }
  }

  /// The answer does not depend on the shape of the tree.
  lemma ShapeIndependent(s: Shape, t: Shape, path: string)
    requires Entries(s) == Entries(t) && Sorted(Entries(s)) && PrefixFree(Entries(s))
    ensures Lookup(s, path) == Lookup(t, path)
  {
    LookupSound(s, path);
    LookupSound(t, path);
    if Lookup(s, path) != null {
      LookupComplete(t, path, Lookup(s, path));
    } else if Lookup(t, path) != null {
      LookupComplete(s, path, Lookup(t, path));
    }
  }

  /// With nested monitored paths it may: the tree rooted at /a/b/ loses /a/ for the path /a/c.
  lemma NestedPathsDependOnShape(a: Entry, b: Entry)
    requires a.monitorFile == "/a/" && b.monitorFile == "/a/b/"
    ensures var s, t := Fork(Nil, a, Fork(Nil, b, Nil)), Fork(Fork(Nil, a, Nil), b, Nil);
      Entries(s) == Entries(t) && Sorted(Entries(s)) && Lookup(s, "/a/c") == a && Lookup(t, "/a/c") == null
  {
    assert Entries(Fork(Nil, a, Fork(Nil, b, Nil))) == [a, b];
    assert Entries(Fork(Fork(Nil, a, Nil), b, Nil)) == [a, b];
    StrnCmpSign("/a/c", "/a/");
    var tail := "b/";
    assert StrnCmp("c", tail) > 0;
    assert "/a/c"[1..][1..][1..] == "c" && "/a/b/"[1..][1..][1..] == tail;
    assert Less("/a/", "/a/b/") by {
      PrefixLess("/a/", "/a/b/");
    }
    assert StrnCmp("/a/c", "/a/b/") > 0;
  }

  /// A tree that leans to the right.
  function Spine(es: seq<Entry>): (s: Shape)
    ensures Entries(s) == es
  {
    if es == [] then Nil else Fork(Nil, es[0], Spine(es[1..]))
  }

  /// The tree over es with es[k] at its root.
  function RootedAt(es: seq<Entry>, k: nat): (s: Shape)
    requires k < |es|
    ensures Entries(s) == es
  {
    Fork(Spine(es[..k]), es[k], Spine(es[k + 1..]))
  }

  /// Two nested keys: rooted at either of them, the tree finds that one for the longer key.
  lemma NestedDiffer(es: seq<Entry>, i: nat, j: nat)
    requires Sorted(es) && i < |es| && j < |es| && i != j && Covers(es[i], es[j].monitorFile)
    ensures Lookup(RootedAt(es, i), es[j].monitorFile) == es[i]
    ensures Lookup(RootedAt(es, j), es[j].monitorFile) == es[j]
    ensures es[i] != es[j]
  {
    StrnCmpSign(es[j].monitorFile, es[i].monitorFile);
    StrnCmpSign(es[j].monitorFile, es[j].monitorFile);
    LessTotal(es[i].monitorFile, es[j].monitorFile);
  }

  /// All trees over the same keys answer alike if and only if no key begins another one.
  lemma ShapesAgreeExactly(es: seq<Entry>)
    requires Sorted(es)
    ensures PrefixFree(es) <==>
      forall s, t, path | Entries(s) == es && Entries(t) == es :: Lookup(s, path) == Lookup(t, path)
  {
    if PrefixFree(es) {
      forall s, t, path | Entries(s) == es && Entries(t) == es
        ensures Lookup(s, path) == Lookup(t, path)
      {
        ShapeIndependent(s, t, path);
      }
    } else {
      var i, j :| 0 <= i < |es| && 0 <= j < |es| && i != j && es[i].monitorFile <= es[j].monitorFile;
      NestedDiffer(es, i, j);
      assert Entries(RootedAt(es, i)) == es && Entries(RootedAt(es, j)) == es;
    }
  }

  // ----- insertion -----

  /// The descent of mi_insert, with the new entry linked where it ends.  An entry that the descent
  /// finds equal rejects the new one.
  function Linked(s: Shape, data: Entry): Shape
  {
    match s
    case Nil => Fork(Nil, data, Nil)
    case Fork(l, e, r) =>
      var result := StrnCmp(data.monitorFile, e.monitorFile);
      if result < 0 then Fork(Linked(l, data), e, r)
      else if result > 0 then Fork(l, e, Linked(r, data))
      else s
  }

  function InsertedAt(es: seq<Entry>, k: nat, data: Entry): seq<Entry>
    requires k <= |es|
  {
    es[..k] + [data] + es[k..]
  }

  lemma InsertLeft(a: seq<Entry>, e: Entry, b: seq<Entry>, k: nat, data: Entry)
    requires k <= |a|
    ensures InsertedAt(a, k, data) + [e] + b == InsertedAt(a + [e] + b, k, data)
  {
    assert (a + [e] + b)[..k] == a[..k] && (a + [e] + b)[k..] == a[k..] + [e] + b;
  }

  lemma InsertRight(a: seq<Entry>, e: Entry, b: seq<Entry>, k: nat, data: Entry)
    requires k <= |b|
    ensures a + [e] + InsertedAt(b, k, data) == InsertedAt(a + [e] + b, |a| + 1 + k, data)
  {
    var i := |a| + 1 + k;
    assert (a + [e] + b)[..i] == a + [e] + b[..k] && (a + [e] + b)[i..] == b[k..];
  }

  /// The new entry goes between two neighbours, and nothing else moves.
  lemma {:induction false} LinkedEntries(s: Shape, data: Entry) returns (k: nat)
    requires Lookup(s, data.monitorFile) == null
    ensures k <= |Entries(s)| && Entries(Linked(s, data)) == InsertedAt(Entries(s), k, data)
  {
    match s
    case Nil =>
      k := 0;
    case Fork(l, e, r) =>
      if StrnCmp(data.monitorFile, e.monitorFile) < 0 {
        k := LinkedEntries(l, data);
        InsertLeft(Entries(l), e, Entries(r), k, data);
      } else {
        k := LinkedEntries(r, data);
        InsertRight(Entries(l), e, Entries(r), k, data);
        k := |Entries(l)| + 1 + k;
      }
  }

  /// Although the comparison is truncated, insertion keeps the lexicographic order, on every tree.
  lemma {:induction false} LinkedSorted(s: Shape, data: Entry)
    requires Sorted(Entries(s)) && Lookup(s, data.monitorFile) == null
    ensures Sorted(Entries(Linked(s, data)))
  {
    match s
    case Nil =>
    case Fork(l, e, r) =>
      SubSorted(Entries(l), e, Entries(r));
      StrnCmpSign(data.monitorFile, e.monitorFile);
      if StrnCmp(data.monitorFile, e.monitorFile) < 0 {
        LinkedSorted(l, data);
        var k := LinkedEntries(l, data);
        forall x | x in Entries(Linked(l, data))
          ensures Less(x.monitorFile, e.monitorFile)
        {
          assert x in Entries(l) || x == data;
        }
        Joined(Entries(Linked(l, data)), e, Entries(r));
      } else {
        LinkedSorted(r, data);
        var k := LinkedEntries(r, data);
        forall x | x in Entries(Linked(r, data))
          ensures Less(e.monitorFile, x.monitorFile)
        {
          assert x in Entries(r) || x == data;
        }
        Joined(Entries(l), e, Entries(Linked(r, data)));
      }
  }

  lemma Joined(a: seq<Entry>, e: Entry, b: seq<Entry>)
    requires Sorted(a) && Sorted(b)
    requires forall x | x in a :: Less(x.monitorFile, e.monitorFile)
    requires forall x | x in b :: Less(e.monitorFile, x.monitorFile)
    ensures Sorted(a + [e] + b)
  {
    var es := a + [e] + b;
    forall i, j | 0 <= i < j < |es|
      ensures Less(es[i].monitorFile, es[j].monitorFile)
    {
      if i < |a| && j > |a| {
        assert es[i] in a && es[j] in b;
        LessTransitive(es[i].monitorFile, e.monitorFile, es[j].monitorFile);
      } else if i < |a| {
        assert es[i] == a[i];
        assert j < |a| ==> es[j] == a[j];
      } else {
        assert es[j] == b[j - |a| - 1];
        assert i > |a| ==> es[i] == b[i - |a| - 1];
      }
    }
  }

  lemma InsertedAtIndex(es: seq<Entry>, k: nat, data: Entry)
    requires k <= |es|
    ensures |InsertedAt(es, k, data)| == |es| + 1 && InsertedAt(es, k, data)[k] == data
    ensures forall i | 0 <= i <= |es| && i != k :: InsertedAt(es, k, data)[i] == es[if i < k then i else i - 1]
  {}

  /// A new entry that neither covers nor is covered keeps a sequence prefix-free.
  lemma InsertedPrefixFree(es: seq<Entry>, k: nat, data: Entry)
    requires k <= |es| && PrefixFree(es) && forall e | e in es :: !Covers(e, data.monitorFile) && !Covers(data, e.monitorFile)
    ensures PrefixFree(InsertedAt(es, k, data))
  {
    hide InsertedAt;
    var fs := InsertedAt(es, k, data);
    InsertedAtIndex(es, k, data);
    forall i, j | 0 <= i < |fs| && 0 <= j < |fs| && i != j
      ensures !(fs[i].monitorFile <= fs[j].monitorFile)
    {
      assert i != k ==> fs[i] in es;
      assert j != k ==> fs[j] in es;
    }
  }

  /// One that covers an entry does not.
  lemma CoveringNotPrefixFree(es: seq<Entry>, k: nat, data: Entry, e: Entry)
    requires k <= |es| && e in es && Covers(data, e.monitorFile)
    ensures !PrefixFree(InsertedAt(es, k, data))
  {
    hide InsertedAt;
    InsertedAtIndex(es, k, data);
    var i :| 0 <= i < |es| && es[i] == e;
    assert InsertedAt(es, k, data)[if i < k then i else i + 1] == e;
  }

  /// On a prefix-free tree an insertion is rejected exactly when an entry covers the new path, and an
  /// accepted one keeps the tree prefix-free exactly when the new path covers no entry.
  lemma InsertionPrefixFree(s: Shape, data: Entry)
    requires Sorted(Entries(s)) && PrefixFree(Entries(s))
    ensures Lookup(s, data.monitorFile) != null <==> exists e | e in Entries(s) :: Covers(e, data.monitorFile)
    ensures Lookup(s, data.monitorFile) == null ==>
      (PrefixFree(Entries(Linked(s, data))) <==> forall e | e in Entries(s) :: !Covers(data, e.monitorFile))
  {
    hide PrefixFree, Sorted, InsertedAt;
    LookupSound(s, data.monitorFile);
    forall e | e in Entries(s) && Covers(e, data.monitorFile)
      ensures Lookup(s, data.monitorFile) != null
    {
      LookupComplete(s, data.monitorFile, e);
    }
    if Lookup(s, data.monitorFile) == null {
      var k := LinkedEntries(s, data);
      if e :| e in Entries(s) && Covers(data, e.monitorFile) {
        CoveringNotPrefixFree(Entries(s), k, data, e);
      } else {
        InsertedPrefixFree(Entries(s), k, data);
      }
    }
  }

  // ----- removal -----

  /// The least entry of a tree and the rest.
  function PopMin(s: Shape): (Entry, Shape)
    requires s.Fork?
  {
    if s.left.Nil? then (s.entry, s.right)
    else var (min, rest) := PopMin(s.left); (min, Fork(rest, s.entry, s.right))
  }

  /// rb_erase of the entry the descent finds: a single child, or the successor, takes its place.
  function Removed(s: Shape, path: string): Shape
  {
    match s
    case Nil => Nil
    case Fork(l, e, r) =>
      var result := StrnCmp(path, e.monitorFile);
      if result < 0 then Fork(Removed(l, path), e, r)
      else if result > 0 then Fork(l, e, Removed(r, path))
      else if l.Nil? then r
      else if r.Nil? then l
      else Fork(l, PopMin(r).0, PopMin(r).1)
  }

  lemma {:induction false} PopMinEntries(s: Shape)
    requires s.Fork?
    ensures Entries(s) == [PopMin(s).0] + Entries(PopMin(s).1)
  {
    if s.left.Fork? {
      PopMinEntries(s.left);
    }
  }

  function RemovedAt(es: seq<Entry>, k: nat): seq<Entry>
    requires k < |es|
  {
    es[..k] + es[k + 1..]
  }

  lemma RemoveLeft(a: seq<Entry>, e: Entry, b: seq<Entry>, k: nat)
    requires k < |a|
    ensures RemovedAt(a, k) + [e] + b == RemovedAt(a + [e] + b, k) && (a + [e] + b)[k] == a[k]
  {
    assert (a + [e] + b)[..k] == a[..k] && (a + [e] + b)[k + 1..] == a[k + 1..] + [e] + b;
  }

  lemma RemoveRight(a: seq<Entry>, e: Entry, b: seq<Entry>, k: nat)
    requires k < |b|
    ensures a + [e] + RemovedAt(b, k) == RemovedAt(a + [e] + b, |a| + 1 + k) && (a + [e] + b)[|a| + 1 + k] == b[k]
  {
    var i := |a| + 1 + k;
    assert (a + [e] + b)[..i] == a + [e] + b[..k] && (a + [e] + b)[i + 1..] == b[k + 1..];
  }

  lemma RemoveMiddle(a: seq<Entry>, e: Entry, b: seq<Entry>)
    ensures a + b == RemovedAt(a + [e] + b, |a|) && (a + [e] + b)[|a|] == e
  {
    assert (a + [e] + b)[..|a|] == a && (a + [e] + b)[|a| + 1..] == b;
  }

  /// Exactly the entry that mi_search returns leaves the sequence.
  lemma {:induction false} RemovedEntries(s: Shape, path: string) returns (k: nat)
    ensures Lookup(s, path) == null ==> Entries(Removed(s, path)) == Entries(s)
    ensures Lookup(s, path) != null ==>
      k < |Entries(s)| && Entries(s)[k] == Lookup(s, path) && Entries(Removed(s, path)) == RemovedAt(Entries(s), k)
  {
    match s
    case Nil =>
      k := 0;
    case Fork(l, e, r) =>
      var result := StrnCmp(path, e.monitorFile);
      if result < 0 {
        k := RemovedEntries(l, path);
        if Lookup(l, path) != null {
          RemoveLeft(Entries(l), e, Entries(r), k);
        }
      } else if result > 0 {
        k := RemovedEntries(r, path);
        if Lookup(r, path) != null {
          RemoveRight(Entries(l), e, Entries(r), k);
        }
        k := |Entries(l)| + 1 + k;
      } else {
        k := |Entries(l)|;
        RemoveMiddle(Entries(l), e, Entries(r));
        RemovedRoot(l, r);
      }
  }

  lemma RemovedRoot(l: Shape, r: Shape)
    ensures Entries(if l.Nil? then r else if r.Nil? then l else Fork(l, PopMin(r).0, PopMin(r).1))
         == Entries(l) + Entries(r)
  {
    if r.Fork? {
      PopMinEntries(r);
    }
  }

  lemma WithoutOne(es: seq<Entry>, k: nat)
    requires k < |es| && Sorted(es)
    ensures var fs := RemovedAt(es, k);
      Sorted(fs) && (PrefixFree(es) ==> PrefixFree(fs))
      && forall e :: e in fs <==> e in es && e != es[k]
  {
    var fs := RemovedAt(es, k);
    assert forall i | 0 <= i < |fs| :: fs[i] == es[if i < k then i else i + 1];
    forall e | e in fs
      ensures e in es && e != es[k]
    {
      var i :| 0 <= i < |fs| && fs[i] == e;
      var j := if i < k then i else i + 1;
      assert es[j] == e;
      LessTotal(e.monitorFile, e.monitorFile);
      assert if j < k then Less(es[j].monitorFile, es[k].monitorFile) else Less(es[k].monitorFile, es[j].monitorFile);
    }
    forall e | e in es && e != es[k]
      ensures e in fs
    {
      var i :| 0 <= i < |es| && es[i] == e;
      assert fs[if i < k then i else i - 1] == e;
    }
  }

  /// mi_remove(path) takes out exactly the entry that mi_search(path) returns.
  lemma RemovalExact(s: Shape, path: string)
    requires Sorted(Entries(s))
    ensures var es := Entries(Removed(s, path));
      Sorted(es) && (PrefixFree(Entries(s)) ==> PrefixFree(es))
      && forall e: Entry :: e in es <==> e in Entries(s) && e != Lookup(s, path)
  {
    LookupSound(s, path);
    var k := RemovedEntries(s, path);
    if Lookup(s, path) != null {
      WithoutOne(Entries(s), k);
    }
  }

  /// After mi_remove(path) on a prefix-free tree no entry covers the path, and every entry that did not
  /// cover it is still there.
  lemma RemovalComplete(s: Shape, path: string)
    requires Sorted(Entries(s)) && PrefixFree(Entries(s))
    ensures var es := Entries(Removed(s, path));
      (forall e | e in es :: !Covers(e, path)) && forall e | e in Entries(s) && !Covers(e, path) :: e in es
  {
    LookupSound(s, path);
    RemovalExact(s, path);
    var es := Entries(Removed(s, path));
    forall e | e in es
      ensures !Covers(e, path)
    {
      if Covers(e, path) {
        LookupComplete(s, path, e);
      }
    }
    forall e | e in Entries(s) && !Covers(e, path)
      ensures e in es
    {
      assert e != Lookup(s, path);
    }
  }

  // ----- rebalancing -----

  /// A rotation at the node reached by going left (true) or right along a path.
  datatype Rotation = Rotation(path: seq<bool>, toLeft: bool)

  function Rotated(s: Shape, path: seq<bool>, toLeft: bool): Shape
    decreases |path|
  {
    match s
    case Nil => Nil
    case Fork(l, e, r) =>
      if path != [] && path[0] then Fork(Rotated(l, path[1..], toLeft), e, r)
      else if path != [] then Fork(l, e, Rotated(r, path[1..], toLeft))
      else if toLeft && r.Fork? then Fork(Fork(l, e, r.left), r.entry, r.right)
      else if !toLeft && l.Fork? then Fork(l.left, l.entry, Fork(l.right, e, r))
      else s
  }

  function Rebalanced(s: Shape, rotations: seq<Rotation>): Shape
    decreases |rotations|
  {
    if rotations == [] then s
    else Rebalanced(Rotated(s, rotations[0].path, rotations[0].toLeft), rotations[1..])
  }

  lemma {:induction false} RotatedEntries(s: Shape, path: seq<bool>, toLeft: bool)
    ensures Entries(Rotated(s, path, toLeft)) == Entries(s)
    decreases |path|
  {
    match s
    case Nil =>
    case Fork(l, e, r) =>
      if path != [] {
        RotatedEntries(if path[0] then l else r, path[1..], toLeft);
      }
  }

  lemma {:induction false} RebalancedEntries(s: Shape, rotations: seq<Rotation>)
    ensures Entries(Rebalanced(s, rotations)) == Entries(s)
    decreases |rotations|
  {
    if rotations != [] {
      RotatedEntries(s, rotations[0].path, rotations[0].toLeft);
      RebalancedEntries(Rotated(s, rotations[0].path, rotations[0].toLeft), rotations[1..]);
    }
  }

  // ----- linked nodes -----

  ghost function NodeSet(s: Shape): set<Entry>
  {
    match s
    case Nil => {}
    case Fork(l, e, r) => NodeSet(l) + {e} + NodeSet(r)
  }

  /// The nodes linked from n have shape s.
  ghost predicate Is(n: Entry?, s: Shape)
    reads NodeSet(s)
  {
    match s
    case Nil => n == null
    case Fork(l, e, r) => n == e && Is(e.left, l) && Is(e.right, r)
  }

  ghost predicate NoDup(s: Shape)
  {
    match s
    case Nil => true
    case Fork(l, e, r) =>
      e !in NodeSet(l) + NodeSet(r) && NodeSet(l) !! NodeSet(r) && NoDup(l) && NoDup(r)
  }

  /// The node under which the descent of an accepted insertion links the new one.
  ghost function Tip(s: Shape, path: string): Entry?
  {
    match s
    case Nil => null
    case Fork(l, e, r) =>
      var below := if StrnCmp(path, e.monitorFile) < 0 then l else r;
      if below.Nil? then e else Tip(below, path)
  }

  lemma TipInside(s: Shape, path: string)
    ensures s.Fork? ==> Tip(s, path) in NodeSet(s)
  {}

  lemma {:induction false} LinkedNodes(s: Shape, data: Entry)
    requires NoDup(s) && data !in NodeSet(s) && Lookup(s, data.monitorFile) == null
    ensures NoDup(Linked(s, data)) && NodeSet(Linked(s, data)) == NodeSet(s) + {data}
  {
    match s
    case Nil =>
    case Fork(l, e, r) =>
      if StrnCmp(data.monitorFile, e.monitorFile) < 0 {
        LinkedNodes(l, data);
      } else {
        LinkedNodes(r, data);
      }
  }

  type Links = map<Entry, (Entry?, Entry?)>

  /// The nodes linked from n had shape s when their links were recorded.
  ghost predicate Was(links: Links, n: Entry?, s: Shape)
  {
    match s
    case Nil => n == null
    case Fork(l, e, r) => n == e && e in links && Was(links, links[e].0, l) && Was(links, links[e].1, r)
  }

  lemma {:induction false} WasIs(links: Links, n: Entry?, s: Shape)
    requires forall x | x in NodeSet(s) :: x in links && x.left == links[x].0 && x.right == links[x].1
    ensures Was(links, n, s) <==> Is(n, s)
    decreases s
  {
    if s.Fork? {
      WasIs(links, s.entry.left, s.left);
      WasIs(links, s.entry.right, s.right);
    }
  }

  /// Setting one child pointer of the tip turns the shape into the linked one.
  lemma {:induction false} LinkTip(links: Links, n: Entry?, s: Shape, data: Entry, tip: Entry)
    requires s.Fork? && Was(links, n, s) && NoDup(s) && data !in NodeSet(s) && Lookup(s, data.monitorFile) == null
    requires data.left == null && data.right == null && tip == Tip(s, data.monitorFile) && tip in links
    requires forall x | x in NodeSet(s) && x != tip :: x in links && x.left == links[x].0 && x.right == links[x].1
    requires StrnCmp(data.monitorFile, tip.monitorFile) < 0 ==> tip.left == data && tip.right == links[tip].1
    requires StrnCmp(data.monitorFile, tip.monitorFile) >= 0 ==> tip.left == links[tip].0 && tip.right == data
    ensures Is(n, Linked(s, data))
    decreases s
  {
    var Fork(l, e, r) := s;
    TipInside(l, data.monitorFile);
    TipInside(r, data.monitorFile);
    if StrnCmp(data.monitorFile, e.monitorFile) < 0 {
      if l.Fork? {
        LinkTip(links, e.left, l, data, tip);
      }
      WasIs(links, e.right, r);
    } else {
      if r.Fork? {
        LinkTip(links, e.right, r, data, tip);
      }
      WasIs(links, e.left, l);
    }
  }

  lemma LinkedAllocated(n: Entry?, s: Shape)
    requires Is(n, s)
    ensures forall x | x in NodeSet(s) :: allocated(x)
    decreases s
  {
    if s.Fork? {
      LinkedAllocated(s.entry.left, s.left);
      LinkedAllocated(s.entry.right, s.right);
    }
  }

  /// One rotation of linked nodes; what rb_insert_color and rb_erase do to the shape is made of these.
  method Rotate(n: Entry?, ghost s: Shape, path: seq<bool>, toLeft: bool) returns (m: Entry?)
    requires Is(n, s) && NoDup(s)
    modifies NodeSet(s)
    ensures Is(m, Rotated(s, path, toLeft)) && NoDup(Rotated(s, path, toLeft))
    ensures NodeSet(Rotated(s, path, toLeft)) == NodeSet(s)
    decreases |path|
  {
    if n == null {
      return null;
    }
    LinkedAllocated(n, s);
    if path != [] && path[0] {
      var child := Rotate(n.left, s.left, path[1..], toLeft);
      n.left := child;
      return n;
    }
    if path != [] {
      var child := Rotate(n.right, s.right, path[1..], toLeft);
      n.right := child;
      return n;
    }
    if toLeft && n.right != null {
      m := n.right;
      n.right := m.left;
      m.left := n;
      return m;
    }
    if !toLeft && n.left != null {
      m := n.left;
      n.left := m.right;
      m.right := n;
      return m;
    }
    return n;
  }

  /// Unlink the least node.
  method UnlinkMin(n: Entry, ghost s: Shape) returns (min: Entry, rest: Entry?)
    requires Is(n, s) && NoDup(s)
    modifies NodeSet(s)
    ensures min == PopMin(s).0 && Is(rest, PopMin(s).1) && NoDup(PopMin(s).1)
    ensures NodeSet(PopMin(s).1) == NodeSet(s) - {min} && min in NodeSet(s)
    decreases s
  {
    if n.left == null {
      return n, n.right;
    }
    LinkedAllocated(n, s);
    var child: Entry?;
    min, child := UnlinkMin(n.left, s.left);
    n.left := child;
    rest := n;
  }

  /// rb_erase of the node the descent for path finds, without rebalancing.
  method Unlink(n: Entry?, ghost s: Shape, path: string) returns (m: Entry?)
    requires Is(n, s) && NoDup(s)
    modifies NodeSet(s)
    ensures Is(m, Removed(s, path)) && NoDup(Removed(s, path)) && NodeSet(Removed(s, path)) <= NodeSet(s)
    decreases s
  {
    if n == null {
      return null;
    }
    LinkedAllocated(n, s);
    var result := StrnCmp(path, n.monitorFile);
    if result < 0 {
      var child := Unlink(n.left, s.left, path);
      n.left := child;
      return n;
    }
    if result > 0 {
      var child := Unlink(n.right, s.right, path);
      n.right := child;
      return n;
    }
    if n.left == null {
      return n.right;
    }
    if n.right == null {
      return n.left;
    }
    var min, rest := UnlinkMin(n.right, s.right);
    min.left := n.left;
    min.right := rest;
    return min;
  }

  class Index {
    var root: Entry?
    ghost var shape: Shape

    ghost predicate Valid()
      reads this, NodeSet(shape)
    {
      Is(root, shape) && NoDup(shape) && Sorted(Entries(shape))
    }

    constructor ()
      ensures Valid() && Entries(shape) == []
    {
      root, shape := null, Nil;
    }

    /// mi_search
    method Search(pathname: string) returns (data: Entry?)
      requires Valid()
      ensures data == Lookup(shape, pathname)
    {
      var node := root;
      ghost var sub := shape;
      while node != null
        invariant Is(node, sub) && Lookup(sub, pathname) == Lookup(shape, pathname)
        decreases sub
      {
        var result := StrnCmp(pathname, node.monitorFile);
        if result < 0 {
          node, sub := node.left, sub.left;
        } else if result > 0 {
          node, sub := node.right, sub.right;
        } else {
          return node;
        }
      }
      return null;
    }

    method Rebalance(rotations: seq<Rotation>)
      requires Valid()
      modifies this, NodeSet(shape)
      ensures Valid() && shape == Rebalanced(old(shape), rotations) && Entries(shape) == old(Entries(shape))
      ensures NodeSet(shape) == old(NodeSet(shape))
    {
      ghost var start := shape;
      var k := 0;
      while k < |rotations|
        invariant k <= |rotations| && Valid() && NodeSet(shape) == NodeSet(start)
        invariant Entries(shape) == Entries(start)
        invariant Rebalanced(shape, rotations[k..]) == Rebalanced(start, rotations)
      {
        var rotation := rotations[k];
        RotatedEntries(shape, rotation.path, rotation.toLeft);
        root := Rotate(root, shape, rotation.path, rotation.toLeft);
        shape := Rotated(shape, rotation.path, rotation.toLeft);
        assert rotations[k..][1..] == rotations[k + 1..];
        k := k + 1;
      }
    }

    /// mi_insert: follow the links to a null one, link the entry there, rebalance.
    method Insert(data: Entry, rotations: seq<Rotation>) returns (ret: int)
      requires Valid() && data !in NodeSet(shape)
      modifies this, NodeSet(shape), data
      ensures Valid()
      ensures ret == if old(Lookup(shape, data.monitorFile)) == null then 0 else -1
      ensures ret != 0 ==> shape == old(shape)
      ensures ret == 0 ==> shape == Rebalanced(Linked(old(shape), data), rotations)
                           && Entries(shape) == Entries(Linked(old(shape), data))
    {
      var node, below := root, false;
      var parent: Entry? := null;
      ghost var sub, key := shape, data.monitorFile;
      while node != null
        invariant Is(node, sub) && Lookup(sub, key) == Lookup(shape, key)
        invariant parent == null ==> sub == shape
        invariant parent != null ==> shape.Fork? && parent in NodeSet(shape) && below == (StrnCmp(key, parent.monitorFile) < 0)
        invariant parent != null ==> Tip(shape, key) == if sub.Nil? then parent else Tip(sub, key)
        invariant NodeSet(sub) <= NodeSet(shape)
        decreases sub
      {
        var result := StrnCmp(data.monitorFile, node.monitorFile);
        parent := node;
        if result < 0 {
          node, sub, below := node.left, sub.left, true;
        } else if result > 0 {
          node, sub, below := node.right, sub.right, false;
        } else {
          return -1;
        }
      }
      LinkedSorted(shape, data);
      LinkedNodes(shape, data);
      ghost var links := map x | x in NodeSet(shape) :: (x.left, x.right);
      WasIs(links, root, shape);
      data.left, data.right := null, null;
      if parent == null {
        root := data;
      } else if below {
        parent.left := data;
        LinkTip(links, root, shape, data, parent);
      } else {
        parent.right := data;
        LinkTip(links, root, shape, data, parent);
      }
      shape := Linked(shape, data);
      Rebalance(rotations);
      return 0;
    }

    /// mi_remove
    method Remove(pathname: string, rotations: seq<Rotation>) returns (data: Entry?)
      requires Valid()
      modifies this, NodeSet(shape)
      ensures Valid() && data == Lookup(old(shape), pathname)
      ensures data == null ==> shape == old(shape)
      ensures data != null ==> shape == Rebalanced(Removed(old(shape), pathname), rotations)
      ensures forall e: Entry :: e in Entries(shape) <==> e in old(Entries(shape)) && e != data
      ensures old(PrefixFree(Entries(shape))) ==>
        PrefixFree(Entries(shape)) && forall e | e in Entries(shape) :: !Covers(e, pathname)
    {
      RemovalExact(shape, pathname);
      LookupSound(shape, pathname);
      if PrefixFree(Entries(shape)) {
        RemovalComplete(shape, pathname);
      }
      LinkedAllocated(root, shape);
      data := Search(pathname);
      ghost var k := RemovedEntries(shape, pathname);
      if data != null {
        root := Unlink(root, shape, pathname);
        shape := Removed(shape, pathname);
        Rebalance(rotations);
      }
    }
  }
}
