/// Paths as lists of names, and the climb over parent links that builds them (getpath.c).
module PathNames {
  predicate SlashFree(name: string) { '/' !in name }

  ghost predicate Names(cs: seq<string>) { forall c | c in cs :: SlashFree(c) && c != "" }

  /// "/" followed by each name, from the root down.
  function Render(cs: seq<string>): string
  {
    if cs == [] then "" else "/" + cs[0] + Render(cs[1..])
  }

  lemma {:induction false} RenderAppend(cs: seq<string>, c: string)
    ensures Render(cs + [c]) == Render(cs) + "/" + c
  {
    if cs != [] {
      RenderAppend(cs[1..], c);
      assert (cs + [c])[1..] == cs[1..] + [c];
    } else {
      assert [c][1..] == [];
    }
  }

  lemma StripPrefix(c: char, s: string, d: char, t: string)
    ensures [c] + s <= [d] + t <==> c == d && s <= t
    ensures [c] + s == [d] + t <==> c == d && s == t
  {
    var cs, dt := [c] + s, [d] + t;
    assert cs[1..] == s && dt[1..] == t && cs[0] == c && dt[0] == d;
    if cs <= dt {
      assert cs == dt[..|cs|];
      assert s == cs[1..] == dt[..|cs|][1..] == t[..|s|];
    }
    if c == d && s <= t {
      assert dt[..|cs|] == [d] + t[..|s|];
    }
  }

  /// Where a slash-free name ends is visible in what it is part of.
  lemma {:induction false} FirstName(a: string, x: string, b: string, y: string)
    requires SlashFree(a) && SlashFree(b) && (x == "" || x[0] == '/') && (y == "" || y[0] == '/')
    ensures a + x == b + y <==> a == b && x == y
    ensures x != "" ==> (a + x <= b + y <==> a == b && x <= y)
  {
    if a != "" && b != "" {
      FirstName(a[1..], x, b[1..], y);
      assert a == [a[0]] + a[1..] && b == [b[0]] + b[1..];
      assert a + x == [a[0]] + (a[1..] + x) && b + y == [b[0]] + (b[1..] + y);
      StripPrefix(a[0], a[1..] + x, b[0], b[1..] + y);
    } else if a == "" && b != "" && x != "" {
      assert (b + y)[0] == b[0] != '/';
      assert (a + x)[0] == '/';
    } else if a != "" && b == "" {
      assert (a + x)[0] == a[0] != '/';
      assert b + y == y;
    } else {
      assert a + x == x && b + y == (if b == "" then y else b + y);
    }
  }

  /// Different lists of names render differently.
  lemma {:induction false} RenderInjective(cs: seq<string>, ds: seq<string>)
    requires Names(cs) && Names(ds) && Render(cs) == Render(ds)
    ensures cs == ds
  {
    if cs != [] && ds != [] {
      var a, b, x, y := cs[0], ds[0], Render(cs[1..]), Render(ds[1..]);
      assert a + x == ("/" + a + x)[1..] == Render(cs)[1..] && b + y == ("/" + b + y)[1..] == Render(ds)[1..];
      FirstName(a, x, b, y);
      RenderInjective(cs[1..], ds[1..]);
      assert cs == [a] + cs[1..] && ds == [b] + ds[1..];
    }
  }

  predicate ProperPrefix(cs: seq<string>, ds: seq<string>) { cs <= ds && cs != ds }

  lemma SplitPrefix(cs: seq<string>, ds: seq<string>)
    requires cs != [] && ds != []
    ensures ProperPrefix(cs, ds) <==> cs[0] == ds[0] && ProperPrefix(cs[1..], ds[1..])
  {
    assert cs == [cs[0]] + cs[1..] && ds == [ds[0]] + ds[1..];
    if cs[0] == ds[0] && cs[1..] <= ds[1..] {
      assert ds[..|cs|] == [ds[0]] + ds[1..][..|cs| - 1];
    }
  }

  /// With a trailing slash, textual prefixes are exactly proper ancestors.
  lemma {:induction false} KeyPrefix(cs: seq<string>, ds: seq<string>)
    requires Names(cs) && Names(ds)
    ensures Render(cs) + "/" <= Render(ds) <==> ProperPrefix(cs, ds)
  {
    if ds == [] {
    } else if cs == [] {
      assert Render(ds)[0] == '/';
    } else {
      var a, b, x, y := cs[0], ds[0], Render(cs[1..]) + "/", Render(ds[1..]);
      FirstName(a, x, b, y);
      KeyPrefix(cs[1..], ds[1..]);
      assert Render(cs) + "/" == "/" + (a + x) && Render(ds) == "/" + (b + y);
      StripPrefix('/', a + x, '/', b + y);
      SplitPrefix(cs, ds);
    }
  }

  /// Between two keys with a trailing slash.
  lemma KeyOfKey(cs: seq<string>, ds: seq<string>)
    requires Names(cs) && Names(ds)
    ensures Render(cs) + "/" <= Render(ds) + "/" <==> cs <= ds
  {
    KeyPrefix(cs, ds);
    var k, l := Render(cs) + "/", Render(ds) + "/";
    if k <= l && |k| == |l| {
      assert Render(cs) == k[..|k| - 1] == l[..|l| - 1] == Render(ds);
      RenderInjective(cs, ds);
    } else if k <= l {
      assert Render(ds) == l[..|l| - 1];
      assert k == l[..|k|] == Render(ds)[..|k|];
    }
  }
}

module DentryPath {
  import opened PathNames

  /// struct dentry.  The parent of a root is the root itself.
  class Dentry {
    const d_name: string
    var d_parent: Dentry?
    ghost var depth: nat

    constructor (d_name: string, d_parent: Dentry?)
      ensures this.d_name == d_name && this.d_parent == d_parent
    {
      this.d_name, this.d_parent := d_name, d_parent;
    }
  }

  /// The buffer the path is built in.
  class PathBuffer {
    var text: string

    constructor ()
      ensures text == ""
    {
      text := "";
    }

    /// strncat(abspath, src, n)
    method StrnCat(src: string, n: nat)
      modifies this
      ensures text == old(text) + if n < |src| then src[..n] else src
    {
      text := text + if n < |src| then src[..n] else src;
    }
  }

  /// strncat of "/" and of a name.
  method AppendName(abspath: PathBuffer, name: string, ghost cs: seq<string>, ghost start: string)
    requires abspath.text == start + Render(cs)
    modifies abspath
    ensures abspath.text == start + Render(cs + [name])
  {
    RenderAppend(cs, name);
    abspath.StrnCat("/", 2);
    abspath.StrnCat(name, |name|);
    assert start + Render(cs) + "/" + name == start + (Render(cs) + "/" + name);
  }

  /// One file system: the parent links of all lead to the root, whose name is "/"; no other name has
  /// a slash.
  ghost predicate DentryTree(all: set<Dentry>, root: Dentry)
    reads all
  {
    root in all && root.depth == 0 && root.d_parent == root && root.d_name == "/"
    && forall d | d in all && d != root ::
         d.depth > 0 && SlashFree(d.d_name) && d.d_name != ""
         && d.d_parent != null && d.d_parent in all && d.d_parent.depth == d.depth - 1
  }

  /// Two entries of one directory have different names.
  ghost predicate SiblingsDiffer(all: set<Dentry>, root: Dentry)
    reads all
  {
    forall d, e | d in all && e in all && d != root && e != root && d.d_parent == e.d_parent && d.d_name == e.d_name ::
      d == e
  }

  /// The names from the root to d, the root's own name left out.
  ghost function Components(all: set<Dentry>, root: Dentry, d: Dentry): (cs: seq<string>)
    requires DentryTree(all, root) && d in all
    reads all
    ensures |cs| == d.depth && Names(cs)
    decreases d.depth
  {
    if d == root then [] else Components(all, root, d.d_parent) + [d.d_name]
  }

  /// a is a proper ancestor of d.
  ghost predicate Below(all: set<Dentry>, root: Dentry, d: Dentry, a: Dentry)
    requires DentryTree(all, root) && d in all
    reads all
    decreases d.depth
  {
    d != root && (d.d_parent == a || Below(all, root, d.d_parent, a))
  }

  /// The path of d, the root's being empty.
  ghost function PathOf(all: set<Dentry>, root: Dentry, d: Dentry): string
    requires DentryTree(all, root) && d in all
    reads all
  {
    Render(Components(all, root, d))
  }

  /// The levels above a dentry's parent.
  method CountLevels(dentry: Dentry, ghost all: set<Dentry>, ghost root: Dentry) returns (depth: nat, pdentry: Dentry)
    requires DentryTree(all, root) && dentry in all
    ensures dentry.d_parent != null && dentry.d_parent in all && depth == dentry.d_parent.depth && pdentry == root
  {
    depth, pdentry := 0, dentry.d_parent;
    while pdentry != pdentry.d_parent
      invariant pdentry in all && depth + pdentry.depth == dentry.d_parent.depth
      decreases pdentry.depth
    {
      depth := depth + 1;
      pdentry := pdentry.d_parent;
    }
  }

  /// The dentry that is depth levels up.
  method Climb(dentry: Dentry, depth: nat, ghost all: set<Dentry>, ghost root: Dentry) returns (pdentry: Dentry)
    requires DentryTree(all, root) && dentry in all && depth <= dentry.depth
    ensures pdentry in all && pdentry.depth == dentry.depth - depth
    ensures Components(all, root, pdentry) == Components(all, root, dentry)[..dentry.depth - depth]
  {
    pdentry := dentry;
    for i := 0 to depth
      invariant pdentry in all && pdentry.depth == dentry.depth - i
      invariant Components(all, root, pdentry) == Components(all, root, dentry)[..dentry.depth - i]
    {
      ParentComponents(all, root, pdentry);
      pdentry := pdentry.d_parent;
    }
  }

  /// getabsparentpathfromdentry: count the levels, then climb again for each name from the top down.
  method GetAbsParentPath(dentry: Dentry?, abspath: PathBuffer, ghost all: set<Dentry>, ghost root: Dentry)
    requires DentryTree(all, root) && (dentry == null || dentry in all)
    modifies abspath
    ensures dentry == null ==> abspath.text == old(abspath.text)
    ensures dentry != null && dentry.d_parent == root ==> abspath.text == old(abspath.text) + "/"
    ensures dentry != null && dentry.d_parent != root ==>
      dentry.d_parent != null && dentry.d_parent in all
      && abspath.text == old(abspath.text) + PathOf(all, root, dentry.d_parent)
  {
    if dentry == null {
      return;
    }
    var depth, pdentry := CountLevels(dentry, all, root);
    if depth < 1 {
      abspath.StrnCat(pdentry.d_name, |pdentry.d_name|);
      return;
    }
    ghost var names, start := Components(all, root, dentry), abspath.text;
    ParentComponents(all, root, dentry);
    while depth > 0
      invariant 0 <= depth <= |names| - 1
      invariant abspath.text == start + Render(names[..|names| - 1 - depth])
    {
      hide Components, DentryTree, Render;
      pdentry := Climb(dentry, depth, all, root);
      LastName(all, root, pdentry, names, |names| - 1 - depth);
      AppendName(abspath, pdentry.d_name, names[..|names| - 1 - depth], start);
      depth := depth - 1;
    }
  }

  lemma LastName(all: set<Dentry>, root: Dentry, d: Dentry, names: seq<string>, k: nat)
    requires DentryTree(all, root) && d in all && k < |names| && Components(all, root, d) == names[..k + 1]
    ensures names[..k] + [d.d_name] == names[..k + 1]
  {}

  lemma ParentComponents(all: set<Dentry>, root: Dentry, d: Dentry)
    requires DentryTree(all, root) && d in all && d != root
    ensures d.d_parent != null && d.d_parent in all && d.d_parent.depth == d.depth - 1
    ensures Components(all, root, d) == Components(all, root, d.d_parent) + [d.d_name]
    ensures Components(all, root, d.d_parent) == Components(all, root, d)[..d.depth - 1]
  {}

  /// Only the root's name begins with a slash: this is what getabsfullpathfromdentry tests.
  lemma RootByName(all: set<Dentry>, root: Dentry, d: Dentry)
    requires DentryTree(all, root) && d in all
    ensures "/" <= d.d_name <==> d == root
  {
    if "/" <= d.d_name {
      assert d.d_name[0] == '/';
    }
  }

  /// getabsfullpathfromdentry.
  method GetAbsFullPath(dentry: Dentry?, abspath: PathBuffer, ghost all: set<Dentry>, ghost root: Dentry)
    requires DentryTree(all, root) && (dentry == null || dentry in all)
    modifies abspath
    ensures dentry == null ==> abspath.text == old(abspath.text)
    ensures dentry == root ==> abspath.text == old(abspath.text) + "//"
    ensures dentry != null && dentry != root ==> abspath.text == old(abspath.text) + PathOf(all, root, dentry)
  {
    if dentry != null {
      ghost var start, names := abspath.text, [];
      assert dentry.d_parent != null && dentry.d_parent in all;
      RootByName(all, root, dentry.d_parent);
      if !("/" <= dentry.d_parent.d_name) {
        GetAbsParentPath(dentry, abspath, all, root);
        names := Components(all, root, dentry.d_parent);
      }
      AppendName(abspath, dentry.d_name, names, start);
    }
  }

  /// Different dentries have different names on the way to them.
  lemma {:induction false} ComponentsInjective(all: set<Dentry>, root: Dentry, d: Dentry, e: Dentry)
    requires DentryTree(all, root) && SiblingsDiffer(all, root) && d in all && e in all
    requires Components(all, root, d) == Components(all, root, e)
    ensures d == e
    decreases d.depth
  {
    if d != root && e != root {
      ParentComponents(all, root, d);
      ParentComponents(all, root, e);
      assert d.d_name == Components(all, root, d)[d.depth - 1] == e.d_name;
      ComponentsInjective(all, root, d.d_parent, e.d_parent);
    }
  }

  /// Different dentries have different paths.
  lemma PathInjective(all: set<Dentry>, root: Dentry, d: Dentry, e: Dentry)
    requires DentryTree(all, root) && SiblingsDiffer(all, root) && d in all && e in all
    ensures PathOf(all, root, d) == PathOf(all, root, e) <==> d == e
    ensures PathOf(all, root, d) != "//"
  {
    if PathOf(all, root, d) == PathOf(all, root, e) {
      RenderInjective(Components(all, root, d), Components(all, root, e));
      ComponentsInjective(all, root, d, e);
    }
    var cs := Components(all, root, d);
    if cs != [] {
      assert Render(cs)[1] == cs[0][0] != '/' by {
        assert cs[0] in cs;
      }
    }
  }

  /// The ancestors of d are the dentries whose names begin d's.
  lemma {:induction false} AncestorNames(all: set<Dentry>, root: Dentry, d: Dentry, a: Dentry)
    requires DentryTree(all, root) && SiblingsDiffer(all, root) && d in all && a in all
    ensures Below(all, root, d, a) <==> ProperPrefix(Components(all, root, a), Components(all, root, d))
    decreases d.depth
  {
    if d != root {
      var cs, ds := Components(all, root, a), Components(all, root, d);
      ParentComponents(all, root, d);
      var ps := Components(all, root, d.d_parent);
      AncestorNames(all, root, d.d_parent, a);
      if ProperPrefix(cs, ds) {
        assert cs == ds[..|cs|] == ps[..|cs|];
        if cs == ps {
          ComponentsInjective(all, root, a, d.d_parent);
        }
      }
      if cs <= ps {
        assert cs == ps[..|cs|] == ds[..|cs|];
      }
    }
  }
}
