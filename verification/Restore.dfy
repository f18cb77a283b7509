/// The restorer (test/RestoreIolog.c): path text, mkdir_p, dir_parent, and the replay of one record.
module PathText {
  import opened PathNames

  /// Path resolution reads names between slashes; the second part is the name still being read.
  function Scan(s: string): (seq<string>, string)
  {
    if s == "" then ([], "")
    else
      var (names, current) := Scan(s[..|s| - 1]);
      var c := s[|s| - 1];
      if c != '/' then (names, current + [c]) else (Closed(names, current), "")
  }

  function Closed(names: seq<string>, current: string): seq<string>
  {
    if current == "" then names else names + [current]
  }

  /// The names of a path; empty ones, between repeated slashes, do not count.
  function Split(s: string): seq<string> { Closed(Scan(s).0, Scan(s).1) }

  lemma ScanSlash(s: string)
    ensures Scan(s + "/") == (Split(s), "") && Split(s + "/") == Split(s)
  {
    assert (s + "/")[..|s|] == s;
  }

  lemma {:induction false} ScanName(s: string, name: string)
    requires SlashFree(name)
    ensures Scan(s + name) == (Scan(s).0, Scan(s).1 + name)
  {
    if name == "" {
      assert s + name == s && Scan(s).1 + name == Scan(s).1;
    } else {
      var k := |name| - 1;
      assert (s + name)[..|s + name| - 1] == s + name[..k];
      assert name == name[..k] + [name[k]];
      assert (s + name)[|s + name| - 1] == name[k] && name[k] in name;
      ScanName(s, name[..k]);
      assert Scan(s).1 + name[..k] + [name[k]] == Scan(s).1 + name;
    }
  }

  lemma SplitName(s: string, name: string)
    requires SlashFree(name) && name != ""
    ensures Split(s + "/" + name) == Split(s) + [name]
  {
    ScanSlash(s);
    ScanName(s + "/", name);
    assert "" + name == name;
  }

  /// Rendering names behind any text appends exactly those names.
  lemma {:induction false} SplitRender(s: string, cs: seq<string>)
    requires Names(cs)
    ensures Split(s + Render(cs)) == Split(s) + cs
    decreases |cs|
  {
    if cs == [] {
      assert s + Render(cs) == s;
    } else {
      hide Split;
      var next := s + "/" + cs[0];
      assert cs[0] in cs && forall c | c in cs[1..] :: c in cs;
      SplitName(s, cs[0]);
      SplitRender(next, cs[1..]);
      assert next + Render(cs[1..]) == s + Render(cs);
      assert Split(s) + [cs[0]] + cs[1..] == Split(s) + cs;
    }
  }

  /// A prefix of the text has a prefix of the names, up to the one being read.
  lemma {:induction false} ScanPrefix(s: string, k: nat)
    requires k <= |s|
    ensures Scan(s[..k]).0 <= Scan(s).0 && (k < |s| && s[k] == '/' ==> Split(s[..k]) <= Scan(s).0)
    decreases |s|
  {
    if k < |s| {
      var t := s[..|s| - 1];
      ScanPrefix(t, k);
      assert t[..k] == s[..k];
      if k == |s| - 1 && s[k] == '/' {
        assert t == s[..k];
      }
    } else {
      assert s[..k] == s;
    }
  }
}

module Restore {
  import opened Bytes
  import opened PathNames
  import opened FileTree
  import opened PathText
  import opened IoLog

  /// mkdir_p makes the directories named by the path, from the top.
  function MkdirP(fs: Fs, cs: Path): (Fs, bool) { MkdirAll(fs, cs, |cs|) }

  ghost predicate CString(buffer: seq<char>, text: string)
  {
    |text| < |buffer| && buffer[|text|] == NUL && forall k | 0 <= k < |text| :: buffer[k] == text[k] != NUL
  }

  /// mkdir(2) on the string in the buffer: it ends where the NUL is.
  method MkdirBuffer(target: FileSystem, ptr: array<char>, ghost text: string) returns (failed: bool)
    requires CString(ptr[..], text)
    modifies target
    ensures target.tree == Try(old(target.tree), Mkdir(Split(text)))
    ensures failed <==> !Exists(target.tree, Split(text))
  {
    var n := 0;
    while ptr[n] != NUL
      invariant n <= |text| && ptr[..] == old(ptr[..])
      decreases |text| - n
    {
      n := n + 1;
    }
    assert ptr[..n] == text;
    var made, eexist := target.MakeDirectory(Split(ptr[..n]));
    failed := !made && !eexist;
  }

  /// The path up to a slash: cut the buffer there, make the directory, put the slash back.
  method MkdirCut(target: FileSystem, ptr: array<char>, i: nat) returns (failed: bool)
    requires i < ptr.Length && ptr[i] == '/' && forall k | 0 <= k < i :: ptr[k] != NUL
    modifies target, ptr
    ensures target.tree == Try(old(target.tree), Mkdir(Split(old(ptr[..i]))))
    ensures failed <==> !Exists(target.tree, Split(old(ptr[..i])))
    ensures !failed ==> ptr[..] == old(ptr[..])
  {
    ptr[i] := NUL;
    failed := MkdirBuffer(target, ptr, old(ptr[..i]));
    if !failed {
      ptr[i] := '/';
      assert ptr[..] == old(ptr[..]);
    }
  }

  /// The names of which the loop of mkdir_p has passed the closing slash, before it looks at position i.
  function Done(text: string, i: nat): seq<string> { Scan(if i < |text| then text[..i] else text).0 }

  lemma DoneStep(text: string, i: nat)
    ensures i < |text| && text[i] != '/' ==> Done(text, i + 1) == Done(text, i)
    ensures i < |text| && text[i] == '/' ==> Done(text, i + 1) == Split(text[..i]) <= Done(text, |text|)
    ensures i >= |text| ==> Done(text, i + 1) == Done(text, i)
    ensures Done(text, i) <= Done(text, |text|)
  {
    if i < |text| {
      assert text[..i + 1][..i] == text[..i];
      assert i + 1 == |text| ==> text[..i + 1] == text;
      ScanPrefix(text, i);
    }
  }

  /// The loop works on the path with a slash behind it.
  lemma Slashed(path: string)
    requires path != ""
    ensures var text := if path[|path| - 1] != '/' then path + "/" else path;
      Done(text, |text|) == Split(path) && Done(text, 1) == []
  {
    var text := if path[|path| - 1] != '/' then path + "/" else path;
    ScanSlash(path);
    assert Scan(text[..1]).0 == [] && text[..|text|] == text;
  }

  lemma {:induction false} MkdirAllFails(fs: Fs, cs: Path, k: nat, m: nat)
    requires k <= m <= |cs| && !MkdirAll(fs, cs, k).1
    ensures MkdirAll(fs, cs, m) == MkdirAll(fs, cs, k)
  {
    if k < m {
      MkdirAllFails(fs, cs, k, m - 1);
    }
  }

  /// One mkdir of the loop: the next directory, or one that is there already.
  lemma CutStep(start: Fs, names: Path, before: Fs, text: string, i: nat)
    requires i < |text| && text[i] == '/' && names == Done(text, |text|) && |Done(text, i)| <= |names|
    requires MkdirAll(start, names, |Done(text, i)|) == (before, true)
    ensures Done(text, i + 1) == Split(text[..i]) <= names
    ensures var cs := Split(text[..i]); var after := Try(before, Mkdir(cs));
      if Exists(after, cs) then MkdirAll(start, names, |cs|) == (after, true) else MkdirP(start, names) == (after, false)
  {
    DoneStep(text, i);
    var cs, k := Split(text[..i]), |Done(text, i)|;
    assert Done(text, i) == names[..k] && cs == names[..|cs|];
    if cs == Done(text, i) {
      assert Exists(before, cs);
    } else {
      assert |cs| == k + 1;
      if !Exists(Try(before, Mkdir(cs)), cs) {
        MkdirAllFails(start, names, k + 1, |names|);
      }
    }
  }

  lemma BufferAt(buffer: seq<char>, text: string, len: nat, i: nat)
    requires |buffer| == len + 2 && len <= |text| <= len + 1 && i <= len
    requires buffer[..|text|] == text && NUL !in text && (|text| <= len ==> buffer[len] == NUL)
    ensures buffer[i] == '/' <==> i < |text| && text[i] == '/'
    ensures i < |text| ==> buffer[..i] == text[..i] && forall k | 0 <= k < i :: buffer[k] != NUL
  {
    assert i < |text| ==> text[i] == buffer[..|text|][i];
    forall k | 0 <= k < |text|
      ensures buffer[k] != NUL
    {
      assert buffer[k] == buffer[..|text|][k] == text[k];
    }
    assert i < |text| ==> buffer[..i] == buffer[..|text|][..i];
  }

  /// malloc, memset and strcpy, and the slash behind the path.
  method NewPathBuffer(path: string) returns (ptr: array<char>)
    requires path != "" && NUL !in path
    ensures fresh(ptr) && ptr.Length == |path| + 2
    ensures var text := if path[|path| - 1] != '/' then path + "/" else path;
      ptr[..|text|] == text && (|text| <= |path| ==> ptr[|path|] == NUL)
  {
    var len := |path|;
    ptr := new char[len + 2](i requires 0 <= i => if i < len then path[i] else NUL);
    if ptr[len - 1] != '/' {
      ptr[len] := '/';
      ptr[len + 1] := NUL;
    }
  }

  /// mkdir_p: the path buffer is cut at each slash in turn, and mended again.
  method MkdirPath(target: FileSystem, path: string) returns (ret: int)
    requires path != "" && NUL !in path
    modifies target
    ensures target.tree == MkdirP(old(target.tree), Split(path)).0
    ensures ret == if MkdirP(old(target.tree), Split(path)).1 then 0 else -1
  {
    var len := |path|;
    var ptr := NewPathBuffer(path);
    ghost var start, names, buffer := target.tree, Split(path), ptr[..];
    ghost var text := if path[len - 1] != '/' then path + "/" else path;
    Slashed(path);
    assert buffer[..|text|] == ptr[..|text|] == text;
    for i := 1 to len + 1
      invariant ptr[..] == buffer && |Done(text, i)| <= |names|
      invariant MkdirAll(start, names, |Done(text, i)|) == (target.tree, true)
    {
      hide *;
      DoneStep(text, i);
      BufferAt(buffer, text, len, i);
      if ptr[i] == '/' {
        CutStep(start, names, target.tree, text, i);
        var failed := MkdirCut(target, ptr, i);
        if failed {
          return -1;
        }
      }
    }
    DoneStep(text, len + 1);
    return 0;
  }

  /// The text up to and with its last slash, of a text with a slash.
  function UpToSlash(p: string): (r: string)
    requires '/' in p
  {
    if p[|p| - 1] == '/' then p else UpToSlash(p[..|p| - 1])
  }

  lemma {:induction false} UpToSlashAppend(s: string, name: string)
    requires SlashFree(name)
    ensures UpToSlash(s + "/" + name) == s + "/"
    decreases |name|
  {
    var t := s + "/" + name;
    if name == "" {
      assert t == s + "/";
    } else {
      var k := |name| - 1;
      assert t[..|t| - 1] == s + "/" + name[..k] && t[|t| - 1] == name[k] && name[k] in name;
      UpToSlashAppend(s, name[..k]);
    }
  }

  /// dir_parent; without a slash it fails and leaves the buffer empty.
  method DirParent(p: string) returns (parentdir: string)
    ensures parentdir == if '/' in p then UpToSlash(p) else ""
  {
    var n := |p|;
    assert p[..n] == p && p[n..] == "";
    while n > 0 && p[n - 1] != '/'
      invariant 0 <= n <= |p|
      invariant '/' in p ==> '/' in p[..n] && UpToSlash(p[..n]) == UpToSlash(p)
      invariant '/' !in p[n..]
    {
      assert p[..n][..n - 1] == p[..n - 1];
      n := n - 1;
    }
    return p[..n];
  }

  /// The path of the record begins with a slash.
  predicate Absolute(logfile: LogFile) { "/" <= PathRead(logfile) }

  /// The effect of one record on the tree it is restored to.
  function Restored(fs: Fs, targetdir: string, logfile: LogFile): Fs
    requires Absolute(logfile)
  {
    var path := targetdir + PathRead(logfile);
    var full := Split(path);
    match logfile.ulType
    case DeleteFile => Try(fs, if logfile.bIsDir then Rmdir(full) else Unlink(full))
    case NewFile =>
      if logfile.bIsDir then MkdirP(fs, full).0
      else assert path[|targetdir|] == '/'; Try(MkdirP(fs, Split(UpToSlash(path))).0, Create(full))
    case WriteFile => Try(fs, Write(full, logfile.byteOffset, logfile.data))
    case Error => fs
  }

  lemma {:induction false} UpToSlashInside(p: string)
    requires '/' in p
    ensures UpToSlash(p) != "" && forall c | c in UpToSlash(p) :: c in p
    decreases |p|
  {
    if p[|p| - 1] != '/' {
      assert p == p[..|p| - 1] + [p[|p| - 1]];
      UpToSlashInside(p[..|p| - 1]);
    }
  }

  /// restore: one record.
  method RestoreRecord(logfile: LogFile, targetdir: string, target: FileSystem)
    requires Absolute(logfile) && NUL !in targetdir
    modifies target
    ensures target.tree == Restored(old(target.tree), targetdir, logfile)
  {
    hide MkdirAll;
    var targetpath := targetdir + PathRead(logfile);
    assert targetpath[|targetdir|] == '/';
    match logfile.ulType
    case DeleteFile =>
      if logfile.bIsDir {
        target.Call(Rmdir(Split(targetpath)));
      } else {
        target.Call(Unlink(Split(targetpath)));
      }
    case NewFile =>
      if logfile.bIsDir {
        var ret := MkdirPath(target, targetpath);
      } else {
        UpToSlashInside(targetpath);
        var dirparent := DirParent(targetpath);
        var ret := MkdirPath(target, dirparent);
        target.Call(Create(Split(targetpath)));
      }
    case WriteFile =>
      target.Call(Write(Split(targetpath), logfile.byteOffset, logfile.data));
    case Error =>
  }

  ghost predicate AllThere(disk: map<nat, LogFile>, begin: nat, end: nat)
  {
    begin <= end && forall n | begin <= n < end :: n in disk && Absolute(disk[n])
  }

  /// The records begin, …, end - 1, restored in this order.
  ghost function Replayed(fs: Fs, targetdir: string, disk: map<nat, LogFile>, begin: nat, end: nat): Fs
    requires AllThere(disk, begin, end)
    decreases end
  {
    if begin == end then fs else Restored(Replayed(fs, targetdir, disk, begin, end - 1), targetdir, disk[end - 1])
  }

  /// A new file changes nothing about the records that were there.
  lemma {:induction false} ReplayedGrows(fs: Fs, targetdir: string, disk: map<nat, LogFile>, more: map<nat, LogFile>,
                                         begin: nat, end: nat)
    requires AllThere(disk, begin, end) && forall n | n in disk :: n in more && more[n] == disk[n]
    ensures AllThere(more, begin, end) && Replayed(fs, targetdir, more, begin, end) == Replayed(fs, targetdir, disk, begin, end)
    decreases end
  {
    hide Restored, Absolute, PathRead;
    if begin < end {
      ReplayedGrows(fs, targetdir, disk, more, begin, end - 1);
    }
  }

  lemma {:induction false} ReplayedJoin(fs: Fs, targetdir: string, disk: map<nat, LogFile>, begin: nat, middle: nat, end: nat)
    requires AllThere(disk, begin, middle) && AllThere(disk, middle, end)
    ensures AllThere(disk, begin, end)
    ensures Replayed(Replayed(fs, targetdir, disk, begin, middle), targetdir, disk, middle, end)
         == Replayed(fs, targetdir, disk, begin, end)
    decreases end
  {
    hide Restored, Absolute;
    if middle < end {
      ReplayedJoin(fs, targetdir, disk, begin, middle, end - 1);
    }
  }

  lemma OneMoreReplayed(fs: Fs, targetdir: string, disk: map<nat, LogFile>, begin: nat, end: nat)
    requires AllThere(disk, begin, end) && end in disk && Absolute(disk[end])
    ensures AllThere(disk, begin, end + 1)
    ensures Replayed(fs, targetdir, disk, begin, end + 1) == Restored(Replayed(fs, targetdir, disk, begin, end), targetdir, disk[end])
  {
    hide Restored, Absolute;
  }

  /// The inner loop of main: from begin up to the first number that has no file.
  method RestoreAll(disk: map<nat, LogFile>, begin: nat, targetdir: string, target: FileSystem) returns (iolognum: nat)
    requires NUL !in targetdir && forall n | n in disk :: Absolute(disk[n])
    modifies target
    ensures AllThere(disk, begin, iolognum) && iolognum !in disk
    ensures target.tree == Replayed(old(target.tree), targetdir, disk, begin, iolognum)
  {
    iolognum := begin;
    ghost var unread := disk.Keys;
    while iolognum in disk
      invariant AllThere(disk, begin, iolognum)
      invariant target.tree == Replayed(old(target.tree), targetdir, disk, begin, iolognum)
      invariant unread <= disk.Keys && forall n | n in disk && n >= iolognum :: n in unread
      decreases unread
    {
      hide Restored, Absolute, PathRead, Replayed, AllThere;
      OneMoreReplayed(old(target.tree), targetdir, disk, begin, iolognum);
      RestoreRecord(disk[iolognum], targetdir, target);
      unread := unread - {iolognum};
      iolognum := iolognum + 1;
    }
  }

  ghost predicate Extends(disk: map<nat, LogFile>, more: map<nat, LogFile>)
  {
    forall n | n in disk :: n in more && more[n] == disk[n]
  }

  ghost predicate Grows(disks: seq<map<nat, LogFile>>)
  {
    (forall k, n | 0 <= k < |disks| && n in disks[k] :: Absolute(disks[k][n]))
    && forall j, k | 0 <= j < k < |disks| :: Extends(disks[j], disks[k])
  }

  /// The outer loop of main, with -loop: the directory is read again and again as files are added to it.
  method RestoreLoop(disks: seq<map<nat, LogFile>>, begin: nat, targetdir: string, target: FileSystem) returns (iolognum: nat)
    requires disks != [] && Grows(disks) && NUL !in targetdir
    modifies target
    ensures var disk := disks[|disks| - 1];
      && AllThere(disk, begin, iolognum) && iolognum !in disk
      && target.tree == Replayed(old(target.tree), targetdir, disk, begin, iolognum)
  {
    hide Restored, Absolute, PathRead;
    iolognum := RestoreAll(disks[0], begin, targetdir, target);
    for k := 1 to |disks|
      invariant AllThere(disks[k - 1], begin, iolognum) && iolognum !in disks[k - 1]
      invariant target.tree == Replayed(old(target.tree), targetdir, disks[k - 1], begin, iolognum)
    {
      assert Extends(disks[k - 1], disks[k]);
      ReplayedGrows(old(target.tree), targetdir, disks[k - 1], disks[k], begin, iolognum);
      ghost var middle := iolognum;
      iolognum := RestoreAll(disks[k], iolognum, targetdir, target);
      ReplayedJoin(old(target.tree), targetdir, disks[k], begin, middle, iolognum);
    }
  }
}
