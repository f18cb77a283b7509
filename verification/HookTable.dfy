/// hijack_syscalls and undo_hijack_syscalls of hookvfs.c: hooking a table of functions and undoing it.
module HookTable {
  import opened Bytes
  import opened Wrappers
  import opened InsnSpec
  import opened InsnTheory
  import opened Relocation
  import opened CopyLoop
  import opened Hijack

  /// An entry of security2hook with the answers the foreign calls will give for it.
  datatype TableEntry = TableEntry(sym: KernSym, func: nat, lookup: Lookup, buffer: Option<nat>)
  {
    function Text(): Func
      requires lookup.Found?
    {
      Func(lookup.addr, lookup.size)
    }

    predicate OwnsBuffer() { lookup.Found? && buffer.Some? }

    predicate InBuffer(b: int)
    {
      OwnsBuffer() && buffer.value <= b < buffer.value + lookup.size
    }

    predicate InEntry(b: int)
    {
      lookup.Found? && lookup.addr <= b < lookup.addr + OP_JMP_SIZE
    }

    ghost predicate Succeeds(m: seq<Byte>)
    {
      OwnsBuffer() && lookup.addr < |m| && lookup.addr + lookup.size <= |m| && Outcome(m, lookup, buffer) == 0
    }
  }

  /// One hook can be handled in memory m.
  ghost predicate Ready(m: seq<Byte>, h: TableEntry)
  {
    && (h.lookup.Missing? ==> h.lookup.error < 0)
    && (h.lookup.Found? ==> h.lookup.size > 0 && Decodable(m, h.Text()))
    && (h.OwnsBuffer() ==> h.buffer.value + h.lookup.size <= |m|)
  }

  /// The texts of two hooks are disjoint, and so are texts and buffers; the buffer of a hook that
  /// succeeded is not given out again.
  ghost predicate Separate(m: seq<Byte>, g: TableEntry, h: TableEntry)
  {
    && g.sym != h.sym
    && (g.lookup.Found? && h.lookup.Found? ==> Apart(g.lookup.addr, g.lookup.size, h.lookup.addr, h.lookup.size))
    && (g.Succeeds(m) && h.OwnsBuffer() ==> Apart(g.buffer.value, g.lookup.size, h.buffer.value, h.lookup.size))
  }

  ghost predicate BufferOutsideText(g: TableEntry, h: TableEntry)
  {
    g.OwnsBuffer() && h.lookup.Found? ==> Apart(g.buffer.value, g.lookup.size, h.lookup.addr, h.lookup.size)
  }

  ghost predicate WellPlaced(m: seq<Byte>, hooks: seq<TableEntry>)
  {
    && (forall i | 0 <= i < |hooks| :: Ready(m, hooks[i]))
    && (forall i, j | 0 <= i < j < |hooks| :: Separate(m, hooks[i], hooks[j]))
    && (forall i, j | 0 <= i < |hooks| && 0 <= j < |hooks| :: BufferOutsideText(hooks[i], hooks[j]))
  }

  /// Memory m0 has become m by handling some of the hooks: only buffers and the entries of
  /// successfully hooked functions differ.
  ghost predicate Touched(m0: seq<Byte>, m: seq<Byte>, hooks: seq<TableEntry>, n: nat)
    requires n <= |hooks|
  {
    |m| == |m0| && forall b | 0 <= b < |m0| && m[b] != m0[b] ::
      exists j | 0 <= j < n :: hooks[j].InBuffer(b) || (hooks[j].InEntry(b) && hooks[j].Succeeds(m0))
  }

  /// The record and memory of one handled hook: hijacked exactly on success, and then the entry jumps
  /// to the hook and the buffer relocates the original text.
  ghost predicate Handled(m0: seq<Byte>, m: seq<Byte>, h: TableEntry)
    reads h.sym
  {
    && (h.sym.hijacked <==> h.Succeeds(m0))
    && (h.sym.hijacked ==>
          && h.OwnsBuffer() && h.sym.addr == h.lookup.addr && h.sym.size == h.lookup.size
          && h.sym.run == h.buffer.value
          && Installed(m0, m, h.Text(), h.buffer.value, h.sym.newSize, h.func)
          && h.sym.origStartBytes == m0[h.lookup.addr..h.lookup.addr + OP_JMP_SIZE])
  }

  // ----- hooking -----

  /// The text of a hook is still original when its turn comes.
  lemma TextIntact(m0: seq<Byte>, m: seq<Byte>, hooks: seq<TableEntry>, n: nat)
    requires n < |hooks| && WellPlaced(m0, hooks) && Touched(m0, m, hooks, n) && hooks[n].lookup.Found?
    ensures var f := hooks[n].Text(); SameText(m0, m, f.addr, f.addr + f.size)
  {
    hide Decodable, Outcome;
    var f := hooks[n].Text();
    forall b | 0 <= b < |m0| && f.addr <= b < f.addr + f.size
      ensures m[b] == m0[b]
    {
      if m[b] != m0[b] {
        var j :| 0 <= j < n && (hooks[j].InBuffer(b) || (hooks[j].InEntry(b) && hooks[j].Succeeds(m0)));
        assert BufferOutsideText(hooks[j], hooks[n]);
        assert Separate(m0, hooks[j], hooks[n]);
        assert Ready(m0, hooks[j]);
        if hooks[j].Succeeds(m0) {
          SucceedsLarge(m0, hooks[j]);
        }
      }
    }
  }

  lemma SucceedsLarge(m: seq<Byte>, h: TableEntry)
    requires Ready(m, h) && h.Succeeds(m)
    ensures h.lookup.size >= OP_JMP_SIZE
  {
    hide Decodable, TrimmedEnd, Extent;
  }

  lemma SameOutcome(m0: seq<Byte>, m: seq<Byte>, h: TableEntry)
    requires Ready(m0, h) && |m| == |m0| && (h.lookup.Found? ==> SameText(m0, m, h.lookup.addr, h.lookup.addr + h.lookup.size))
    ensures Ready(m, h) && (h.Succeeds(m) <==> h.Succeeds(m0))
  {
    hide Decodable, TrimmedEnd, Extent;
    if h.lookup.Found? {
      TextBounds(m0, h.Text());
      DecodableLocal(m0, m, h.Text());
    }
  }

  /// The step of one hook, seen from the initial memory.
  lemma HandledNow(m0: seq<Byte>, m: seq<Byte>, m': seq<Byte>, h: TableEntry, newSize: nat)
    requires Ready(m0, h) && h.Succeeds(m0) && SameText(m0, m, h.lookup.addr, h.lookup.addr + h.lookup.size)
    requires Installed(m, m', h.Text(), h.buffer.value, newSize, h.func)
    ensures Installed(m0, m', h.Text(), h.buffer.value, newSize, h.func)
    ensures m[h.lookup.addr..h.lookup.addr + OP_JMP_SIZE] == m0[h.lookup.addr..h.lookup.addr + OP_JMP_SIZE]
  {
    hide Walkable, Extent, Copied, TrimmedEnd, JumpBytes;
    var f := h.Text();
    DecodableLocal(m0, m, f);
    assert SameText(m, m0, f.addr, f.addr + f.size);
    CopiedSource(m, m0, m', f.addr, f.addr + newSize, h.buffer.value - f.addr, f);
  }

  /// Writes outside an installed hook's entry and buffer leave it installed.
  lemma InstalledLocal(m0: seq<Byte>, m: seq<Byte>, m': seq<Byte>, f: Func, buf: nat, newSize: nat, code: nat)
    requires Installed(m0, m, f, buf, newSize, code)
    requires SameText(m, m', buf, buf + f.size) && SameText(m, m', f.addr, f.addr + f.size)
    ensures Installed(m0, m', f, buf, newSize, code)
  {
    hide Extent, Copied, TrimmedEnd, JumpBytes;
    CopiedLocal(m0, m, m', f.addr, f.addr + newSize, buf - f.addr, f);
  }

  /// What one symbol_hijack may have written.
  ghost predicate Step(m: seq<Byte>, m': seq<Byte>, h: TableEntry, success: bool)
  {
    |m'| == |m| && forall b | 0 <= b < |m| && m'[b] != m[b] :: h.InBuffer(b) || (success && h.InEntry(b))
  }

  lemma TouchedStep(m0: seq<Byte>, m: seq<Byte>, m': seq<Byte>, hooks: seq<TableEntry>, n: nat)
    requires n < |hooks| && Touched(m0, m, hooks, n) && Step(m, m', hooks[n], hooks[n].Succeeds(m0))
    ensures Touched(m0, m', hooks, n + 1)
  {
    hide Outcome;
  }

  /// A later hook does not disturb an earlier one.
  lemma Undisturbed(m0: seq<Byte>, m: seq<Byte>, m': seq<Byte>, g: TableEntry, h: TableEntry)
    requires Ready(m0, g) && Ready(m0, h) && Separate(m0, g, h) && BufferOutsideText(g, h) && BufferOutsideText(h, g)
    requires Step(m, m', h, h.Succeeds(m0)) && g.Succeeds(m0)
    ensures SameText(m, m', g.buffer.value, g.buffer.value + g.lookup.size)
    ensures SameText(m, m', g.lookup.addr, g.lookup.addr + g.lookup.size)
  {
    hide Decodable, Outcome;
    if h.Succeeds(m0) {
      SucceedsLarge(m0, h);
    }
  }

  lemma HandledStep(m0: seq<Byte>, m: seq<Byte>, m': seq<Byte>, g: TableEntry, h: TableEntry)
    requires Ready(m0, g) && Ready(m0, h) && Separate(m0, g, h) && BufferOutsideText(g, h) && BufferOutsideText(h, g)
    requires Step(m, m', h, h.Succeeds(m0)) && Handled(m0, m, g)
    ensures Handled(m0, m', g)
  {
    hide Decodable, Outcome, Installed;
    if g.Succeeds(m0) {
      Undisturbed(m0, m, m', g, h);
      InstalledLocal(m0, m, m', g.Text(), g.buffer.value, g.sym.newSize, g.func);
    }
  }

  /// One turn of the loop of hijack_syscalls.
  method HijackOne(mem: array<Byte>, h: TableEntry, ghost m0: seq<Byte>)
    requires Ready(m0, h) && BufferOutsideText(h, h) && !h.sym.hijacked && |m0| == mem.Length
    requires h.lookup.Found? ==> SameText(m0, mem[..], h.lookup.addr, h.lookup.addr + h.lookup.size)
    modifies mem, h.sym
    ensures Handled(m0, mem[..], h) && Step(old(mem[..]), mem[..], h, h.Succeeds(m0))
  {
    hide Decodable, Outcome, Installed, SameText;
    ghost var m := mem[..];
    SameOutcome(m0, m, h);
    if h.lookup.Found? {
      TextBounds(m, h.Text());
    }
    var ret := SymbolHijack(mem, h.sym, h.lookup, h.buffer, h.func);
    if ret == 0 {
      HandledNow(m0, m, mem[..], h, h.sym.newSize);
    }
  }

  /// hijack_syscalls.  A failing hook is reported and skipped.
  method HijackSyscalls(mem: array<Byte>, hooks: seq<TableEntry>)
    requires WellPlaced(mem[..], hooks) && forall i | 0 <= i < |hooks| :: !hooks[i].sym.hijacked
    modifies mem, set i | 0 <= i < |hooks| :: hooks[i].sym
    ensures forall i | 0 <= i < |hooks| :: Handled(old(mem[..]), mem[..], hooks[i])
    ensures Touched(old(mem[..]), mem[..], hooks, |hooks|)
  {
    hide Ready, Separate, BufferOutsideText, Handled, SameText, Touched, Step;
    ghost var m0 := mem[..];
    TouchedNothing(m0, hooks);
    for n := 0 to |hooks|
      invariant forall i | 0 <= i < n :: Handled(m0, mem[..], hooks[i])
      invariant forall i | n <= i < |hooks| :: !hooks[i].sym.hijacked
      invariant Touched(m0, mem[..], hooks, n)
    {
      ghost var m := mem[..];
      TouchedLength(m0, m, hooks, n);
      if hooks[n].lookup.Found? {
        TextIntact(m0, m, hooks, n);
      }
      forall i | 0 <= i < |hooks| && i != n
        ensures hooks[i].sym != hooks[n].sym
      {
        SymsDiffer(m0, hooks, i, n);
      }
      HijackOne(mem, hooks[n], m0);
      TouchedStep(m0, m, mem[..], hooks, n);
      forall i | 0 <= i < n
        ensures Handled(m0, mem[..], hooks[i])
      {
        HandledStep(m0, m, mem[..], hooks[i], hooks[n]);
      }
    }
  }

  lemma TouchedNothing(m: seq<Byte>, hooks: seq<TableEntry>)
    ensures Touched(m, m, hooks, 0)
  {}

  lemma TouchedLength(m0: seq<Byte>, m: seq<Byte>, hooks: seq<TableEntry>, n: nat)
    requires n <= |hooks| && Touched(m0, m, hooks, n)
    ensures |m| == |m0|
  {}

  lemma SymsDiffer(m: seq<Byte>, hooks: seq<TableEntry>, i: nat, j: nat)
    requires i < |hooks| && j < |hooks| && i != j && WellPlaced(m, hooks)
    ensures hooks[i].sym != hooks[j].sym
  {
    hide Ready, BufferOutsideText, TableEntry.Succeeds;
    assert if i < j then Separate(m, hooks[i], hooks[j]) else Separate(m, hooks[j], hooks[i]);
  }

  // ----- undoing -----

  /// The first n hooks are undone: only buffers and the entries of later hooks still differ.
  ghost predicate Remaining(m0: seq<Byte>, m: seq<Byte>, hooks: seq<TableEntry>, n: nat)
  {
    |m| == |m0| && forall b | 0 <= b < |m0| && m[b] != m0[b] ::
      exists j | 0 <= j < |hooks| :: hooks[j].InBuffer(b) || (n <= j && hooks[j].InEntry(b) && hooks[j].Succeeds(m0))
  }

  /// The part of a symbol record that undoing relies on.
  ghost predicate Recorded(m0: seq<Byte>, h: TableEntry)
    reads h.sym
  {
    && (h.sym.hijacked <==> h.Succeeds(m0))
    && (h.sym.hijacked ==>
          && h.OwnsBuffer() && h.sym.addr == h.lookup.addr && h.lookup.addr + OP_JMP_SIZE <= |m0|
          && h.sym.origStartBytes == m0[h.lookup.addr..h.lookup.addr + OP_JMP_SIZE])
  }

  lemma HandledRecorded(m0: seq<Byte>, m: seq<Byte>, h: TableEntry)
    requires Ready(m0, h) && Handled(m0, m, h)
    ensures Recorded(m0, h)
  {
    hide Decodable, Outcome, Extent, Copied, TrimmedEnd, JumpBytes;
  }

  /// Putting the five saved bytes back.
  lemma RemainingStep(m0: seq<Byte>, m: seq<Byte>, m': seq<Byte>, hooks: seq<TableEntry>, n: nat)
    requires n < |hooks| && Remaining(m0, m, hooks, n)
    requires var (h, a) := (hooks[n], hooks[n].lookup);
      if h.Succeeds(m0) then
        && a.addr + OP_JMP_SIZE <= |m|
        && m' == m[..a.addr] + m0[a.addr..a.addr + OP_JMP_SIZE] + m[a.addr + OP_JMP_SIZE..]
      else m' == m
    ensures Remaining(m0, m', hooks, n + 1)
  {
    hide Outcome;
    var h := hooks[n];
    forall b | 0 <= b < |m0| && m'[b] != m0[b]
      ensures exists j | 0 <= j < |hooks| ::
        hooks[j].InBuffer(b) || (n + 1 <= j && hooks[j].InEntry(b) && hooks[j].Succeeds(m0))
    {
      assert m'[b] == m[b];
      var j :| 0 <= j < |hooks| && (hooks[j].InBuffer(b) || (n <= j && hooks[j].InEntry(b) && hooks[j].Succeeds(m0)));
      assert hooks[j].InBuffer(b) || j != n;
    }
  }

  /// undo_hijack_syscalls
  method UndoHijackSyscalls(mem: array<Byte>, hooks: seq<TableEntry>, ghost m0: seq<Byte>)
    requires WellPlaced(m0, hooks) && Touched(m0, mem[..], hooks, |hooks|)
    requires forall i | 0 <= i < |hooks| :: Handled(m0, mem[..], hooks[i])
    modifies mem, set i | 0 <= i < |hooks| :: hooks[i].sym
    ensures forall i | 0 <= i < |hooks| :: !hooks[i].sym.hijacked
    ensures |m0| == mem.Length
    ensures forall b | 0 <= b < mem.Length && mem[b] != m0[b] :: exists j | 0 <= j < |hooks| :: hooks[j].InBuffer(b)
  {
    hide Ready, Separate, BufferOutsideText, Handled, SameText, TableEntry.Succeeds;
    forall i | 0 <= i < |hooks|
      ensures Recorded(m0, hooks[i])
    {
      HandledRecorded(m0, mem[..], hooks[i]);
    }
    for n := 0 to |hooks|
      invariant Remaining(m0, mem[..], hooks, n)
      invariant forall i | 0 <= i < n :: !hooks[i].sym.hijacked
      invariant forall i | n <= i < |hooks| :: Recorded(m0, hooks[i])
    {
      ghost var m := mem[..];
      forall i | 0 <= i < |hooks| && i != n
        ensures hooks[i].sym != hooks[n].sym
      {
        SymsDiffer(m0, hooks, i, n);
      }
      SymbolRestore(mem, hooks[n].sym);
      RemainingStep(m0, m, mem[..], hooks, n);
    }
  }

  /// Hooking a table and undoing it leaves every byte of kernel text, and every other byte outside
  /// the allocated buffers, as it was.
  method HookThenUndo(mem: array<Byte>, hooks: seq<TableEntry>)
    requires WellPlaced(mem[..], hooks) && forall i | 0 <= i < |hooks| :: !hooks[i].sym.hijacked
    modifies mem, set i | 0 <= i < |hooks| :: hooks[i].sym
    ensures forall b | 0 <= b < mem.Length && (forall j | 0 <= j < |hooks| :: !hooks[j].InBuffer(b)) ::
      mem[b] == old(mem[b])
    ensures forall i | 0 <= i < |hooks| && hooks[i].lookup.Found? ::
      SameText(old(mem[..]), mem[..], hooks[i].lookup.addr, hooks[i].lookup.addr + hooks[i].lookup.size)
  {
    hide Ready, Separate, Handled, Touched;
    ghost var m0 := mem[..];
    HijackSyscalls(mem, hooks);
    UndoHijackSyscalls(mem, hooks, m0);
    forall i | 0 <= i < |hooks| && hooks[i].lookup.Found?
      ensures SameText(m0, mem[..], hooks[i].lookup.addr, hooks[i].lookup.addr + hooks[i].lookup.size)
    {
      forall j | 0 <= j < |hooks|
        ensures forall b :: hooks[j].InBuffer(b) ==>
          !(hooks[i].lookup.addr <= b < hooks[i].lookup.addr + hooks[i].lookup.size)
      {
        assert BufferOutsideText(hooks[j], hooks[i]);
      }
    }
  }
}
