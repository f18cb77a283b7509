/// hijacks.c and the hook loops of hookvfs.c, 64-bit mode: copy a function, patch its entry, undo.
///
/// Kernel memory is one array of bytes, an address an index into it.  Symbol lookup and module_alloc
/// are foreign: their answers are parameters.
module Hijack {
  import opened Bytes
  import opened Wrappers
  import opened Inat
  import opened InsnSpec
  import opened InsnTheory
  import opened InsnDecoder
  import opened Relocation
  import opened CopyLoop

  const OP_JMP_REL32: Byte := 0xe9
  const OP_CALL_REL32: Byte := 0xe8
  const OP_JMP_SIZE := 5

  const ENOMEM := 12
  const EFAULT := 14
  const EILSEQ := 84

  /// Nothing outside [lo, hi) differs.
  ghost predicate OnlyWithin(m: seq<Byte>, m': seq<Byte>, lo: int, hi: int)
  {
    |m'| == |m| && forall i | 0 <= i < |m| && !(lo <= i < hi) :: m'[i] == m[i]
  }

  method Memcpy(mem: array<Byte>, dest: nat, src: nat, n: nat)
    requires src + n <= mem.Length && dest + n <= mem.Length
    modifies mem
    ensures mem[dest..dest + n] == old(mem[src..src + n])
    ensures OnlyWithin(old(mem[..]), mem[..], dest, dest + n)
  {
    forall i | 0 <= i < n {
      mem[dest + i] := mem[src + i];
    }
  }

  method Memset0(mem: array<Byte>, dest: nat, n: nat)
    requires dest + n <= mem.Length
    modifies mem
    ensures forall i | dest <= i < dest + n :: mem[i] == 0
    ensures OnlyWithin(old(mem[..]), mem[..], dest, dest + n)
  {
    forall i | 0 <= i < n {
      mem[dest + i] := 0;
    }
  }

  /// A store through u32 *.
  method Store32(mem: array<Byte>, a: nat, v: nat)
    requires a + 4 <= mem.Length && v < TWO_32
    modifies mem
    ensures mem[a..a + 4] == Le32(v)
    ensures OnlyWithin(old(mem[..]), mem[..], a, a + 4)
  {
    var b := Le32(v);
    mem[a], mem[a + 1], mem[a + 2], mem[a + 3] := b[0], b[1], b[2], b[3];
  }

  /// A four-byte store inside a copied instruction gives the patched bytes.
  lemma StoreIsPatch(m: seq<Byte>, m': seq<Byte>, dest: nat, n: nat, off: nat, v: nat)
    requires v < TWO_32 && off + 4 <= n && dest + n <= |m|
    requires OnlyWithin(m, m', dest + off, dest + off + 4) && m'[dest + off..dest + off + 4] == Le32(v)
    ensures m'[dest..dest + n] == Patched(m[dest..dest + n], off, v)
  {
    var s := Patched(m[dest..dest + n], off, v);
    forall i | 0 <= i < n
      ensures m'[dest + i] == s[i]
    {
      if off <= i < off + 4 {
        assert m'[dest + i] == m'[dest + off..dest + off + 4][i - off];
      }
    }
  }

  /// *to_fixup = v, seen from the n bytes copied to dest before.
  method StoreFixup(mem: array<Byte>, dest: nat, n: nat, off: nat, v: nat)
    requires v < TWO_32 && dest + off + 4 <= mem.Length && dest + n <= mem.Length && (off + 4 <= n || off == n)
    modifies mem
    ensures StoredAt(old(mem[..]), mem[..], n, dest, off, v)
  {
    hide Le32, Patched;
    ghost var m := mem[..];
    Store32(mem, dest + off, v);
    assert m[dest..dest + n] == old(mem[dest..dest + n]) && mem[..][dest..dest + n] == mem[dest..dest + n];
    assert mem[..][dest + off..dest + off + 4] == mem[dest + off..dest + off + 4];
    if off + 4 <= n {
      StoreIsPatch(m, mem[..], dest, n, off, v);
    } else {
      assert mem[..][dest..dest + n] == m[dest..dest + n];
    }
  }

  /// In memory m', the instruction c from src is copied to dest and fixed up; a store that does not fit
  /// into the instruction has gone behind it, and nothing else differs from m.
  ghost predicate FixedUp(m: seq<Byte>, m': seq<Byte>, c: seq<Byte>, src: nat, dest: nat, f: Func)
    requires Parse(c, true).Length() <= |c|
  {
    var n, store := Parse(c, true).Length(), StoreAt(c, src, dest, f);
    var end := if StoreInside(c, src, dest, f) then n else n + 4;
    && dest + end <= |m'| && m'[dest..dest + n] == CopyOf(c, src, dest, f) && OnlyWithin(m, m', dest, dest + end)
    && (store.Some? ==> m'[dest + store.value.0..dest + store.value.0 + 4] == Le32(store.value.1))
  }

  /// memcpy has put the instruction at dest.
  ghost predicate CopiedTo(m: seq<Byte>, m1: seq<Byte>, c: seq<Byte>, n: nat, dest: nat)
  {
    n <= |c| && dest + n <= |m| && OnlyWithin(m, m1, dest, dest + n) && m1[dest..dest + n] == c[..n]
  }

  /// A store of v has been made off bytes behind dest.
  ghost predicate StoredAt(m1: seq<Byte>, m2: seq<Byte>, n: nat, dest: nat, off: nat, v: nat)
    requires v < TWO_32 && dest + n <= |m1|
  {
    && (off + 4 <= n || off == n) && dest + off + 4 <= |m1|
    && OnlyWithin(m1, m2, dest, dest + if off + 4 <= n then n else n + 4)
    && m2[dest..dest + n] == (if off + 4 <= n then Patched(m1[dest..dest + n], off, v) else m1[dest..dest + n])
    && m2[dest + off..dest + off + 4] == Le32(v)
  }

  /// The store of copy_and_fixup_insn, if it makes one.
  lemma FixupMade(m: seq<Byte>, m1: seq<Byte>, m2: seq<Byte>, c: seq<Byte>, src: nat, dest: nat, f: Func)
    requires CopiedTo(m, m1, c, Parse(c, true).Length(), dest)
    requires match StoreAt(c, src, dest, f)
      case None => m2 == m1
      case Some((off, v)) => StoredAt(m1, m2, Parse(c, true).Length(), dest, off, v)
    ensures FixedUp(m, m2, c, src, dest, f)
  {
    hide Parse, Le32, Patched, StoreAt;
  }

  lemma ClassifiedFixedUp(m: seq<Byte>, m': seq<Byte>, c: seq<Byte>, src: nat, dest: nat, f: Func)
    requires Parse(c, true).Length() <= |c| && Classified(c, src, f)
    ensures StoreInside(c, src, dest, f)
    ensures FixedUp(m, m', c, src, dest, f) ==>
      var n := Parse(c, true).Length();
      dest + n <= |m'| && m'[dest..dest + n] == CopyOf(c, src, dest, f) && OnlyWithin(m, m', dest, dest + n)
  {
    hide Parse, CopyOf, Imm1, Disp;
    StoreExact(c, src, dest, f);
    MisreadFields(c);
  }

  /// Which field copy_and_fixup_insn overwrites, and with what.
  method FixupSite(insn: Insn, dest: nat, f: Func) returns (store: Option<(nat, nat)>)
    requires insn.Valid() && insn.stage == LENGTH && insn.x64 && insn.length == Parse(insn.code, true).Length()
    modifies insn
    ensures store == StoreAt(insn.code, insn.kaddr, dest, f)
    ensures insn.Valid() && insn.stage == LENGTH
  {
    hide Parse, StateAt, Disp, Imm1;
    insn.Decoded();
    insn.OffsetsExact();
    var n := insn.length;
    if insn.opcode.bytes[0] == OP_CALL_REL32 || insn.opcode.bytes[0] == OP_JMP_REL32 {
      var addr := Target(insn.kaddr, n, insn.immediate.value);
      return if f.Contains(addr) then None else Some((insn.OffsetImmediate(), OffsetTo(dest, n, addr)));
    }
    var rip := insn.RipRelative();
    if !rip {
      return None;
    }
    insn.Decoded();
    insn.OffsetsExact();
    var addr := Target(insn.kaddr, n, insn.displacement.value);
    return if f.Contains(addr) then None else Some((insn.OffsetDisplacement(), OffsetTo(dest, n, addr)));
  }

  /// copy_and_fixup_insn
  method CopyAndFixup(mem: array<Byte>, insn: Insn, dest: nat, f: Func)
    requires insn.Valid() && insn.stage == LENGTH && insn.x64
    requires insn.length == Parse(insn.code, true).Length() <= |insn.code|
    requires insn.kaddr + insn.length <= mem.Length && dest + insn.length <= mem.Length
    requires mem[insn.kaddr..insn.kaddr + insn.length] == insn.code[..insn.length]
    requires StoreInside(insn.code, insn.kaddr, dest, f) || dest + insn.length + 4 <= mem.Length
    modifies mem, insn
    ensures FixedUp(old(mem[..]), mem[..], insn.code, insn.kaddr, dest, f)
    ensures insn.Valid() && insn.stage == LENGTH
  {
    hide Parse, StateAt, StoreAt, Patched, Le32, CopyOf, FixedUp, Insn.Valid;
    ghost var c, m := insn.code, mem[..];
    var n := insn.length;
    StoreExact(c, insn.kaddr, dest, f);
    Memcpy(mem, dest, insn.kaddr, n);
    ghost var m1 := mem[..];
    assert m1[dest..dest + n] == mem[dest..dest + n] == c[..n];
    var store := FixupSite(insn, dest, f);
    if store.Some? {
      StoreFixup(mem, dest, n, store.value.0, store.value.1);
    }
    FixupMade(m, m1, mem[..], c, insn.kaddr, dest, f);
  }

  lemma CopyWithin(m0: seq<Byte>, m: seq<Byte>, m': seq<Byte>, lo: int, mid: int, hi: int)
    requires OnlyWithin(m0, m, lo, mid) && OnlyWithin(m, m', mid, hi) && lo <= mid <= hi
    ensures OnlyWithin(m0, m', lo, hi) && SameText(m, m', lo, mid)
  {}

  /// One step of the copy loop, seen from the memory m0 the loop began with.
  lemma CopyStep(m0: seq<Byte>, m: seq<Byte>, m': seq<Byte>, orig: nat, buf: nat, shift: int, f: Func, limit: nat)
    requires f.addr <= orig <= limit <= |m0| && 0 <= orig + shift && buf == f.addr + shift
    requires limit + shift <= f.addr || limit <= buf
    requires orig + LengthAt(m0, orig) <= limit && limit + shift <= |m0|
    requires OnlyWithin(m0, m, buf, orig + shift) && Copied(m0, m, f.addr, orig, shift, f)
    requires Same(m0[orig..], m[orig..], LengthAt(m0, orig)) && Classified(m[orig..], orig, f)
    requires OnlyWithin(m, m', orig + shift, orig + shift + LengthAt(m0, orig))
    requires Parse(m[orig..], true).Length() == LengthAt(m0, orig)
    requires m'[orig + shift..orig + shift + LengthAt(m0, orig)] == CopyOf(m[orig..], orig, orig + shift, f)
    ensures Copied(m0, m', f.addr, orig + LengthAt(m0, orig), shift, f)
    ensures OnlyWithin(m0, m', buf, orig + shift + LengthAt(m0, orig))
  {
    hide Parse, Relocated, CopyOf, Classified;
    var n, dest := LengthAt(m0, orig), orig + shift;
    CopyWithin(m0, m, m', buf, dest, dest + n);
    CopiedLocal(m0, m, m', f.addr, orig, shift, f);
    assert m'[dest..][..n] == m'[dest..dest + n];
    CopyRelocates(m[orig..], orig, m'[dest..], dest, f);
    RelocatedSource(m[orig..], m0[orig..], orig, m'[dest..], dest, f);
    CopiedAppend(m0, m', f.addr, orig, shift, f);
  }

  /// rtb_insn_init and rtb_insn_get_length.
  method DecodeAt(mem: array<Byte>, a: nat) returns (insn: Insn)
    requires a <= mem.Length && a + LengthAt(mem[..], a) <= mem.Length
    ensures fresh(insn) && insn.Valid() && insn.stage == LENGTH && insn.x64 && insn.text == mem && insn.kaddr == a
    ensures insn.code == mem[..][a..] && insn.length == LengthAt(mem[..], a) % 0x100
  {
    hide Parse, StateAt, Insn.Valid;
    insn := new Insn(mem, a, true);
    assert insn.code == mem[..][a..];
    insn.GetLength();
    insn.Decoded();
  }

  /// The instruction at orig, read from a memory m that has only been written in the buffer.
  lemma WalkStep(m0: seq<Byte>, m: seq<Byte>, orig: nat, end: nat, f: Func, limit: nat)
    requires f.addr <= orig < end <= limit <= |m0| && SameText(m0, m, f.addr, limit)
    requires Walkable(m0, orig, end, f, limit)
    ensures var n := LengthAt(m0, orig);
      && LengthAt(m, orig) == n && orig + n <= limit && Same(m0[orig..], m[orig..], n)
      && (n % 0x100 == 0 ==> Extent(m0, orig, end).None?)
      && (n % 0x100 != 0 ==> n < 0x100 && Classified(m[orig..], orig, f) && Walkable(m0, orig + n, end, f, limit)
                             && Extent(m0, orig, end) == Extent(m0, orig + n, end))
  {
    hide Parse, Classified;
    AgreeWindow(m0, m, orig, LengthAt(m0, orig));
    SourceLocal(m0[orig..], m[orig..], orig, f);
  }

  /// One round of the copy loop.
  method CopyOne(mem: array<Byte>, orig: nat, dest: nat, f: Func) returns (len: nat)
    requires orig <= mem.Length && orig + LengthAt(mem[..], orig) <= mem.Length
    requires LengthAt(mem[..], orig) % 0x100 != 0 ==>
      LengthAt(mem[..], orig) < 0x100 && Classified(mem[..][orig..], orig, f) && dest + LengthAt(mem[..], orig) <= mem.Length
    modifies mem
    ensures len == LengthAt(old(mem[..]), orig) % 0x100
    ensures len == 0 ==> mem[..] == old(mem[..])
    ensures len != 0 ==>
      && len == Parse(old(mem[..])[orig..], true).Length() <= |old(mem[..])[orig..]|
      && mem[..][dest..dest + len] == CopyOf(old(mem[..])[orig..], orig, dest, f)
      && OnlyWithin(old(mem[..]), mem[..], dest, dest + len)
  {
    hide Parse, StateAt, Insn.Valid, FixedUp, CopyOf, StoreInside, Classified, LengthAt;
    ghost var m := mem[..];
    LengthIs(m, orig);
    var insn := DecodeAt(mem, orig);
    len := insn.length;
    if len != 0 {
      ClassifiedFixedUp(m, m, m[orig..], orig, dest, f);
      assert mem[orig..orig + len] == m[orig..][..len];
      CopyAndFixup(mem, insn, dest, f);
      ClassifiedFixedUp(m, mem[..], m[orig..], orig, dest, f);
    }
  }

  /// The copy loop of symbol_hijack; it fails when the decoder reports length 0.  It copies whole
  /// instructions even where the last one ends behind the function, up to limit.
  method CopyText(mem: array<Byte>, f: Func, buf: nat, end: nat, ghost limit: nat) returns (ok: bool, newSize: nat)
    requires f.addr <= end <= limit <= mem.Length && buf + (limit - f.addr) <= mem.Length
    requires buf + (limit - f.addr) <= f.addr || limit <= buf
    requires Walkable(mem[..], f.addr, end, f, limit)
    modifies mem
    ensures OnlyWithin(old(mem[..]), mem[..], buf, buf + newSize) && newSize <= limit - f.addr
    ensures ok <==> Extent(old(mem[..]), f.addr, end).Some?
    ensures ok ==> f.addr + newSize == Extent(old(mem[..]), f.addr, end).value
                   && Copied(old(mem[..]), mem[..], f.addr, f.addr + newSize, buf - f.addr, f)
  {
    hide Parse, CopyOf, Classified, Walkable, Copied, LengthAt, Extent;
    ghost var m0, shift := mem[..], buf - f.addr;
    var orig, dest := f.addr, buf;
    CopiedNothing(m0, f.addr, shift, f);
    while orig < end
      invariant f.addr <= orig <= limit && dest == orig + shift
      invariant OnlyWithin(m0, mem[..], buf, dest)
      invariant Walkable(m0, orig, end, f, limit) && Extent(m0, orig, end) == Extent(m0, f.addr, end)
      invariant Copied(m0, mem[..], f.addr, orig, shift, f)
      decreases limit - orig
    {
      ghost var m := mem[..];
      WalkStep(m0, m, orig, end, f, limit);
      var len := CopyOne(mem, orig, dest, f);
      if len == 0 {
        return false, dest - buf;
      }
      LengthIs(m, orig);
      CopyStep(m0, m, mem[..], orig, buf, shift, f, limit);
      orig, dest := orig + len, dest + len;
    }
    ExtentReached(m0, orig, end);
    return true, dest - buf;
  }

  lemma ExtentReached(m: seq<Byte>, a: nat, end: nat)
    requires end <= a <= |m|
    ensures Extent(m, a, end) == Some(a)
  {}

  lemma CopiedNothing(m0: seq<Byte>, a: nat, shift: int, f: Func)
    requires a <= |m0|
    ensures Copied(m0, m0, a, a, shift, f)
  {}

  lemma LengthIs(m: seq<Byte>, a: nat)
    requires a <= |m|
    ensures LengthAt(m, a) == Parse(m[a..], true).Length() >= 1
  {}

  // ----- one symbol -----

  /// What find_symbol_address answers.
  datatype Lookup = Missing(error: int) | Found(addr: nat, size: nat)

  /// struct kernsym
  class KernSym {
    var addr: nat
    var size: nat
    var origStartBytes: seq<Byte>
    var newAddr: nat
    var newSize: nat
    var hijacked: bool
    var run: nat

    constructor ()
      ensures !hijacked
    {
      addr, size, newAddr, newSize, run := 0, 0, 0, 0, 0;
      origStartBytes, hijacked := [0, 0, 0, 0, 0], false;
    }
  }

  /// A symbol is mapped, and its text is whole instructions if the hijack gets as far as decoding it.
  ghost predicate Decodable(m: seq<Byte>, f: Func)
  {
    && f.addr < |m| && f.addr + f.size <= |m| <= TWO_64
    && (f.size >= OP_JMP_SIZE && m[f.addr] != OP_JMP_REL32 ==>
          Walkable(m, f.addr, TrimmedEnd(m, f.addr, f.addr + f.size), f, f.addr + f.size))
  }

  /// The return value of symbol_hijack.
  ghost function Outcome(m: seq<Byte>, lookup: Lookup, buffer: Option<nat>): int
    requires lookup.Found? ==> lookup.addr < |m| && lookup.addr + lookup.size <= |m|
  {
    match lookup
    case Missing(e) => e
    case Found(addr, size) =>
      var end := TrimmedEnd(m, addr, addr + size);
      if m[addr] == OP_JMP_REL32 then -EFAULT
      else if buffer.None? then -ENOMEM
      else if size < OP_JMP_SIZE then -EFAULT
      else if end == addr || Extent(m, addr, end).None? then -EILSEQ
      else 0
  }

  /// Every return value of symbol_hijack for a symbol that was found: -14 where the entry is a jump already
  /// or the symbol is shorter than one, -12 without memory, -84 where the text is all zeros or the decoder
  /// rejects an instruction, and 0 otherwise.
  lemma OutcomeExact(m: seq<Byte>, addr: nat, size: nat, buffer: Option<nat>)
    requires addr < |m| && addr + size <= |m|
    ensures var r := Outcome(m, Found(addr, size), buffer); var end := TrimmedEnd(m, addr, addr + size);
      && (r == -14 <==> m[addr] == 0xe9 || (buffer.Some? && size < 5))
      && (r == -12 <==> m[addr] != 0xe9 && buffer.None?)
      && (r == -84 <==> m[addr] != 0xe9 && buffer.Some? && size >= 5
                        && ((forall i | addr <= i < addr + size :: m[i] == 0) || Extent(m, addr, end).None?))
      && r in {0, -12, -14, -84}
  {
    hide Extent;
    var end := TrimmedEnd(m, addr, addr + size);
    if end > addr {
      assert m[end - 1] != 0;
    }
  }

  /// JMP rel32 from addr to code.
  function JumpBytes(addr: nat, code: nat): (s: seq<Byte>)
    ensures |s| == OP_JMP_SIZE
  {
    [OP_JMP_REL32] + Le32(OffsetTo(addr, OP_JMP_SIZE, code))
  }

  /// The installed entry patch is one 5-byte JMP under the decoder of the repository, and it leads to
  /// code if and only if code is within reach.
  lemma EntryDecodes(c: seq<Byte>, addr: nat, code: nat)
    requires |c| >= OP_JMP_SIZE && c[..OP_JMP_SIZE] == JumpBytes(addr, code) && code < TWO_64
    ensures var l := Parse(c, true);
      && l.p.run == 0 && l.o.bytes == [OP_JMP_REL32] && l.RelativeBranch() && l.Length() == OP_JMP_SIZE
      && (Target(addr, l.Length(), Imm1(c, l)) == code <==> Reachable(addr, OP_JMP_SIZE, code))
  {
    var v := OffsetTo(addr, OP_JMP_SIZE, code);
    assert c[0] == c[..OP_JMP_SIZE][0];
    assert c[1..5] == Le32(v) by {
      assert forall i | 1 <= i < 5 :: c[i] == c[..OP_JMP_SIZE][i];
    }
    JumpLayout(c);
    hide Parse;
    RelativeBranchFields(c);
    Le32RoundTrip(v, c, 1);
    PatchedTarget(addr, OP_JMP_SIZE, code);
  }

  lemma JumpLayout(c: seq<Byte>)
    requires |c| >= 1 && c[0] == OP_JMP_REL32
    ensures var l := Parse(c, true); l.p.run == 0 && l.p.End() == 0 && l.o.bytes == [OP_JMP_REL32] && l.RelativeBranch()
  {
    hide OpcodeAttr, EscapeAttr, AvxAttr, GroupAttr, Stored;
    assert Stops(c, 0);
    assert Run(c) == 0;
  }

  /// In memory m, function f of m0 starts with a jump to code, and buf holds its relocated original:
  /// the instructions up to the first boundary past the last non-zero byte, then zeros.
  ghost predicate Installed(m0: seq<Byte>, m: seq<Byte>, f: Func, buf: nat, newSize: nat, code: nat)
  {
    && |m| == |m0| && OP_JMP_SIZE <= f.size && f.addr + f.size <= |m| && buf + f.size <= |m| && newSize <= f.size
    && Extent(m0, f.addr, TrimmedEnd(m0, f.addr, f.addr + f.size)) == Some(f.addr + newSize)
    && Copied(m0, m, f.addr, f.addr + newSize, buf - f.addr, f)
    && (forall i | buf + newSize <= i < buf + f.size :: m[i] == 0)
    && m[f.addr..f.addr + OP_JMP_SIZE] == JumpBytes(f.addr, code)
  }

  /// Only the buffer and the five entry bytes differ.
  ghost predicate EntryAndBufferOnly(m: seq<Byte>, m': seq<Byte>, f: Func, buf: nat)
  {
    |m'| == |m| && forall i | 0 <= i < |m| && !(buf <= i < buf + f.size)
                     && !(f.addr <= i < f.addr + OP_JMP_SIZE) :: m'[i] == m[i]
  }

  ghost predicate Apart(a: nat, n: nat, b: nat, k: nat)
  {
    a + n <= b || b + k <= a
  }

  lemma {:induction false} TrimmedLocal(m: seq<Byte>, m': seq<Byte>, start: nat, end: nat)
    requires start <= end <= |m| && SameText(m, m', start, end)
    ensures TrimmedEnd(m', start, end) == TrimmedEnd(m, start, end)
    decreases end - start
  {
    if end > start && m[end - 1] == 0 {
      TrimmedLocal(m, m', start, end - 1);
    }
  }

  /// Decoding does not notice writes elsewhere.
  lemma DecodableLocal(m: seq<Byte>, m': seq<Byte>, f: Func)
    requires Decodable(m, f) && f.size > 0 && SameText(m, m', f.addr, f.addr + f.size)
    ensures Decodable(m', f)
    ensures TrimmedEnd(m', f.addr, f.addr + f.size) == TrimmedEnd(m, f.addr, f.addr + f.size)
    ensures var end := TrimmedEnd(m, f.addr, f.addr + f.size);
      f.size >= OP_JMP_SIZE && m[f.addr] != OP_JMP_REL32 ==> Extent(m', f.addr, end) == Extent(m, f.addr, end)
  {
    hide Walkable, Extent;
    var end := TrimmedEnd(m, f.addr, f.addr + f.size);
    TrimmedLocal(m, m', f.addr, f.addr + f.size);
    if f.size >= OP_JMP_SIZE && m[f.addr] != OP_JMP_REL32 {
      WalkLocal(m, m', f.addr, end, f, f.addr + f.size);
    }
  }

  /// The while loop over trailing zero bytes.
  method TrimZeros(mem: array<Byte>, f: Func) returns (end: nat)
    requires f.addr + f.size <= mem.Length
    ensures end == TrimmedEnd(mem[..], f.addr, f.addr + f.size)
  {
    end := f.addr + f.size;
    while end > f.addr && mem[end - 1] == 0
      invariant f.addr <= end <= f.addr + f.size
      invariant TrimmedEnd(mem[..], f.addr, end) == TrimmedEnd(mem[..], f.addr, f.addr + f.size)
    {
      end := end - 1;
    }
  }

  /// Overwrite the entry of a function with a jump.
  method PatchEntry(mem: array<Byte>, addr: nat, code: nat)
    requires addr + OP_JMP_SIZE <= mem.Length
    modifies mem
    ensures mem[addr..addr + OP_JMP_SIZE] == JumpBytes(addr, code)
    ensures OnlyWithin(old(mem[..]), mem[..], addr, addr + OP_JMP_SIZE)
  {
    mem[addr] := OP_JMP_REL32;
    Store32(mem, addr + 1, OffsetTo(addr, OP_JMP_SIZE, code));
    var s := JumpBytes(addr, code);
    assert forall i | 1 <= i < 5 :: mem[addr + i] == mem[addr + 1..addr + 5][i - 1] == s[i];
  }

  lemma TextBounds(m: seq<Byte>, f: Func)
    requires Decodable(m, f)
    ensures f.addr < |m| && f.addr + f.size <= |m|
  {
    hide Walkable;
  }

  /// What a successful symbol_hijack leaves: the jump, the relocated copy and the saved entry; nothing else
  /// has changed.
  ghost predicate Hijacked(m0: seq<Byte>, m: seq<Byte>, f: Func, buf: nat, newSize: nat, saved: seq<Byte>, code: nat)
  {
    && Installed(m0, m, f, buf, newSize, code) && EntryAndBufferOnly(m0, m, f, buf)
    && saved == m0[f.addr..f.addr + OP_JMP_SIZE]
  }

  /// In plain terms: E9 and the distance to code at the entry, zeros behind the copy, the five saved bytes,
  /// and every other byte as it was.
  lemma HijackedMeans(m0: seq<Byte>, m: seq<Byte>, f: Func, buf: nat, newSize: nat, saved: seq<Byte>, code: nat)
    requires Hijacked(m0, m, f, buf, newSize, saved, code)
    ensures |m| == |m0| && newSize <= f.size && f.size >= 5 && f.addr + f.size <= |m| && buf + f.size <= |m|
    ensures m[f.addr] == 0xe9 && m[f.addr + 1..f.addr + 5] == Le32((code - (f.addr + 5)) % 0x1_0000_0000)
    ensures |saved| == 5 && forall i | 0 <= i < 5 :: saved[i] == m0[f.addr + i]
    ensures forall i | buf + newSize <= i < buf + f.size :: m[i] == 0
    ensures forall i | 0 <= i < |m| && (i < buf || i >= buf + f.size) && (i < f.addr || i >= f.addr + 5) :: m[i] == m0[i]
    ensures Copied(m0, m, f.addr, f.addr + newSize, buf - f.addr, f)
  {
    hide Copied, Extent, TrimmedEnd, Le32;
    var entry := m[f.addr..f.addr + 5];
    assert entry == JumpBytes(f.addr, code);
    assert m[f.addr] == entry[0] && m[f.addr + 1..f.addr + 5] == entry[1..];
  }

  /// symbol_hijack
  method SymbolHijack(mem: array<Byte>, sym: KernSym, lookup: Lookup, buffer: Option<nat>, code: nat) returns (ret: int)
    requires lookup.Missing? ==> lookup.error < 0
    requires lookup.Found? ==> Decodable(mem[..], Func(lookup.addr, lookup.size))
    requires lookup.Found? && buffer.Some? ==>
      buffer.value + lookup.size <= mem.Length && Apart(buffer.value, lookup.size, lookup.addr, lookup.size)
    modifies mem, sym
    ensures ret == Outcome(old(mem[..]), lookup, buffer)
    ensures lookup.Found? ==> sym.addr == lookup.addr && sym.size == lookup.size
    ensures ret != 0 ==> sym.hijacked == old(sym.hijacked)
    ensures ret != 0 ==>
      if lookup.Found? && buffer.Some? then
        OnlyWithin(old(mem[..]), mem[..], buffer.value, buffer.value + lookup.size)
      else mem[..] == old(mem[..])
    ensures ret == 0 ==>
      && lookup.Found? && buffer.Some? && sym.hijacked && sym.newAddr == sym.run == buffer.value
      && Hijacked(old(mem[..]), mem[..], Func(sym.addr, sym.size), sym.newAddr, sym.newSize, sym.origStartBytes, code)
  {
    if lookup.Missing? {
      return lookup.error;
    }
    hide Decodable, Extent, Hijacked, TrimmedEnd, OnlyWithin, Apart;
    var (addr, size) := (lookup.addr, lookup.size);
    TextBounds(mem[..], Func(addr, size));
    sym.addr, sym.size := addr, size;
    if mem[addr] == OP_JMP_REL32 {
      return -EFAULT;
    }
    if buffer.None? {
      return -ENOMEM;
    }
    sym.newAddr := buffer.value;
    ret := CopyAndPatch(mem, sym, Func(addr, size), buffer.value, code);
  }

  /// symbol_hijack once the buffer is allocated.
  method CopyAndPatch(mem: array<Byte>, sym: KernSym, f: Func, buf: nat, code: nat) returns (ret: int)
    requires Decodable(mem[..], f) && mem[f.addr] != OP_JMP_REL32 && sym.addr == f.addr && sym.size == f.size
    requires buf + f.size <= mem.Length && Apart(buf, f.size, f.addr, f.size)
    modifies mem, sym`newSize, sym`run, sym`origStartBytes, sym`hijacked
    ensures ret == Outcome(old(mem[..]), Found(f.addr, f.size), Some(buf))
    ensures ret != 0 ==>
      sym.hijacked == old(sym.hijacked) && OnlyWithin(old(mem[..]), mem[..], buf, buf + f.size)
    ensures ret == 0 ==>
      sym.hijacked && sym.run == buf && Hijacked(old(mem[..]), mem[..], f, buf, sym.newSize, sym.origStartBytes, code)
  {
    hide Walkable, Extent, OnlyWithin, Hijacked, TrimmedEnd;
    ghost var m0 := mem[..];
    Memset0(mem, buf, f.size);
    ghost var m1 := mem[..];
    ClearedBuffer(m0, m1, f, buf);
    if f.size < OP_JMP_SIZE {
      return -EFAULT;
    }
    DecodableLocal(m0, m1, f);
    var end := TrimZeros(mem, f);
    if end == f.addr {
      return -EILSEQ;
    }
    ret := CopyAndJump(mem, sym, f, buf, end, code, m0);
  }

  /// The copy loop, and the jump if it succeeds, from the cleared buffer on.
  method CopyAndJump(mem: array<Byte>, sym: KernSym, f: Func, buf: nat, end: nat, code: nat, ghost m0: seq<Byte>)
    returns (ret: int)
    requires OP_JMP_SIZE <= f.size && f.addr + f.size <= mem.Length == |m0|
    requires buf + f.size <= mem.Length && Apart(buf, f.size, f.addr, f.size)
    requires OnlyWithin(m0, mem[..], buf, buf + f.size) && SameText(m0, mem[..], f.addr, f.addr + f.size)
    requires forall i | buf <= i < buf + f.size :: mem[i] == 0
    requires end == TrimmedEnd(m0, f.addr, f.addr + f.size) && Walkable(mem[..], f.addr, end, f, f.addr + f.size)
    requires Extent(mem[..], f.addr, end) == Extent(m0, f.addr, end)
    modifies mem, sym`newSize, sym`run, sym`origStartBytes, sym`hijacked
    ensures ret == if Extent(m0, f.addr, end).Some? then 0 else -EILSEQ
    ensures ret != 0 ==> sym.hijacked == old(sym.hijacked) && OnlyWithin(m0, mem[..], buf, buf + f.size)
    ensures ret == 0 ==>
      sym.hijacked && sym.run == buf && Hijacked(m0, mem[..], f, buf, sym.newSize, sym.origStartBytes, code)
  {
    hide Walkable, Extent, Copied, OnlyWithin, Installed, TrimmedEnd, JumpBytes, EntryAndBufferOnly;
    ghost var m1 := mem[..];
    var ok, newSize := CopyText(mem, f, buf, end, f.addr + f.size);
    ghost var m2 := mem[..];
    FilledBuffer(m0, m1, m2, f, buf, newSize);
    if !ok {
      return -EILSEQ;
    }
    sym.newSize, sym.run := newSize, buf;
    sym.origStartBytes := mem[f.addr..f.addr + OP_JMP_SIZE];
    PatchEntry(mem, f.addr, code);
    sym.hijacked := true;
    CopiedFrom(m0, m1, m2, mem[..], f, buf, newSize, code);
    return 0;
  }

  lemma ClearedBuffer(m0: seq<Byte>, m1: seq<Byte>, f: Func, buf: nat)
    requires OnlyWithin(m0, m1, buf, buf + f.size) && Apart(buf, f.size, f.addr, f.size)
    ensures SameText(m0, m1, f.addr, f.addr + f.size)
  {}

  lemma FilledBuffer(m0: seq<Byte>, m1: seq<Byte>, m2: seq<Byte>, f: Func, buf: nat, newSize: nat)
    requires OnlyWithin(m0, m1, buf, buf + f.size) && OnlyWithin(m1, m2, buf, buf + newSize) && newSize <= f.size
    ensures OnlyWithin(m0, m2, buf, buf + f.size)
  {}

  /// From the cleared and filled buffer, relative to the memory before, once the entry is patched.
  lemma CopiedFrom(m0: seq<Byte>, m1: seq<Byte>, m2: seq<Byte>, m3: seq<Byte>, f: Func, buf: nat, newSize: nat, code: nat)
    requires newSize <= f.size && OP_JMP_SIZE <= f.size && f.addr + f.size <= |m0| && buf + f.size <= |m0|
    requires Apart(buf, f.size, f.addr, f.size) && SameText(m0, m1, f.addr, f.addr + f.size)
    requires OnlyWithin(m0, m1, buf, buf + f.size) && forall i | buf <= i < buf + f.size :: m1[i] == 0
    requires OnlyWithin(m1, m2, buf, buf + newSize) && OnlyWithin(m2, m3, f.addr, f.addr + OP_JMP_SIZE)
    requires Copied(m1, m2, f.addr, f.addr + newSize, buf - f.addr, f)
    requires Extent(m0, f.addr, TrimmedEnd(m0, f.addr, f.addr + f.size)) == Some(f.addr + newSize)
    requires m3[f.addr..f.addr + OP_JMP_SIZE] == JumpBytes(f.addr, code)
    ensures Installed(m0, m3, f, buf, newSize, code)
    ensures m2[f.addr..f.addr + OP_JMP_SIZE] == m0[f.addr..f.addr + OP_JMP_SIZE]
    ensures EntryAndBufferOnly(m0, m3, f, buf)
  {
    hide Copied, Extent, TrimmedEnd, JumpBytes;
    CopiedSource(m1, m0, m2, f.addr, f.addr + newSize, buf - f.addr, f);
    CopiedLocal(m0, m2, m3, f.addr, f.addr + newSize, buf - f.addr, f);
  }

  lemma {:induction false} CopiedSource(m0: seq<Byte>, m0': seq<Byte>, m1: seq<Byte>, a: nat, b: nat, shift: int, f: Func)
    requires f.addr <= a <= |m0| && b <= f.addr + f.size <= |m0| && SameText(m0, m0', f.addr, f.addr + f.size)
    requires Copied(m0, m1, a, b, shift, f)
    ensures Copied(m0', m1, a, b, shift, f)
    decreases b - a
  {
    hide Parse, Relocated;
    if a < b {
      var n := LengthAt(m0, a);
      AgreeWindow(m0, m0', a, n);
      DecodeLocal(m0[a..], m0'[a..], true);
      RelocatedSource(m0[a..], m0'[a..], a, m1[a + shift..], a + shift, f);
      CopiedSource(m0, m0', m1, a + n, b, shift, f);
    }
  }

  /// symbol_restore
  method SymbolRestore(mem: array<Byte>, sym: KernSym)
    requires sym.hijacked ==> |sym.origStartBytes| == OP_JMP_SIZE && sym.addr + OP_JMP_SIZE <= mem.Length
    modifies mem, sym`hijacked
    ensures !sym.hijacked
    ensures mem[..] == if !old(sym.hijacked) then old(mem[..])
      else old(mem[..])[..sym.addr] + sym.origStartBytes + old(mem[..])[sym.addr + OP_JMP_SIZE..]
  {
    if sym.hijacked {
      forall i | 0 <= i < OP_JMP_SIZE {
        mem[sym.addr + i] := sym.origStartBytes[i];
      }
      sym.hijacked := false;
    }
  }
}
