/// What it means for a copied instruction to be relocated: copy_and_fixup_insn of hijacks.c, 64-bit mode.
module Relocation {
  import opened Wrappers
  import opened Bytes
  import opened InatAttr
  import opened Inat
  import opened InsnSpec
  import opened InsnTheory
  import opened InsnForms
  import TableFacts

  /// The text of a kernel function, [addr, addr + size).
  datatype Func = Func(addr: nat, size: nat)
  {
    predicate Contains(a: int) { addr <= a < addr + size }
  }

  /// CODE_ADDR_FROM_OFFSET
  function Target(insnAddr: nat, len: nat, offset: int): nat
  {
    (insnAddr + len + offset) % TWO_64
  }

  /// CODE_OFFSET_FROM_ADDR
  function OffsetTo(insnAddr: nat, len: nat, dest: nat): (r: nat)
    ensures r < TWO_32
  {
    (dest - (insnAddr + len)) % TWO_32
  }

  /// The distance to dest can be encoded in a sign-extended 32-bit field.
  predicate Reachable(insnAddr: nat, len: nat, dest: nat)
  {
    FitsS32(Signed(dest - (insnAddr + len), TWO_64))
  }

  /// The patched displacement leads to dest if and only if dest is within reach.
  lemma PatchedTarget(insnAddr: nat, len: nat, dest: nat)
    requires dest < TWO_64
    ensures Target(insnAddr, len, Signed(OffsetTo(insnAddr, len, dest), TWO_32)) == dest
      <==> Reachable(insnAddr, len, dest)
  {
    var d := dest - (insnAddr + len);
    var s, v := Signed(d, TWO_64), Signed(d % TWO_32, TWO_32);
    assert Signed(OffsetTo(insnAddr, len, dest), TWO_32) == v;
    Sext32(d);
    hide Signed;
    SameTarget64(insnAddr + len, v, dest, s);
  }

  lemma SignedQuotient(d: int) returns (q: int)
    ensures d == Signed(d, TWO_64) + TWO_64 * q
  {
    q := d / TWO_64 + if 2 * (d % TWO_64) < TWO_64 then 0 else 1;
  }

  lemma NearModulo(a: int, b: int)
    requires -TWO_64 < a - b < TWO_64
    ensures a % TWO_64 == b % TWO_64 <==> a == b
  {}

  lemma MultipleModulo(dest: nat, q: int)
    requires dest < TWO_64
    ensures (dest - TWO_64 * q) % TWO_64 == dest
  {}

  /// Two 64-bit displacements that differ lead to different places.
  lemma SameTarget64(next: nat, v: int, dest: nat, s: int)
    requires -0x8000_0000 <= v < 0x8000_0000 && dest < TWO_64 && s == Signed(dest - next, TWO_64)
    ensures (next + v) % TWO_64 == dest <==> v == s
  {
    assert -TWO_64 <= 2 * s < TWO_64;
    var q := SignedQuotient(dest - next);
    assert next + s == dest - TWO_64 * q;
    MultipleModulo(dest, q);
    NearModulo(next + v, next + s);
  }

  // ----- where the 32-bit fields are -----

  /// FORCE64 gives E8 and E9 a 4-byte immediate at the end of the instruction, whatever the prefixes.
  lemma RelativeBranchFields(c: seq<Byte>)
    ensures var l := Parse(c, true);
      l.RelativeBranch() ==>
        l.m.size == 0 && l.dispSize == 0 && l.imm1Size == 4 && l.imm2Size == 0 && l.Length() == l.ImmOff() + 4
  {
    hide PrefixesOf, EscapeAttr, AvxAttr, GroupAttr, OpcodeAttr;
    var l := Parse(c, true);
    if l.RelativeBranch() {
      TableFacts.RelativeBranches(l.o.bytes[0]);
    }
  }

  /// In 32-bit mode the same opcodes have a 4-byte immediate if and only if there is no 0x66 prefix.
  lemma RelativeBranchFields32(c: seq<Byte>)
    ensures var l := Parse(c, false);
      l.RelativeBranch() ==> l.imm1Size == if 0x66 in c[..Run(c)] then 2 else 4
  {
    hide EscapeAttr, AvxAttr, GroupAttr, OpcodeAttr, Stored;
    var l := Parse(c, false);
    if l.RelativeBranch() {
      TableFacts.RelativeBranches(l.o.bytes[0]);
    }
  }

  /// A RIP-relative operand has no SIB byte and a 4-byte displacement, whatever the address size.
  lemma RipRelativeFields(c: seq<Byte>)
    ensures var l := Parse(c, true);
      l.RipRelative() ==> l.sibSize == 0 && l.dispSize == 4 && l.DispOff() + 4 == l.ImmOff() <= l.Length()
  {
    hide OpcodeOf, ModrmOf, EscapeAttr, AvxAttr, GroupAttr, OpcodeAttr, Stored, Run;
  }

  // ----- the copy -----

  /// opcode.bytes[0] is OP_CALL_REL32 or OP_JMP_REL32: the test of copy_and_fixup_insn, which does
  /// not ask whether the byte follows a VEX prefix.
  predicate TakenForBranch(l: Layout)
    requires |l.o.bytes| >= 1
  {
    l.o.bytes[0] == 0xe8 || l.o.bytes[0] == 0xe9
  }

  function Patched(b: seq<Byte>, off: nat, v: nat): (s: seq<Byte>)
    requires off + 4 <= |b| && v < TWO_32
    ensures |s| == |b|
  {
    b[..off] + Le32(v) + b[off + 4..]
  }

  /// The branch test is right about an instruction, or harmless: a VEX instruction with opcode E8
  /// or E9 must be followed by more of the function, and a RIP-relative operand of it must stay inside.
  predicate Classified(c: seq<Byte>, src: nat, f: Func)
  {
    var l := Parse(c, true);
    TakenForBranch(l) ==>
      l.RelativeBranch()
      || (f.Contains(Target(src, l.Length(), Imm1(c, l)))
          && (l.RipRelative() ==> f.Contains(Target(src, l.Length(), Disp(c, l)))))
  }

  /// The u32 store of copy_and_fixup_insn: its offset from dest, and the value.
  function StoreAt(c: seq<Byte>, src: nat, dest: nat, f: Func): (r: Option<(nat, nat)>)
    ensures r.Some? ==> r.value.1 < TWO_32
  {
    var l := Parse(c, true);
    if TakenForBranch(l) then
      var t := Target(src, l.Length(), Imm1(c, l));
      if f.Contains(t) then None else Some((l.ImmOff(), OffsetTo(dest, l.Length(), t)))
    else if l.RipRelative() then
      var t := Target(src, l.Length(), Disp(c, l));
      if f.Contains(t) then None else Some((l.DispOff(), OffsetTo(dest, l.Length(), t)))
    else None
  }

  /// The bytes copy_and_fixup_insn leaves at dest for the instruction at src.
  function CopyOf(c: seq<Byte>, src: nat, dest: nat, f: Func): (s: seq<Byte>)
    requires Parse(c, true).Length() <= |c|
    ensures |s| == Parse(c, true).Length()
  {
    var len := Parse(c, true).Length();
    match StoreAt(c, src, dest, f)
    case None => c[..len]
    case Some((off, v)) => if off + 4 <= len then Patched(c[..len], off, v) else c[..len]
  }

  /// A 32-bit field with value v at src and w at dest: inside the function it is the same number, so
  /// that its target moves with the copy; outside, the target is the same address if it is in reach.
  predicate SameTarget(src: nat, v: int, dest: nat, w: int, len: nat, f: Func)
  {
    var t := Target(src, len, v);
    if f.Contains(t) then w == v
    else Target(dest, len, w) == t <==> Reachable(dest, len, t)
  }

  /// The instruction at the start of window d is the one at the start of c, moved from src to dest:
  /// same prefixes, opcode, ModRM, SIB, sizes and attributes; same targets; same operands and bytes
  /// everywhere else.
  ghost predicate Relocated(c: seq<Byte>, src: nat, d: seq<Byte>, dest: nat, f: Func)
  {
    var l := Parse(c, true);
    && Parse(d, true) == l
    && Imm2(d, l) == Imm2(c, l)
    && (if l.RelativeBranch() then SameTarget(src, Imm1(c, l), dest, Imm1(d, l), l.Length(), f)
        else Imm1(d, l) == Imm1(c, l))
    && (if l.RipRelative() then SameTarget(src, Disp(c, l), dest, Disp(d, l), l.Length(), f)
        else Disp(d, l) == Disp(c, l))
    && (forall i: nat | i < l.Length()
          && !(l.RelativeBranch() && l.ImmOff() <= i < l.ImmOff() + 4)
          && !(l.RipRelative() && l.DispOff() <= i < l.DispOff() + 4) :: At(d, i) == At(c, i))
  }

  lemma PatchedBytes(b: seq<Byte>, off: nat, v: nat)
    requires off + 4 <= |b| && v < TWO_32
    ensures var s := Patched(b, off, v);
      U32(s, off) == v && forall i | 0 <= i < |b| && !(off <= i < off + 4) :: s[i] == b[i]
  {
    var s := Patched(b, off, v);
    assert s[off..off + 4] == Le32(v);
    Le32RoundTrip(v, s, off);
  }

  /// A window that begins with b and the bytes b are read alike.
  lemma PrefixRead(d: seq<Byte>, b: seq<Byte>)
    requires |b| <= |d| && d[..|b|] == b
    ensures Same(d, b, |b|)
  {
    forall i: nat | i < |b|
      ensures At(d, i) == At(b, i)
    {
      assert d[i] == d[..|b|][i];
    }
  }

  /// Overwriting four bytes past the header leaves the layout, and the value read back is the one written.
  lemma PatchedRead(c: seq<Byte>, d: seq<Byte>, off: nat, v: nat)
    requires v < TWO_32
    requires var l := Parse(c, true);
      && l.DispOff() <= off && off + 4 <= l.Length() <= |c| && l.Length() <= |d|
      && d[..l.Length()] == Patched(c[..l.Length()], off, v)
    ensures var l := Parse(c, true);
      && Parse(d, true) == l && S32(d, off) == Signed(v, TWO_32)
      && forall i: nat | i < l.Length() && !(off <= i < off + 4) :: At(d, i) == At(c, i)
  {
    hide Parse;
    var l := Parse(c, true);
    var b := c[..l.Length()];
    var s := Patched(b, off, v);
    PatchedBytes(b, off, v);
    PrefixRead(d, s);
    PrefixRead(c, b);
    assert forall i: nat | i < l.Length() && !(off <= i < off + 4) :: At(d, i) == At(c, i) by {
      forall i: nat | i < l.Length() && !(off <= i < off + 4)
        ensures At(d, i) == At(c, i)
      {
        assert At(d, i) == At(s, i) == s[i] == b[i];
      }
    }
    ParseLocal(c, d, true);
    assert At(d, off) == At(s, off) && At(d, off + 1) == At(s, off + 1);
    assert At(d, off + 2) == At(s, off + 2) && At(d, off + 3) == At(s, off + 3);
  }

  lemma CopiedBranch(c: seq<Byte>, src: nat, d: seq<Byte>, dest: nat, f: Func)
    requires var l := Parse(c, true);
      && l.Length() <= |c| && l.Length() <= |d| && l.RelativeBranch()
      && !f.Contains(Target(src, l.Length(), Imm1(c, l)))
      && d[..l.Length()] == CopyOf(c, src, dest, f)
    ensures Relocated(c, src, d, dest, f)
  {
    hide Parse;
    RelativeBranchFields(c);
    RipRelativeFields(c);
    var l := Parse(c, true);
    var t := Target(src, l.Length(), Imm1(c, l));
    PatchedRead(c, d, l.ImmOff(), OffsetTo(dest, l.Length(), t));
    PatchedTarget(dest, l.Length(), t);
    hide U32;
    assert Imm1(d, l) == Signed(OffsetTo(dest, l.Length(), t), TWO_32);
  }

  lemma CopiedRipRelative(c: seq<Byte>, src: nat, d: seq<Byte>, dest: nat, f: Func)
    requires var l := Parse(c, true);
      && l.Length() <= |c| && l.Length() <= |d| && l.RipRelative() && !TakenForBranch(l)
      && !f.Contains(Target(src, l.Length(), Disp(c, l)))
      && d[..l.Length()] == CopyOf(c, src, dest, f)
    ensures Relocated(c, src, d, dest, f)
  {
    hide Parse;
    RipRelativeFields(c);
    var l := Parse(c, true);
    var t := Target(src, l.Length(), Disp(c, l));
    PatchedRead(c, d, l.DispOff(), OffsetTo(dest, l.Length(), t));
    PatchedTarget(dest, l.Length(), t);
    ValueLocal(c, d, l.ImmOff(), l.imm1Size);
    ValueLocal(c, d, l.ImmOff() + l.imm1Size, l.imm2Size);
    hide U32;
    assert Disp(d, l) == Signed(OffsetTo(dest, l.Length(), t), TWO_32);
  }

  /// Unchanged bytes mean the same when every target is inside the function.
  lemma CopiedUnchanged(c: seq<Byte>, src: nat, d: seq<Byte>, dest: nat, f: Func)
    requires var l := Parse(c, true);
      && l.Length() <= |c| && l.Length() <= |d| && d[..l.Length()] == c[..l.Length()]
      && (l.RelativeBranch() ==> f.Contains(Target(src, l.Length(), Imm1(c, l))))
      && (l.RipRelative() ==> f.Contains(Target(src, l.Length(), Disp(c, l))))
    ensures Relocated(c, src, d, dest, f)
  {
    hide Parse;
    var len := Parse(c, true).Length();
    PrefixRead(d, c[..len]);
    PrefixRead(c, c[..len]);
    DecodeLocal(c, d, true);
  }

  /// Meaning preservation for one instruction.
  lemma CopyRelocates(c: seq<Byte>, src: nat, d: seq<Byte>, dest: nat, f: Func)
    requires Parse(c, true).Length() <= |c| && Classified(c, src, f)
    requires Parse(c, true).Length() <= |d| && d[..Parse(c, true).Length()] == CopyOf(c, src, dest, f)
    ensures Relocated(c, src, d, dest, f)
  {
    hide Parse, Relocated, Imm1, Disp;
    var l := Parse(c, true);
    var len := l.Length();
    RelativeBranchFields(c);
    if l.RelativeBranch() && !f.Contains(Target(src, len, Imm1(c, l))) {
      CopiedBranch(c, src, d, dest, f);
    } else if l.RipRelative() && !TakenForBranch(l) && !f.Contains(Target(src, len, Disp(c, l))) {
      CopiedRipRelative(c, src, d, dest, f);
    } else {
      CopiedUnchanged(c, src, d, dest, f);
    }
  }

  // ----- by address -----

  /// The address that a field with value v leads to, and what becomes of it: an address outside
  /// [f.addr, f.addr + f.size) stays if it is in reach, one inside moves with the function.
  lemma TargetByAddress(src: nat, v: int, dest: nat, w: int, len: nat, f: Func)
    requires SameTarget(src, v, dest, w, len, f)
    ensures var t := (src + len + v) % 0x1_0000_0000_0000_0000; var u := (dest + len + w) % 0x1_0000_0000_0000_0000;
      && (t < f.addr || t >= f.addr + f.size ==> (u == t <==> Reachable(dest, len, t)))
      && (f.addr <= t < f.addr + f.size ==> u == (t + dest - src) % 0x1_0000_0000_0000_0000)
  {
    if f.Contains(Target(src, len, v)) {
      MovedTarget(src, v, dest, len);
    }
  }

  /// An unchanged field leads as much farther as the instruction has moved.
  lemma MovedTarget(src: nat, v: int, dest: nat, len: nat)
    ensures Target(dest, len, v) == (Target(src, len, v) + dest - src) % TWO_64
  {
    var q := (src + len + v) / TWO_64;
    assert src + len + v == q * TWO_64 + Target(src, len, v);
    assert dest + len + v == q * TWO_64 + (Target(src, len, v) + dest - src);
  }

  /// What copy_and_fixup_insn does to CALL rel32, JMP rel32 and RIP-relative operands, by address: targets
  /// outside [f.addr, f.addr + f.size) stay where they are, if they are in reach, and targets inside move.
  lemma FixupByAddress(c: seq<Byte>, src: nat, d: seq<Byte>, dest: nat, f: Func)
    requires var l := Parse(c, true);
      && l.Length() <= |c| && l.Length() <= |d| && d[..l.Length()] == CopyOf(c, src, dest, f) && l.p.vexSize == 0
    ensures var l := Parse(c, true); Parse(d, true) == l
    ensures var l := Parse(c, true);
      var t := (src + l.Length() + Imm1(c, l)) % 0x1_0000_0000_0000_0000;
      var u := (dest + l.Length() + Imm1(d, l)) % 0x1_0000_0000_0000_0000;
      l.o.bytes == [0xe8] || l.o.bytes == [0xe9] ==>
        && (t < f.addr || t >= f.addr + f.size ==> (u == t <==> Reachable(dest, l.Length(), t)))
        && (f.addr <= t < f.addr + f.size ==> u == (t + dest - src) % 0x1_0000_0000_0000_0000)
    ensures var l := Parse(c, true);
      var t := (src + l.Length() + Disp(c, l)) % 0x1_0000_0000_0000_0000;
      var u := (dest + l.Length() + Disp(d, l)) % 0x1_0000_0000_0000_0000;
      l.m.size == 1 && l.m.value / 64 == 0 && l.m.value % 8 == 5 ==>
        && (t < f.addr || t >= f.addr + f.size ==> (u == t <==> Reachable(dest, l.Length(), t)))
        && (f.addr <= t < f.addr + f.size ==> u == (t + dest - src) % 0x1_0000_0000_0000_0000)
  {
    hide Parse, CopyOf, Imm1, Disp, SameTarget, Reachable;
    OneByteBranch(c);
    CopyRelocates(c, src, d, dest, f);
    RelocatedByAddress(c, src, d, dest, f);
    RipRelativeExact(c);
  }

  /// Without a VEX prefix an opcode that begins with E8 or E9 is that byte.
  lemma OneByteBranch(c: seq<Byte>)
    ensures var l := Parse(c, true); l.p.vexSize == 0 && TakenForBranch(l) ==> l.RelativeBranch()
  {
    hide PrefixesOf, OpcodeAttr, EscapeAttr, AvxAttr, GroupAttr;
  }

  /// The same of every relocated instruction.
  lemma RelocatedByAddress(c: seq<Byte>, src: nat, d: seq<Byte>, dest: nat, f: Func)
    requires Relocated(c, src, d, dest, f)
    ensures Parse(d, true) == Parse(c, true)
    ensures var l := Parse(c, true);
      var t := (src + l.Length() + Imm1(c, l)) % 0x1_0000_0000_0000_0000;
      var u := (dest + l.Length() + Imm1(d, l)) % 0x1_0000_0000_0000_0000;
      l.p.vexSize == 0 && (l.o.bytes == [0xe8] || l.o.bytes == [0xe9]) ==>
        && (t < f.addr || t >= f.addr + f.size ==> (u == t <==> Reachable(dest, l.Length(), t)))
        && (f.addr <= t < f.addr + f.size ==> u == (t + dest - src) % 0x1_0000_0000_0000_0000)
    ensures var l := Parse(c, true);
      var t := (src + l.Length() + Disp(c, l)) % 0x1_0000_0000_0000_0000;
      var u := (dest + l.Length() + Disp(d, l)) % 0x1_0000_0000_0000_0000;
      l.m.size == 1 && l.m.value / 64 == 0 && l.m.value % 8 == 5 ==>
        && (t < f.addr || t >= f.addr + f.size ==> (u == t <==> Reachable(dest, l.Length(), t)))
        && (f.addr <= t < f.addr + f.size ==> u == (t + dest - src) % 0x1_0000_0000_0000_0000)
  {
    hide Parse, Imm1, Disp, SameTarget, Reachable;
    var l := Parse(c, true);
    if l.RelativeBranch() {
      TargetByAddress(src, Imm1(c, l), dest, Imm1(d, l), l.Length(), f);
    }
    if l.RipRelative() {
      TargetByAddress(src, Disp(c, l), dest, Disp(d, l), l.Length(), f);
    }
    RipRelativeExact(c);
  }

  /// The ends of the function: its first and its last byte move, the byte behind it stays.
  lemma EndsByAddress(src: nat, v: int, dest: nat, w: int, len: nat, f: Func)
    requires SameTarget(src, v, dest, w, len, f) && f.size > 0 && f.addr + f.size < 0x1_0000_0000_0000_0000
    requires Reachable(dest, len, (src + len + v) % 0x1_0000_0000_0000_0000)
    ensures var t := (src + len + v) % 0x1_0000_0000_0000_0000; var u := (dest + len + w) % 0x1_0000_0000_0000_0000;
      && (t == f.addr ==> u == (f.addr + dest - src) % 0x1_0000_0000_0000_0000)
      && (t == f.addr + f.size - 1 ==> u == (f.addr + f.size - 1 + dest - src) % 0x1_0000_0000_0000_0000)
      && (t == f.addr + f.size ==> u == f.addr + f.size)
      && (t == f.addr - 1 ==> u == f.addr - 1)
  {
    hide SameTarget, Reachable;
    TargetByAddress(src, v, dest, w, len, f);
  }

  // ----- where the branch test is wrong -----

  /// Taken for CALL or JMP, but behind a VEX prefix.
  predicate Misread(l: Layout)
    requires |l.o.bytes| >= 1
  {
    TakenForBranch(l) && !l.RelativeBranch()
  }

  /// A misread instruction has no immediate: where one would begin, the instruction ends.
  lemma MisreadFields(c: seq<Byte>)
    ensures var l := Parse(c, true);
      Misread(l) ==> l.p.vexSize != 0 && l.ImmOff() == l.Length() && Imm1(c, l) == 0
  {
    hide OpcodeAttr, EscapeAttr, GroupAttr, AvxAttr, PrefixesOf;
    var p := PrefixesOf(c, true);
    TableFacts.VexBranchBytes(0xe8, VexM(p), VexP(p));
    TableFacts.VexBranchBytes(0xe9, VexM(p), VexP(p));
  }

  /// The store goes into the instruction, or, for exactly the misread instructions at the end of the
  /// function, to the four bytes behind it.
  lemma StoreExact(c: seq<Byte>, src: nat, dest: nat, f: Func)
    ensures var l := Parse(c, true); var store := StoreAt(c, src, dest, f);
      && (Misread(l) && store.Some? ==> store.value.0 == l.Length())
      && (!Misread(l) && store.Some? ==> l.DispOff() <= store.value.0 && store.value.0 + 4 <= l.Length())
      && (Misread(l) ==> (store.None? <==> f.Contains(Target(src, l.Length(), 0))))
  {
    hide Parse;
    MisreadFields(c);
    RelativeBranchFields(c);
    RipRelativeFields(c);
  }

  predicate StoreInside(c: seq<Byte>, src: nat, dest: nat, f: Func)
  {
    var store := StoreAt(c, src, dest, f);
    store.Some? ==> store.value.0 + 4 <= Parse(c, true).Length()
  }

  /// The copy of a misread instruction is the instruction unchanged, so that its meaning survives if and
  /// only if a RIP-relative operand, if it has one, points into the function.
  lemma MisreadExact(c: seq<Byte>, src: nat, d: seq<Byte>, dest: nat, f: Func)
    requires var l := Parse(c, true);
      && Misread(l) && l.Length() <= |c| && l.Length() <= |d| && d[..l.Length()] == CopyOf(c, src, dest, f)
      && (l.RipRelative() ==> Reachable(dest, l.Length(), Target(src, l.Length(), Disp(c, l))))
    requires (dest - src) % TWO_64 != 0
    ensures var l := Parse(c, true);
      Relocated(c, src, d, dest, f) <==> (l.RipRelative() ==> f.Contains(Target(src, l.Length(), Disp(c, l))))
  {
    hide Parse;
    var l := Parse(c, true);
    StoreExact(c, src, dest, f);
    PrefixRead(c, c[..l.Length()]);
    PrefixRead(d, c[..l.Length()]);
    DecodeLocal(c, d, true);
    ShiftedTarget(src, Disp(c, l), dest, l.Length());
  }

  /// copy_and_fixup_insn does what it should for exactly the Classified instructions: it writes no byte
  /// behind the copy, and the copy means the same.
  lemma ClassifiedExact(c: seq<Byte>, src: nat, d: seq<Byte>, dest: nat, f: Func)
    requires var l := Parse(c, true);
      && l.Length() <= |c| && l.Length() <= |d| && d[..l.Length()] == CopyOf(c, src, dest, f)
      && (l.RipRelative() ==> Reachable(dest, l.Length(), Target(src, l.Length(), Disp(c, l))))
    requires (dest - src) % TWO_64 != 0
    ensures Classified(c, src, f) <==> StoreInside(c, src, dest, f) && Relocated(c, src, d, dest, f)
  {
    hide Parse, Relocated, Imm1, Disp;
    var l := Parse(c, true);
    StoreExact(c, src, dest, f);
    MisreadFields(c);
    if Misread(l) {
      MisreadExact(c, src, d, dest, f);
    } else {
      CopyRelocates(c, src, d, dest, f);
    }
  }

  lemma ShiftedTarget(src: nat, v: int, dest: nat, len: nat)
    requires (dest - src) % TWO_64 != 0
    ensures Target(dest, len, v) != Target(src, len, v)
  {}

  /// VPSUBSB xmm0, xmm0, [rip + disp] is C5 F9 E8 05 disp: a VEX instruction with opcode byte E8.
  lemma VexSubtract(c: seq<Byte>)
    requires |c| >= 8 && c[..4] == [0xc5, 0xf9, 0xe8, 0x05]
    ensures var l := Parse(c, true);
      && l.p.vexSize == 2 && l.o.bytes == [0xe8] && l.RipRelative() && !l.RelativeBranch()
      && l.DispOff() == 4 && l.Length() == 8 && Imm1(c, l) == 0
  {
    hide OpcodeAttr, EscapeAttr, GroupAttr, AvxAttr, Stored, PrefixesOf;
    VexSubtractPrefix(c);
    VexSubtractEntry();
  }

  lemma VexSubtractEntry()
    ensures AvxAttr(0xe8, 1, 1) == ZERO.(modrm := true, vexok := true)
  {}

  lemma VexSubtractPrefix(c: seq<Byte>)
    requires |c| >= 8 && c[..4] == [0xc5, 0xf9, 0xe8, 0x05]
    ensures At(c, 2) == 0xe8 && At(c, 3) == 0x05
    ensures var p := PrefixesOf(c, true); p.End() == 2 && p.vexSize == 2 && VexM(p) == 1 && VexP(p) == 1 && p.addr == 8
  {
    assert c[0] == c[..4][0] && c[1] == c[..4][1] && c[2] == c[..4][2] && c[3] == c[..4][3];
    assert Stops(c, 0) by {
      TableFacts.PrefixBytes(0xc5);
      hide OpcodeAttr;
    }
    hide OpcodeAttr, Stored;
    assert Run(c) == 0;
    VexFields(c, true);
  }

  const VPSUBSB: seq<Byte> := [0xc5, 0xf9, 0xe8, 0x05, 0x00, 0x20, 0x00, 0x00]

  /// A concrete function on which the copy does not mean the same: its operand at 0x3008 is outside
  /// [0x1000, 0x1100), but the copy at 0x5000 refers to 0x7008.
  lemma MisreadVexInstruction()
    ensures var f := Func(0x1000, 0x100); var l := Parse(VPSUBSB, true);
      && TakenForBranch(l) && f.Contains(Target(0x1000, l.Length(), Imm1(VPSUBSB, l)))
      && Target(0x1000, l.Length(), Disp(VPSUBSB, l)) == 0x3008 && Target(0x5000, l.Length(), Disp(VPSUBSB, l)) == 0x7008
      && !Classified(VPSUBSB, 0x1000, f) && !Relocated(VPSUBSB, 0x1000, VPSUBSB, 0x5000, f)
  {
    hide Parse;
    assert VPSUBSB[..4] == [0xc5, 0xf9, 0xe8, 0x05] && |VPSUBSB| == 8;
    assert U32(VPSUBSB, 4) == 0x2000;
    MisreadAt(VPSUBSB);
    MisreadTargets();
    hide Classified, Relocated, Disp, Imm1;
    MisreadExact(VPSUBSB, 0x1000, VPSUBSB, 0x5000, Func(0x1000, 0x100));
  }

  lemma MisreadTargets()
    ensures Target(0x1000, 8, 0) == 0x1008 && Target(0x1000, 8, 0x2000) == 0x3008
    ensures Target(0x5000, 8, 0x2000) == 0x7008 && Reachable(0x5000, 8, 0x3008)
  {}

  lemma MisreadAt(c: seq<Byte>)
    requires |c| == 8 && c[..4] == [0xc5, 0xf9, 0xe8, 0x05] && U32(c, 4) == 0x2000
    ensures var f := Func(0x1000, 0x100); var l := Parse(c, true);
      && TakenForBranch(l) && !l.RelativeBranch() && l.Length() == 8 && Imm1(c, l) == 0 && Disp(c, l) == 0x2000
      && !Classified(c, 0x1000, f)
  {
    VexSubtract(c);
    MisreadTargets();
    RipRelativeFields(c);
    hide Parse, U32, Target;
    assert Disp(c, Parse(c, true)) == S32(c, 4) == 0x2000;
  }
}
