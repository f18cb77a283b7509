/// One-pass reading of an x86 instruction, by size rules and offsets.
///
/// A window c of memory starts at the first byte of the instruction.  Parse gives the size of every
/// field and the attributes; a field sits at the sum of the sizes before it.  The stateful decoder of
/// arch/x86/lib/insn.c (module InsnDecoder) is proved to refine this.
module InsnSpec {
  import opened Bytes
  import opened InatAttr
  import opened Inat
  import TableFacts

  // ----- legacy prefixes -----

  /// The distinct elements, in order of first occurrence.
  function Distinct(s: seq<Byte>): (d: seq<Byte>)
    ensures |d| <= |s|
  {
    if s == [] then []
    else
      var d := Distinct(s[..|s| - 1]);
      if s[|s| - 1] in d then d else d + [s[|s| - 1]]
  }

  /// The prefix run ends at i: no prefix byte there, or a fifth distinct one.
  predicate Stops(c: seq<Byte>, i: nat)
    requires i <= |c|
  {
    !TableFacts.IsLegacyByte(At(c, i)) || (At(c, i) !in Distinct(c[..i]) && |Distinct(c[..i])| == 4)
  }

  function RunFrom(c: seq<Byte>, i: nat): (n: nat)
    requires i <= |c|
    ensures i <= n <= |c|
    decreases |c| - i
  {
    if Stops(c, i) then i else RunFrom(c, i + 1)
  }

  function Run(c: seq<Byte>): (n: nat)
    ensures n <= |c|
  {
    RunFrom(c, 0)
  }

  function Pad4(d: seq<Byte>): (s: seq<Byte>)
    ensures |s| == 4
  {
    seq(4, i requires 0 <= i => if i < |d| then d[i] else 0)
  }

  /// prefixes.bytes after the scan: slot 3 holds the last prefix, and a fourth distinct prefix that
  /// was there takes over the slot of the last one.
  function Stored(run: seq<Byte>): (s: seq<Byte>)
    ensures |s| == 4
  {
    var pad := Pad4(Distinct(run));
    if run == [] then pad
    else
      var last := run[|run| - 1];
      seq(4, i requires 0 <= i < 4 => if i == 3 then last else if pad[i] == last && pad[3] != 0 then pad[3] else pad[i])
  }

  datatype Prefixes = Prefixes(run: nat, bytes: seq<Byte>, rexSize: nat, rex: Byte, vexSize: nat, vex: seq<Byte>,
                               opnd: nat, addr: nat)
  {
    function End(): nat { run + rexSize + vexSize }

    ghost predicate WellFormed()
    {
      |bytes| == 4 && |vex| == 4 && rexSize <= 1 && (vexSize == 0 || vexSize == 2 || vexSize == 3)
    }
  }

  predicate IsVex(b: Byte) { b == 0xc4 || b == 0xc5 }

  /// Legacy prefixes, REX (64-bit mode) and VEX; in 32-bit mode C4 and C5 are VEX only before a
  /// byte whose top bits are 11.
  function PrefixesOf(c: seq<Byte>, x64: bool): (p: Prefixes)
    ensures p.WellFormed()
  {
    var n := Run(c);
    var rexSize := if x64 && 0x40 <= At(c, n) <= 0x4f then 1 else 0;
    var v := n + rexSize;
    var vexSize := if IsVex(At(c, v)) && (x64 || At(c, v + 1) >= 0xc0)
      then (if At(c, v) == 0xc4 then 3 else 2) else 0;
    var wide := (rexSize == 1 && At(c, n) / 8 % 2 == 1) || (vexSize == 3 && x64 && At(c, v + 2) >= 0x80);
    Prefixes(n, Stored(c[..n]), rexSize, if rexSize == 1 then At(c, n) else 0,
             vexSize, seq(4, i requires 0 <= i => if i < vexSize then At(c, v + i) else 0),
             if wide then 8 else if 0x66 in c[..n] then 2 else 4,
             AddressSize(x64, 0x67 in c[..n]))
  }

  function AddressSize(x64: bool, overridden: bool): nat
  {
    if x64 then (if overridden then 4 else 8) else (if overridden then 2 else 4)
  }

  // ----- opcode and ModRM -----

  datatype Opcode = Opcode(bytes: seq<Byte>, attr: Attr)

  function VexM(p: Prefixes): nat
    requires p.WellFormed()
  {
    if p.vexSize == 2 then 1 else p.vex[1] % 32
  }

  function VexP(p: Prefixes): nat
    requires p.WellFormed()
  {
    if p.vexSize == 2 then p.vex[1] % 4 else p.vex[2] % 4
  }

  function WithoutVex(a: Attr): Attr { if a.vexonly then ZERO else a }

  /// One byte after VEX; otherwise 0F and 0F 38 / 0F 3A escape to the two- and three-byte maps.
  function OpcodeOf(c: seq<Byte>, p: Prefixes): (o: Opcode)
    requires p.WellFormed()
    ensures 1 <= |o.bytes| <= 3 && (p.vexSize != 0 ==> |o.bytes| == 1)
  {
    var b0, b1, b2 := At(c, p.End()), At(c, p.End() + 1), At(c, p.End() + 2);
    if p.vexSize != 0 then
      var a := AvxAttr(b0, VexM(p), VexP(p));
      Opcode([b0], if a.vexok then a else ZERO)
    else if b0 != 0x0f then Opcode([b0], WithoutVex(OpcodeAttr(b0)))
    else
      var a1 := EscapeAttr(b1, p.bytes[3], OpcodeAttr(b0));
      if b1 != 0x38 && b1 != 0x3a then Opcode([b0, b1], WithoutVex(a1))
      else Opcode([b0, b1, b2], WithoutVex(EscapeAttr(b2, p.bytes[3], a1)))
  }

  datatype ModRM = ModRM(size: nat, value: Byte, attr: Attr, opnd: nat)

  function ModrmOf(c: seq<Byte>, x64: bool, p: Prefixes, o: Opcode): (m: ModRM)
    requires p.WellFormed()
    ensures m.size <= 1
  {
    var size := if o.attr.modrm then 1 else 0;
    var value := if o.attr.modrm then At(c, p.End() + |o.bytes|) else 0;
    var attr := if o.attr.modrm && o.attr.grp != 0 then GroupAttr(value, p.bytes[3], o.attr) else o.attr;
    ModRM(size, value, attr, if x64 && attr.force64 then 8 else p.opnd)
  }

  function Mod(b: Byte): nat { b / 64 }
  function Rm(b: Byte): nat { b % 8 }

  // ----- memory operand and immediates -----

  function SibSize(m: ModRM, addr: nat): nat
  {
    if m.size != 0 && addr != 2 && Mod(m.value) != 3 && Rm(m.value) == 4 then 1 else 0
  }

  function DispSize(m: ModRM, sib: Byte, addr: nat): nat
  {
    if m.size == 0 || Mod(m.value) == 3 then 0
    else if Mod(m.value) == 1 then 1
    else if addr == 2 then (if Mod(m.value) == 2 || Rm(m.value) == 6 then 2 else 0)
    else if Mod(m.value) == 2 || Rm(m.value) == 5 || sib % 8 == 5 then 4
    else 0
  }

  function Imm1Size(a: Attr, opnd: nat, addr: nat): nat
  {
    if a.moffset then (if addr == 2 then 2 else 4)
    else if a.imm == 0 then 0
    else if a.imm == IMM_BYTE then 1
    else if a.imm == IMM_WORD then 2
    else if a.imm == IMM_DWORD || a.imm == IMM_QWORD then 4
    else if a.imm == IMM_PTR then (if opnd == 8 then 0 else opnd)
    else if opnd == 2 then 2 else 4
  }

  function Imm2Size(a: Attr, opnd: nat, addr: nat): nat
  {
    if a.moffset then (if addr == 8 then 4 else 0)
    else if a.imm == 0 then 0
    else if a.scndimm then 1
    else if a.imm == IMM_QWORD then 4
    else if a.imm == IMM_PTR then (if opnd == 8 then 0 else 2)
    else if a.imm == IMM_VWORD && opnd == 8 then 4
    else 0
  }

  datatype Layout = Layout(p: Prefixes, o: Opcode, m: ModRM, sibSize: nat, sib: Byte, dispSize: nat,
                           imm1Size: nat, imm2Size: nat)
  {
    function ModrmOff(): nat { p.End() + |o.bytes| }
    function SibOff(): nat { ModrmOff() + m.size }
    function DispOff(): nat { SibOff() + sibSize }
    function ImmOff(): nat { DispOff() + dispSize }
    function Length(): nat { ImmOff() + imm1Size + imm2Size }

    /// ModRM mod 00, r/m 101 in 64-bit mode.
    predicate RipRelative() { m.size != 0 && Mod(m.value) == 0 && Rm(m.value) == 5 }

    /// CALL rel32 and JMP rel32.
    predicate RelativeBranch() { p.vexSize == 0 && (o.bytes == [0xe8] || o.bytes == [0xe9]) }
  }

  function Parse(c: seq<Byte>, x64: bool): (l: Layout)
    ensures l.p.WellFormed() && 1 <= |l.o.bytes| <= 3
  {
    var p := PrefixesOf(c, x64);
    var o := OpcodeOf(c, p);
    var m := ModrmOf(c, x64, p, o);
    var sibSize := SibSize(m, p.addr);
    var sib := if sibSize == 1 then At(c, p.End() + |o.bytes| + m.size) else 0;
    Layout(p, o, m, sibSize, sib, DispSize(m, sib, p.addr),
           Imm1Size(m.attr, m.opnd, p.addr), Imm2Size(m.attr, m.opnd, p.addr))
  }

  function Value(c: seq<Byte>, off: nat, size: nat): int
  {
    if size == 1 then S8(c, off) else if size == 2 then S16(c, off) else if size == 4 then S32(c, off) else 0
  }

  function Disp(c: seq<Byte>, l: Layout): int { Value(c, l.DispOff(), l.dispSize) }
  function Imm1(c: seq<Byte>, l: Layout): int { Value(c, l.ImmOff(), l.imm1Size) }

  /// The second immediate; the segment selector of a far pointer is read unsigned.
  function Imm2(c: seq<Byte>, l: Layout): int
  {
    if l.imm2Size == 2 then U16(c, l.ImmOff() + l.imm1Size) else Value(c, l.ImmOff() + l.imm1Size, l.imm2Size)
  }
}
