/// What the one-pass reading says of an instruction, in the terms of the Intel 64 and IA-32 Architectures
/// Software Developer's Manual, volume 2: sections 2.1.1 (prefixes), 2.1.3 and 2.1.5 (ModRM and SIB),
/// 2.2.1 (REX), 2.2.1.3 to 2.2.1.7 (displacements, offsets, immediates) and 2.3.5 (VEX).
module InsnForms {
  import opened Bytes
  import opened InatAttr
  import opened InatTables
  import opened Inat
  import opened InsnSpec
  import opened InsnTheory
  import TableFacts

  // ----- prefixes -----

  function Values(s: seq<Byte>): set<Byte> { set x | x in s }

  lemma {:induction false} DistinctCount(s: seq<Byte>)
    ensures |Distinct(s)| == |Values(s)|
  {
    if s == [] {
      assert Values(s) == {};
    } else {
      var front, x := s[..|s| - 1], s[|s| - 1];
      DistinctCount(front);
      DistinctFacts(front);
      assert s == front + [x];
      assert Values(s) == Values(front) + {x};
    }
  }

  /// The run has at most four different values, all of them prefixes, and the byte behind it is no prefix
  /// or would be a fifth value.
  lemma PrefixRun(c: seq<Byte>)
    ensures var n := Run(c);
      && (forall x | x in c[..n] :: IsLegacyPrefix(OpcodeAttr(x))) && |Values(c[..n])| <= 4
      && (!IsLegacyPrefix(OpcodeAttr(At(c, n))) || |Values(c[..n]) + {At(c, n)}| == 5)
  {
    hide OpcodeAttr, IsLegacyPrefix, IsRexPrefix, TableFacts.IsLegacyByte;
    var n := Run(c);
    PrefixScan(c, true);
    DistinctCount(c[..n]);
    DistinctFacts(c[..n]);
    forall x: Byte
      ensures IsLegacyPrefix(OpcodeAttr(x)) <==> TableFacts.IsLegacyByte(x)
    {
      TableFacts.PrefixBytes(x);
    }
    if At(c, n) !in c[..n] {
      assert At(c, n) !in Values(c[..n]);
    }
  }

  /// The operand and the address size, in both modes.  0x66 and 0x67 count once however often they occur,
  /// and REX.W and VEX.W outweigh 0x66.
  lemma SizesByPrefix(c: seq<Byte>, x64: bool)
    ensures var p := PrefixesOf(c, x64); var run := c[..Run(c)];
      && (x64 ==> p.addr == if 0x67 in run then 4 else 8)
      && (!x64 ==> p.addr == if 0x67 in run then 2 else 4)
      && (p.opnd == 8 <==> x64 && ((p.rexSize == 1 && p.rex / 8 % 2 == 1) || (p.vexSize == 3 && At(c, p.run + p.rexSize + 2) / 128 == 1)))
      && (p.opnd != 8 ==> p.opnd == if 0x66 in run then 2 else 4)
  {
    hide Stored, Run;
  }

  /// VEX.m and VEX.p, and which opcodes VEX admits and demands.
  lemma VexRules(c: seq<Byte>, x64: bool)
    ensures var l := Parse(c, x64); var v := l.p.run + l.p.rexSize;
      && (l.p.vexSize == 2 ==> VexM(l.p) == 1 && VexP(l.p) == At(c, v + 1) % 4)
      && (l.p.vexSize == 3 ==> VexM(l.p) == At(c, v + 1) % 32 && VexP(l.p) == At(c, v + 2) % 4)
      && (l.p.vexSize != 0 ==> l.o.attr.vexok || l.o.attr == ZERO)
      && (l.p.vexSize == 0 ==> !l.o.attr.vexonly)
  {
    hide PrefixesOf, OpcodeAttr, EscapeAttr, AvxAttr, GroupAttr;
    VexFields(c, x64);
    OpcodeInside(c, x64);
  }

  // ----- memory operands -----

  /// SIB and displacement by addressing form.  With 32- and 64-bit addresses there is a SIB byte for a
  /// memory operand with r/m 100; the displacement has one byte for mod 01, four for mod 10 and where there
  /// is no base register, and none otherwise.  With 16-bit addresses it has one, two or no bytes.
  lemma AddressForms(c: seq<Byte>, x64: bool)
    ensures var l := Parse(c, x64); var (mod, rm) := (l.m.value / 64, l.m.value % 8);
      && (l.m.size == 0 || mod == 3 ==> l.sibSize == 0 && l.dispSize == 0)
      && (l.p.addr != 2 ==>
            && (l.sibSize == 1 <==> l.m.size == 1 && mod != 3 && rm == 4)
            && (l.sibSize == 1 ==> l.sib == At(c, l.ModrmOff() + 1))
            && (l.dispSize == 1 <==> l.m.size == 1 && mod == 1)
            && (l.dispSize == 4 <==>
                  l.m.size == 1 && (mod == 2 || (mod == 0 && (rm == 5 || (rm == 4 && l.sib % 8 == 5)))))
            && l.dispSize in {0, 1, 4})
      && (l.p.addr == 2 ==>
            && l.sibSize == 0
            && (l.dispSize == 1 <==> l.m.size == 1 && mod == 1)
            && (l.dispSize == 2 <==> l.m.size == 1 && (mod == 2 || (mod == 0 && rm == 6)))
            && l.dispSize in {0, 1, 2})
      && l.sibSize <= 1
  {
    hide Parse;
    SibFields(c, x64);
    ModrmFields(c, x64);
  }

  /// RIP-relative operands are those without a base whose form has no SIB byte: mod 00 with four bytes of
  /// displacement behind the ModRM byte.
  lemma RipRelativeExact(c: seq<Byte>)
    ensures var l := Parse(c, true);
      && (l.RipRelative() <==> l.m.size == 1 && l.m.value / 64 == 0 && l.m.value % 8 == 5)
      && (l.RipRelative() <==> l.m.size == 1 && l.m.value / 64 == 0 && l.sibSize == 0 && l.dispSize == 4)
  {
    hide Parse;
    AddressForms(c, true);
    ModrmFields(c, true);
    ImmediateFields(c, true);
    SizesByPrefix(c, true);
    OpcodeInside(c, true);
  }

  // ----- immediates -----

  /// The immediate bytes in all, by kind: an address has the address size, a full immediate the operand
  /// size, one of the other kinds at most four bytes, and a far pointer two bytes more than its offset.
  lemma ImmediateForms(c: seq<Byte>, x64: bool)
    ensures var l := Parse(c, x64); var (a, opnd, size) := (l.m.attr, l.m.opnd, l.imm1Size + l.imm2Size);
      && (a.moffset ==> size == l.p.addr)
      && (!a.moffset && a.imm == 0 ==> size == 0)
      && (a.imm == IMM_BYTE ==> size == 1)
      && (a.imm == IMM_WORD ==> size == if a.scndimm then 3 else 2)
      && (a.imm == IMM_VWORD ==> size == opnd)
      && (a.imm == IMM_VWORD32 ==> size == if opnd == 2 then 2 else 4)
      && (a.imm == IMM_PTR ==> size == if opnd == 8 then 0 else opnd + 2)
      && (l.imm2Size != 0 ==> (l.imm1Size == if a.scndimm then 2 else if a.imm == IMM_PTR then opnd else 4))
  {
    hide Parse;
    ImmediateFields(c, x64);
    FinalAttr(c, x64);
  }

  /// Instructions with an immediate of the operand size: MOV to a register.  With one of the address size:
  /// MOV with an offset.  ENTER has a word and a byte.
  lemma ImmediateKinds(b: Byte)
    ensures 0xb8 <= b <= 0xbf ==> OpcodeAttr(b).imm == IMM_VWORD
    ensures OpcodeAttr(b).imm == IMM_VWORD ==> 0xb8 <= b <= 0xbf
    ensures OpcodeAttr(b).moffset <==> 0xa0 <= b <= 0xa3
    ensures OpcodeAttr(b).scndimm <==> b == 0xc8
    ensures OpcodeAttr(b).imm == IMM_PTR <==> b == 0x9a || b == 0xea
    ensures OpcodeAttr(b).imm == IMM_WORD <==> b == 0xc2 || b == 0xc8 || b == 0xca
  {
    hide PrimaryEntry;
    if b < 0x80 {
      ImmediatesLow(b);
    } else if b < 0xc0 {
      ImmediatesMiddle(b);
    } else {
      ImmediatesHigh(b);
    }
  }

  predicate PlainImmediate(a: Attr)
  {
    (a.imm == 0 || a.imm == IMM_BYTE || a.imm == IMM_VWORD32) && !a.moffset && !a.scndimm
  }

  lemma ImmediatesLow(b: Byte)
    requires b < 0x80
    ensures PlainImmediate(PrimaryEntry(b))
  {}

  lemma ImmediatesMiddle(b: Byte)
    requires 0x80 <= b < 0xc0
    ensures 0xb8 <= b ==> PrimaryEntry(b).imm == IMM_VWORD && !PrimaryEntry(b).moffset && !PrimaryEntry(b).scndimm
    ensures 0xa0 <= b <= 0xa3 ==> PrimaryEntry(b).moffset && PrimaryEntry(b).imm == 0 && !PrimaryEntry(b).scndimm
    ensures b == 0x9a ==> PrimaryEntry(b).imm == IMM_PTR && !PrimaryEntry(b).moffset && !PrimaryEntry(b).scndimm
    ensures b < 0xb8 && !(0xa0 <= b <= 0xa3) && b != 0x9a ==> PlainImmediate(PrimaryEntry(b))
  {}

  lemma ImmediatesHigh(b: Byte)
    requires 0xc0 <= b
    ensures b == 0xea ==> PrimaryEntry(b).imm == IMM_PTR && !PrimaryEntry(b).moffset && !PrimaryEntry(b).scndimm
    ensures b == 0xc2 || b == 0xc8 || b == 0xca ==> PrimaryEntry(b).imm == IMM_WORD && !PrimaryEntry(b).moffset
    ensures b == 0xc2 || b == 0xca ==> !PrimaryEntry(b).scndimm
    ensures b == 0xc8 ==> PrimaryEntry(b).scndimm
    ensures b !in {0xea, 0xc2, 0xc8, 0xca} ==> PlainImmediate(PrimaryEntry(b))
  {}

  // ----- values -----

  /// A field's value is the signed number that its little-endian bytes stand for.
  lemma SignedValue(c: seq<Byte>, off: nat, size: nat)
    ensures size == 1 ==> -0x80 <= Value(c, off, size) < 0x80 && (Value(c, off, size) - At(c, off)) % 0x100 == 0
    ensures size == 2 ==>
      -0x8000 <= Value(c, off, size) < 0x8000
      && (Value(c, off, size) - At(c, off) - 0x100 * At(c, off + 1)) % 0x1_0000 == 0
    ensures size == 4 ==>
      -0x8000_0000 <= Value(c, off, size) < 0x8000_0000
      && (Value(c, off, size) - At(c, off) - 0x100 * At(c, off + 1)
          - 0x1_0000 * At(c, off + 2) - 0x100_0000 * At(c, off + 3)) % 0x1_0000_0000 == 0
  {}

  /// The fields of a whole instruction are where the layout says and have the values of their bytes.
  lemma FieldValues(c: seq<Byte>, x64: bool)
    ensures var l := Parse(c, x64);
      && Disp(c, l) == Value(c, l.p.End() + |l.o.bytes| + l.m.size + l.sibSize, l.dispSize)
      && Imm1(c, l) == Value(c, l.p.End() + |l.o.bytes| + l.m.size + l.sibSize + l.dispSize, l.imm1Size)
      && (l.imm2Size == 2 ==> Imm2(c, l) == At(c, l.Length() - 2) + 0x100 * At(c, l.Length() - 1))
      && (l.imm2Size != 2 ==> Imm2(c, l) == Value(c, l.Length() - l.imm2Size, l.imm2Size))
      && l.Length() == l.p.End() + |l.o.bytes| + l.m.size + l.sibSize + l.dispSize + l.imm1Size + l.imm2Size
      && l.p.End() == l.p.run + l.p.rexSize + l.p.vexSize
      && (l.m.size == 1 ==> l.m.value == At(c, l.p.End() + |l.o.bytes|))
      && (l.m.size == 1 <==> l.o.attr.modrm)
  {
    hide PrefixesOf, OpcodeOf, GroupAttr, Value;
  }
}
