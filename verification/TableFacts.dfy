/// What the concrete attribute tables guarantee; the decoder relies on nothing else about them.
module TableFacts {
  import opened Bytes
  import opened Wrappers
  import opened InatAttr
  import opened InatTables
  import opened Inat

  /// Entries of the one-byte map.
  predicate Wide(a: Attr)
  {
    && (a.scndimm ==> a.imm == IMM_WORD && !a.modrm)
    && (a.moffset ==> a.imm == 0 && !a.modrm)
    && a.imm != IMM_DWORD && a.imm != IMM_QWORD
    && (a.imm == IMM_WORD || a.imm == IMM_PTR || a.imm == IMM_VWORD ==> !a.modrm)
    && (a.grp != 0 ==> a.modrm && a.grp <= 8)
    && (a.grp != 0 && a.imm != 0 ==> a.grp == 1 || a.grp == 3 || a.grp == 4)
  }

  /// Entries of the maps behind an escape or a VEX prefix.
  predicate Narrow(a: Attr)
  {
    && !a.scndimm && !a.moffset
    && (a.imm == 0 || a.imm == IMM_BYTE || (a.imm == IMM_VWORD32 && !a.modrm))
    && (a.grp != 0 ==> a.modrm && a.grp >= 9)
    && (a.grp != 0 && a.imm != 0 ==> a.grp == 20)
  }

  lemma PrimaryWide(op: Byte)
    ensures Wide(PrimaryEntry(op))
  {
    hide PrimaryEntry;
    if op < 0x40 {
      PrimaryWide0(op);
    } else if op < 0x80 {
      PrimaryWide4(op);
    } else if op < 0xc0 {
      PrimaryWide8(op);
    } else if op < 0xe0 {
      PrimaryWideC(op);
    } else {
      PrimaryWideE(op);
    }
  }

  lemma PrimaryWide0(op: Byte)
    requires op < 0x40
    ensures Wide(PrimaryEntry(op))
  {}

  lemma PrimaryWide4(op: Byte)
    requires 0x40 <= op < 0x80
    ensures Wide(PrimaryEntry(op))
  {}

  lemma PrimaryWide8(op: Byte)
    requires 0x80 <= op < 0xc0
    ensures Wide(PrimaryEntry(op))
  {}

  lemma PrimaryWideC(op: Byte)
    requires 0xc0 <= op < 0xe0
    ensures Wide(PrimaryEntry(op))
  {
    hide PrimaryEntry, Wide;
    if op < 0xd0 {
      PrimaryWideCx(op);
    } else {
      PrimaryWideDx(op);
    }
  }

  lemma PrimaryWideCx(op: Byte)
    requires 0xc0 <= op < 0xd0
    ensures Wide(PrimaryEntry(op))
  {}

  lemma PrimaryWideDx(op: Byte)
    requires 0xd0 <= op < 0xe0
    ensures Wide(PrimaryEntry(op))
  {}

  lemma PrimaryWideE(op: Byte)
    requires 0xe0 <= op
    ensures Wide(PrimaryEntry(op))
  {
    hide PrimaryEntry, Wide;
    if op < 0xf0 {
      PrimaryWideEx(op);
    } else {
      PrimaryWideFx(op);
    }
  }

  lemma PrimaryWideEx(op: Byte)
    requires 0xe0 <= op < 0xf0
    ensures Wide(PrimaryEntry(op))
  {}

  lemma PrimaryWideFx(op: Byte)
    requires 0xf0 <= op
    ensures Wide(PrimaryEntry(op))
  {}

  lemma EscapeNarrow(t: EscapeMap, op: Byte)
    ensures Narrow(EscapeEntry(t, op))
  {
    if t == Escape1 {
      Escape1Narrow(op);
    } else {
      VariantNarrow(t, op);
    }
  }

  lemma Escape1Narrow(op: Byte)
    ensures Narrow(Escape1Entry(op))
  {}

  lemma VariantNarrow(t: EscapeMap, op: Byte)
    requires t != Escape1
    ensures Narrow(EscapeEntry(t, op))
  {}

  /// An attribute lookup behind an escape byte, with any last prefix.
  lemma EscapeAttrNarrow(op: Byte, pfx: Byte, a: Attr)
    ensures Narrow(EscapeAttr(op, pfx, a))
  {
    hide EscapeEntry, OpcodeAttr, LastPrefix;
    forall t { EscapeNarrow(t, op); }
  }

  lemma AvxAttrNarrow(op: Byte, vexM: nat, vexP: nat)
    ensures Narrow(AvxAttr(op, vexM, vexP))
  {
    hide EscapeEntry;
    forall t { EscapeNarrow(t, op); }
  }

  /// Only 0x0f escapes, only 0x38 and 0x3a escape again, and nothing escapes a third time.
  lemma EscapeDepth(op: Byte, pfx: Byte, a: Attr)
    ensures OpcodeAttr(op).esc == if op == 0x0f then 1 else 0
    ensures a.esc == 1 && (op == 0x38 || op == 0x3a) ==> EscapeAttr(op, pfx, a).esc == if op == 0x38 then 2 else 3
    ensures a.esc == 1 && op != 0x38 && op != 0x3a ==> EscapeAttr(op, pfx, a).esc == 0
    ensures a.esc > 1 ==> EscapeAttr(op, pfx, a).esc == 0
  {
    PrimaryEscape(op);
    hide EscapeEntry, PrimaryEntry, OpcodeAttr, LastPrefix;
    forall t { EntryEscape(t, op); }
  }

  lemma PrimaryEscape(op: Byte)
    ensures OpcodeAttr(op).esc == if op == 0x0f then 1 else 0
  {
    hide PrimaryEntry;
    if op < 0x80 {
      PrimaryEscapeLow(op);
    } else {
      PrimaryEscapeHigh(op);
    }
  }

  lemma PrimaryEscapeLow(op: Byte)
    requires op < 0x80
    ensures PrimaryEntry(op).esc == if op == 0x0f then 1 else 0
  {}

  lemma PrimaryEscapeHigh(op: Byte)
    requires 0x80 <= op
    ensures PrimaryEntry(op).esc == 0
  {}

  lemma EntryEscape(t: EscapeMap, op: Byte)
    ensures t == Escape1 && op == 0x38 ==> EscapeEntry(t, op) == ZERO.(esc := 2)
    ensures t == Escape1 && op == 0x3a ==> EscapeEntry(t, op) == ZERO.(esc := 3)
    ensures t != Escape1 || (op != 0x38 && op != 0x3a) ==> EscapeEntry(t, op).esc == 0
  {}

  predicate IsLegacyByte(b: Byte)
  {
    b in {0x26, 0x2e, 0x36, 0x3e, 0x64, 0x65, 0x66, 0x67, 0xf0, 0xf2, 0xf3}
  }

  /// The bytes that are prefixes, and what each does.
  lemma PrefixBytes(b: Byte)
    ensures IsLegacyPrefix(OpcodeAttr(b)) <==> IsLegacyByte(b)
    ensures OpcodeAttr(b).pfx == PFX_ADDRSZ <==> b == 0x67
    ensures OpcodeAttr(b).pfx == PFX_OPNDSZ <==> b == 0x66
    ensures IsRexPrefix(OpcodeAttr(b)) <==> 0x40 <= b <= 0x4f
    ensures OpcodeAttr(b).pfx == PFX_VEX3 <==> b == 0xc4
    ensures OpcodeAttr(b).pfx == PFX_VEX2 <==> b == 0xc5
  {
    if b < 0x40 {
      PrefixesLow(b);
    } else if b < 0xc0 {
      PrefixesMiddle(b);
    } else {
      PrefixesHigh(b);
    }
  }

  lemma PrefixesLow(b: Byte)
    requires b < 0x40
    ensures PrimaryEntry(b).pfx == if b == 0x26 then PFX_ES
      else if b == 0x2e then PFX_CS else if b == 0x36 then PFX_SS else if b == 0x3e then PFX_DS else 0
  {
    hide PrimaryEntry;
    if b < 0x26 {
      PrefixesNone(b);
    } else {
      PrefixesSegment(b);
    }
  }

  lemma PrefixesNone(b: Byte)
    requires b < 0x26
    ensures PrimaryEntry(b).pfx == 0
  {}

  lemma PrefixesSegment(b: Byte)
    requires 0x26 <= b < 0x40
    ensures PrimaryEntry(b).pfx == if b == 0x26 then PFX_ES
      else if b == 0x2e then PFX_CS else if b == 0x36 then PFX_SS else if b == 0x3e then PFX_DS else 0
  {}

  lemma PrefixesMiddle(b: Byte)
    requires 0x40 <= b < 0xc0
    ensures PrimaryEntry(b).pfx == if b <= 0x4f then PFX_REX
      else if b == 0x64 then PFX_FS else if b == 0x65 then PFX_GS
      else if b == 0x66 then PFX_OPNDSZ else if b == 0x67 then PFX_ADDRSZ else 0
  {}

  lemma PrefixesHigh(b: Byte)
    requires 0xc0 <= b
    ensures PrimaryEntry(b).pfx == if b == 0xc4 then PFX_VEX3 else if b == 0xc5 then PFX_VEX2
      else if b == 0xf0 then PFX_LOCK else if b == 0xf2 then PFX_REPNE else if b == 0xf3 then PFX_REPE else 0
  {
    hide PrimaryEntry;
    if b < 0xe0 {
      PrefixesVex(b);
    } else {
      PrefixesRepeat(b);
    }
  }

  lemma PrefixesVex(b: Byte)
    requires 0xc0 <= b < 0xe0
    ensures PrimaryEntry(b).pfx == if b == 0xc4 then PFX_VEX3 else if b == 0xc5 then PFX_VEX2 else 0
  {}

  lemma PrefixesRepeat(b: Byte)
    requires 0xe0 <= b
    ensures PrimaryEntry(b).pfx ==
      if b == 0xf0 then PFX_LOCK else if b == 0xf2 then PFX_REPNE else if b == 0xf3 then PFX_REPE else 0
  {}

  /// The VEX bytes carry a ModRM byte when they are LDS and LES.
  lemma VexBytes(b: Byte)
    requires b == 0xc4 || b == 0xc5
    ensures OpcodeAttr(b).modrm && OpcodeAttr(b).grp == 0 && !OpcodeAttr(b).vexonly
  {}

  /// CALL rel32 and JMP rel32: no ModRM, one VWORD32 immediate, default 64-bit operand size.
  lemma RelativeBranches(b: Byte)
    requires b == 0xe8 || b == 0xe9
    ensures OpcodeAttr(b) == ZERO.(imm := IMM_VWORD32, force64 := true)
  {}

  /// Behind a VEX prefix the bytes E8 and E9 name instructions without an immediate.
  lemma VexBranchBytes(b: Byte, vexM: nat, vexP: nat)
    requires b == 0xe8 || b == 0xe9
    ensures var a := AvxAttr(b, vexM, vexP); a.imm == 0 && a.grp == 0 && !a.moffset && !a.scndimm
  {
    hide EscapeEntry;
    forall t { EscapeBranchBytes(t, b); }
  }

  lemma EscapeBranchBytes(t: EscapeMap, b: Byte)
    requires b == 0xe8 || b == 0xe9
    ensures var a := EscapeEntry(t, b); a.imm == 0 && a.grp == 0 && !a.moffset && !a.scndimm
  {}

  /// Group entries contribute an immediate only where the opcode entry has none.
  lemma GroupEntries(n: bv5, m: nat, reg: nat)
    requires GroupTable(n, m).Some?
    ensures var e := GroupEntry(GroupTable(n, m).value, reg);
      !e.scndimm && !e.moffset && e.grp == 0
      && n != 1 && n != 3 && n != 4 && n != 20
      && (e.imm == 0 || e.imm == IMM_BYTE || (e.imm == IMM_VWORD32 && n == 6))
  {}

  lemma OrZero(x: bv3)
    ensures x | 0 == x && 0 | x == x
  {}

  /// The OR of inat_get_group_attribute never mixes two immediate kinds.
  lemma GroupMerge(modrm: Byte, pfx: Byte, a: Attr)
    requires a.grp != 0 && (Wide(a) || Narrow(a))
    ensures var g := GroupAttr(modrm, pfx, a);
      g.scndimm == a.scndimm && g.moffset == a.moffset
      && (g.imm == a.imm || (a.imm == 0 && (g.imm == IMM_BYTE || (g.imm == IMM_VWORD32 && a.grp == 6))))
  {
    hide GroupEntry, GroupTable, OpcodeAttr, LastPrefix, Or;
    var m, reg := LastPrefix(pfx), modrm / 8 % 8;
    if GroupTable(a.grp, 0).Some? {
      GroupMergeEntry(a, 0, reg);
    }
    if GroupTable(a.grp, m).Some? {
      GroupMergeEntry(a, m, reg);
    }
  }

  lemma GroupMergeEntry(a: Attr, m: nat, reg: nat)
    requires a.grp != 0 && (Wide(a) || Narrow(a)) && GroupTable(a.grp, m).Some?
    ensures var g := Or(GroupEntry(GroupTable(a.grp, m).value, reg), GroupCommon(a));
      g.scndimm == a.scndimm && g.moffset == a.moffset
      && (g.imm == a.imm || (a.imm == 0 && (g.imm == IMM_BYTE || (g.imm == IMM_VWORD32 && a.grp == 6))))
  {
    hide GroupEntry, GroupTable;
    GroupEntries(a.grp, m, reg);
    OrZero(a.imm);
    OrZero(GroupEntry(GroupTable(a.grp, m).value, reg).imm);
  }
}
