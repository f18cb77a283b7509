/// Instruction attributes: arch/x86/include/asm/inat.h.
///
/// An insn_attr_t word is represented by the record of its bit fields; Unpack gives the record of
/// a word, and the lemmas tie the record operations to the word operations of the source (module InatWords).
module InatAttr {
  datatype Attr = Attr(pfx: bv4, esc: bv2, grp: bv5, imm: bv3, modrm: bool, force64: bool, scndimm: bool,
                       moffset: bool, variant: bool, vexok: bool, vexonly: bool)

  const ZERO := Attr(0, 0, 0, 0, false, false, false, false, false, false, false)

  const PFX_OPNDSZ: bv4 := 1
  const PFX_REPE: bv4 := 2
  const PFX_REPNE: bv4 := 3
  const PFX_LOCK: bv4 := 4
  const PFX_CS: bv4 := 5
  const PFX_DS: bv4 := 6
  const PFX_ES: bv4 := 7
  const PFX_FS: bv4 := 8
  const PFX_GS: bv4 := 9
  const PFX_SS: bv4 := 10
  const PFX_ADDRSZ: bv4 := 11
  const PFX_REX: bv4 := 12
  const PFX_VEX2: bv4 := 13
  const PFX_VEX3: bv4 := 14

  const IMM_BYTE: bv3 := 1
  const IMM_WORD: bv3 := 2
  const IMM_DWORD: bv3 := 3
  const IMM_QWORD: bv3 := 4
  const IMM_PTR: bv3 := 5
  const IMM_VWORD32: bv3 := 6
  const IMM_VWORD: bv3 := 7

  predicate IsLegacyPrefix(a: Attr) { 0 < a.pfx <= 11 }

  predicate IsRexPrefix(a: Attr) { a.pfx == PFX_REX }

  predicate IsVexPrefix(a: Attr) { a.pfx == PFX_VEX2 || a.pfx == PFX_VEX3 }

  /// Which of the variant maps 1..3 a last prefix selects, 0 for none.
  function LastPrefixId(a: Attr): nat
  {
    if a.pfx == PFX_OPNDSZ then 1 else if a.pfx == PFX_REPE then 2 else if a.pfx == PFX_REPNE then 3 else 0
  }

  function GroupCommon(a: Attr): Attr { a.(grp := 0) }

  function Or(a: Attr, b: Attr): Attr
  {
    Attr(a.pfx | b.pfx, a.esc | b.esc, a.grp | b.grp, a.imm | b.imm, a.modrm || b.modrm, a.force64 || b.force64,
         a.scndimm || b.scndimm, a.moffset || b.moffset, a.variant || b.variant, a.vexok || b.vexok,
         a.vexonly || b.vexonly)
  }

  /// The queries of inat.h on a packed word: mask, then shift.
  function Unpack(w: bv32): Attr
  {
    Attr((w & 0xf) as bv4, ((w & 0x30) >> 4) as bv2, ((w & 0x7c0) >> 6) as bv5, ((w & 0x3800) >> 11) as bv3,
         w & 0x4000 != 0, w & 0x8000 != 0, w & 0x1_0000 != 0, w & 0x2_0000 != 0,
         w & 0x4_0000 != 0, w & 0x8_0000 != 0, w & 0x10_0000 != 0)
  }

  /// The word that INAT_MAKE_PREFIX, INAT_MAKE_ESCAPE, INAT_MAKE_GROUP, INAT_MAKE_IMM and the flags make.
  function Pack(a: Attr): bv32
  {
    a.pfx as bv32 | (a.esc as bv32 << 4) | (a.grp as bv32 << 6) | (a.imm as bv32 << 11)
    | Flag(a.modrm, 0x4000) | Flag(a.force64, 0x8000) | Flag(a.scndimm, 0x1_0000) | Flag(a.moffset, 0x2_0000)
    | Flag(a.variant, 0x4_0000) | Flag(a.vexok, 0x8_0000) | Flag(a.vexonly, 0x10_0000)
  }

  function Flag(b: bool, mask: bv32): bv32 { if b then mask else 0 }

  /// No two fields share a bit.
  lemma UnpackPack(a: Attr)
    ensures Unpack(Pack(a)) == a
  {}

  /// OR of words is Or of records.
  lemma UnpackMerge(v: bv32, w: bv32)
    ensures Unpack(v | w) == Or(Unpack(v), Unpack(w))
  {}

  /// Dropping the group number is GroupCommon.
  lemma UnpackGroupCommon(w: bv32)
    ensures Unpack(w & !0x7c0) == GroupCommon(Unpack(w))
  {}

  /// The fields account for every bit that inat.h names.
  lemma UnpackInjective(v: bv32, w: bv32)
    requires Unpack(v) == Unpack(w)
    ensures v & 0x1f_ffff == w & 0x1f_ffff
  {}
}

/// Attribute lookup: arch/x86/lib/inat.c.
module Inat {
  import opened Bytes
  import opened Wrappers
  import opened InatAttr
  import opened InatTables

  function OpcodeAttr(op: Byte): Attr { PrimaryEntry(op) }

  function LastPrefix(pfx: Byte): nat
  {
    if pfx != 0 then LastPrefixId(OpcodeAttr(pfx)) else 0
  }

  function EscapeAttr(op: Byte, lastPfx: Byte, escAttr: Attr): Attr
  {
    var n, m := escAttr.esc, LastPrefix(lastPfx);
    match EscapeTable(n, 0)
    case None => ZERO
    case Some(t) =>
      if EscapeEntry(t, op).variant && m != 0 then
        match EscapeTable(n, m)
        case None => ZERO
        case Some(v) => EscapeEntry(v, op)
      else EscapeEntry(t, op)
  }

  function GroupAttr(modrm: Byte, lastPfx: Byte, grpAttr: Attr): Attr
  {
    var n, m, reg := grpAttr.grp, LastPrefix(lastPfx), modrm / 8 % 8;
    match GroupTable(n, 0)
    case None => GroupCommon(grpAttr)
    case Some(t) =>
      if GroupEntry(t, reg).variant && m != 0 then
        match GroupTable(n, m)
        case None => GroupCommon(grpAttr)
        case Some(v) => Or(GroupEntry(v, reg), GroupCommon(grpAttr))
      else Or(GroupEntry(t, reg), GroupCommon(grpAttr))
  }

  function AvxAttr(op: Byte, vexM: nat, vexP: nat): Attr
  {
    if vexM > 0x1f || vexP > 3 then ZERO
    else match AvxTable(vexM, vexP)
      case None => ZERO
      case Some(t) => EscapeEntry(t, op)
  }

  /// A VEX prefix selects the map that the escape bytes 0F, 0F 38 and 0F 3A select with the last prefix
  /// none, 66, F3 and F2.
  lemma AvxMaps(op: Byte, vexM: nat, vexP: nat)
    ensures AvxAttr(op, vexM, vexP) ==
      if 1 <= vexM <= 3 && vexP <= 3 && EscapeTable(vexM as bv2, vexP).Some?
      then EscapeEntry(EscapeTable(vexM as bv2, vexP).value, op) else ZERO
  {
    hide EscapeEntry;
  }
}

/// The lookups of inat.c on packed words; they refine the lookups on records.
module InatWords {
  import opened Bytes
  import opened Wrappers
  import opened InatAttr
  import opened InatTables
  import opened Inat

  /// inat_group_common_attribute, inat_group_id and inat_has_variant
  function WordGroupCommon(w: bv32): bv32 { w & !0x7c0 }
  function WordGroupId(w: bv32): bv5 { ((w & 0x7c0) >> 6) as bv5 }
  predicate WordVariant(w: bv32) { w & 0x4_0000 != 0 }

  function Merged(entry: bv32, w: bv32): bv32 { entry | WordGroupCommon(w) }

  function WordLastPrefix(pfx: Byte): nat
  {
    if pfx == 0 then 0
    else
      var id := Pack(PrimaryEntry(pfx)) & 0xf;
      if id > 3 then 0 else id as nat
  }

  function WordEscapeAttr(op: Byte, lastPfx: Byte, escAttr: bv32): bv32
  {
    var n, m := ((escAttr & 0x30) >> 4) as bv2, WordLastPrefix(lastPfx);
    match EscapeTable(n, 0)
    case None => 0
    case Some(t) =>
      if WordVariant(Pack(EscapeEntry(t, op))) && m != 0 then
        match EscapeTable(n, m)
        case None => 0
        case Some(v) => Pack(EscapeEntry(v, op))
      else Pack(EscapeEntry(t, op))
  }

  function WordGroupAttr(modrm: Byte, lastPfx: Byte, grpAttr: bv32): bv32
  {
    var n, m, reg := WordGroupId(grpAttr), WordLastPrefix(lastPfx), modrm / 8 % 8;
    match GroupTable(n, 0)
    case None => WordGroupCommon(grpAttr)
    case Some(t) =>
      if WordVariant(Pack(GroupEntry(t, reg))) && m != 0 then
        match GroupTable(n, m)
        case None => WordGroupCommon(grpAttr)
        case Some(v) => Merged(Pack(GroupEntry(v, reg)), grpAttr)
      else Merged(Pack(GroupEntry(t, reg)), grpAttr)
  }

  lemma UnpackZero()
    ensures Unpack(0) == ZERO
  {}

  lemma LastPrefixWord(pfx: Byte)
    ensures WordLastPrefix(pfx) == LastPrefix(pfx)
  {
    hide PrimaryEntry, Pack;
    UnpackPack(PrimaryEntry(pfx));
    LastPrefixField(Pack(PrimaryEntry(pfx)));
  }

  lemma LastPrefixField(w: bv32)
    ensures (if w & 0xf > 3 then 0 else (w & 0xf) as nat) == LastPrefixId(Unpack(w))
  {}

  lemma VariantBit(a: Attr)
    ensures WordVariant(Pack(a)) <==> a.variant
  {
    UnpackPack(a);
  }

  lemma MergedFields(entry: bv32, w: bv32)
    ensures Unpack(Merged(entry, w)) == Or(Unpack(entry), GroupCommon(Unpack(w)))
  {
    UnpackGroupCommon(w);
    UnpackMerge(entry, WordGroupCommon(w));
  }

  lemma OrGroup(a: Attr, w: bv32)
    ensures Unpack(Merged(Pack(a), w)) == Or(a, GroupCommon(Unpack(w)))
  {
    hide Pack, Unpack, Merged, Or, GroupCommon;
    UnpackPack(a);
    MergedFields(Pack(a), w);
  }

  lemma EscapeAttrWord(op: Byte, lastPfx: Byte, w: bv32)
    ensures Unpack(WordEscapeAttr(op, lastPfx, w)) == EscapeAttr(op, lastPfx, Unpack(w))
  {
    hide EscapeEntry, PrimaryEntry, Pack, WordLastPrefix, LastPrefix;
    LastPrefixWord(lastPfx);
    UnpackZero();
    forall t
      ensures WordVariant(Pack(EscapeEntry(t, op))) <==> EscapeEntry(t, op).variant
      ensures Unpack(Pack(EscapeEntry(t, op))) == EscapeEntry(t, op)
    {
      VariantBit(EscapeEntry(t, op));
      UnpackPack(EscapeEntry(t, op));
    }
  }

  lemma GroupField(w: bv32)
    ensures WordGroupId(w) == Unpack(w).grp
    ensures Unpack(WordGroupCommon(w)) == GroupCommon(Unpack(w))
  {
    UnpackGroupCommon(w);
  }

  lemma GroupEntryWord(t: GroupMap, reg: nat, w: bv32)
    ensures WordVariant(Pack(GroupEntry(t, reg))) <==> GroupEntry(t, reg).variant
    ensures Unpack(Merged(Pack(GroupEntry(t, reg)), w)) == Or(GroupEntry(t, reg), GroupCommon(Unpack(w)))
  {
    hide GroupEntry, Pack, Unpack;
    VariantBit(GroupEntry(t, reg));
    OrGroup(GroupEntry(t, reg), w);
  }

  lemma GroupAttrWord(modrm: Byte, lastPfx: Byte, w: bv32)
    ensures Unpack(WordGroupAttr(modrm, lastPfx, w)) == GroupAttr(modrm, lastPfx, Unpack(w))
  {
    hide GroupEntry, GroupTable, PrimaryEntry, Pack, Unpack, WordLastPrefix, LastPrefix, Or, GroupCommon, WordGroupCommon,
         WordGroupId, WordVariant, Merged;
    LastPrefixWord(lastPfx);
    GroupField(w);
    var n, m, reg := Unpack(w).grp, LastPrefix(lastPfx), modrm / 8 % 8;
    if GroupTable(n, 0).Some? {
      GroupEntryWord(GroupTable(n, 0).value, reg, w);
    }
    if GroupTable(n, m).Some? {
      GroupEntryWord(GroupTable(n, m).value, reg, w);
    }
  }
}
