/// The attribute tables of arch/x86/lib/inat-tables.h: one function a table, equal neighbouring
/// entries written as one range, unlisted entries zero.
module InatTables {
  import opened Bytes
  import opened Wrappers
  import opened InatAttr

  /// The opcode maps behind the escape bytes; a suffix vN is the map for last prefix N.
  datatype EscapeMap = Escape1 | Escape1v1 | Escape1v2 | Escape1v3 | Escape2 | Escape2v1 | Escape2v3 | Escape3 | Escape3v1

  datatype GroupMap =
    | Group5
    | Group6
    | Group7
    | Group8
    | Group9
    | Group10
    | Group12
    | Group13
    | Group13v1
    | Group14
    | Group14v1
    | Group15
    | Group15v1
    | Group18
    | Group21
    | Group21v1
    | Group21v2

  function PrimaryEntry(op: Byte): Attr
  {
    if op < 0x40 then
      if 0x00 <= op <= 0x03 then ZERO.(modrm := true)
      else if op == 0x04 then ZERO.(imm := IMM_BYTE)
      else if op == 0x05 then ZERO.(imm := IMM_VWORD32)
      else if 0x08 <= op <= 0x0b then ZERO.(modrm := true)
      else if op == 0x0c then ZERO.(imm := IMM_BYTE)
      else if op == 0x0d then ZERO.(imm := IMM_VWORD32)
      else if op == 0x0f then ZERO.(esc := 1)
      else if 0x10 <= op <= 0x13 then ZERO.(modrm := true)
      else if op == 0x14 then ZERO.(imm := IMM_BYTE)
      else if op == 0x15 then ZERO.(imm := IMM_VWORD32)
      else if 0x18 <= op <= 0x1b then ZERO.(modrm := true)
      else if op == 0x1c then ZERO.(imm := IMM_BYTE)
      else if op == 0x1d then ZERO.(imm := IMM_VWORD32)
      else if 0x20 <= op <= 0x23 then ZERO.(modrm := true)
      else if op == 0x24 then ZERO.(imm := IMM_BYTE)
      else if op == 0x25 then ZERO.(imm := IMM_VWORD32)
      else if op == 0x26 then ZERO.(pfx := PFX_ES)
      else if 0x28 <= op <= 0x2b then ZERO.(modrm := true)
      else if op == 0x2c then ZERO.(imm := IMM_BYTE)
      else if op == 0x2d then ZERO.(imm := IMM_VWORD32)
      else if op == 0x2e then ZERO.(pfx := PFX_CS)
      else if 0x30 <= op <= 0x33 then ZERO.(modrm := true)
      else if op == 0x34 then ZERO.(imm := IMM_BYTE)
      else if op == 0x35 then ZERO.(imm := IMM_VWORD32)
      else if op == 0x36 then ZERO.(pfx := PFX_SS)
      else if 0x38 <= op <= 0x3b then ZERO.(modrm := true)
      else if op == 0x3c then ZERO.(imm := IMM_BYTE)
      else if op == 0x3d then ZERO.(imm := IMM_VWORD32)
      else if op == 0x3e then ZERO.(pfx := PFX_DS)
      else ZERO
    else if op < 0x80 then
      if 0x40 <= op <= 0x4f then ZERO.(pfx := PFX_REX)
      else if 0x50 <= op <= 0x5f then ZERO.(force64 := true)
      else if 0x62 <= op <= 0x63 then ZERO.(modrm := true)
      else if op == 0x64 then ZERO.(pfx := PFX_FS)
      else if op == 0x65 then ZERO.(pfx := PFX_GS)
      else if op == 0x66 then ZERO.(pfx := PFX_OPNDSZ)
      else if op == 0x67 then ZERO.(pfx := PFX_ADDRSZ)
      else if op == 0x68 then ZERO.(imm := IMM_VWORD32, force64 := true)
      else if op == 0x69 then ZERO.(imm := IMM_VWORD32, modrm := true)
      else if op == 0x6a then ZERO.(imm := IMM_BYTE, force64 := true)
      else if op == 0x6b then ZERO.(imm := IMM_BYTE, modrm := true)
      else if 0x70 <= op <= 0x7f then ZERO.(imm := IMM_BYTE)
      else ZERO
    else if op < 0xc0 then
      if op == 0x80 then ZERO.(grp := 1, imm := IMM_BYTE, modrm := true)
      else if op == 0x81 then ZERO.(grp := 1, imm := IMM_VWORD32, modrm := true)
      else if 0x82 <= op <= 0x83 then ZERO.(grp := 1, imm := IMM_BYTE, modrm := true)
      else if 0x84 <= op <= 0x8e then ZERO.(modrm := true)
      else if op == 0x8f then ZERO.(grp := 2, modrm := true, force64 := true)
      else if op == 0x9a then ZERO.(imm := IMM_PTR)
      else if 0x9c <= op <= 0x9d then ZERO.(force64 := true)
      else if 0xa0 <= op <= 0xa3 then ZERO.(moffset := true)
      else if op == 0xa8 then ZERO.(imm := IMM_BYTE)
      else if op == 0xa9 then ZERO.(imm := IMM_VWORD32)
      else if 0xb0 <= op <= 0xb7 then ZERO.(imm := IMM_BYTE)
      else if 0xb8 <= op <= 0xbf then ZERO.(imm := IMM_VWORD)
      else ZERO
    else
      if 0xc0 <= op <= 0xc1 then ZERO.(grp := 3, imm := IMM_BYTE, modrm := true)
      else if op == 0xc2 then ZERO.(imm := IMM_WORD, force64 := true)
      else if op == 0xc4 then ZERO.(pfx := PFX_VEX3, modrm := true)
      else if op == 0xc5 then ZERO.(pfx := PFX_VEX2, modrm := true)
      else if op == 0xc6 then ZERO.(grp := 4, imm := IMM_BYTE, modrm := true)
      else if op == 0xc7 then ZERO.(grp := 4, imm := IMM_VWORD32, modrm := true)
      else if op == 0xc8 then ZERO.(imm := IMM_WORD, scndimm := true)
      else if op == 0xc9 then ZERO.(force64 := true)
      else if op == 0xca then ZERO.(imm := IMM_WORD)
      else if op == 0xcd then ZERO.(imm := IMM_BYTE)
      else if 0xd0 <= op <= 0xd3 then ZERO.(grp := 3, modrm := true)
      else if 0xd4 <= op <= 0xd5 then ZERO.(imm := IMM_BYTE)
      else if 0xd8 <= op <= 0xdf then ZERO.(modrm := true)
      else if 0xe0 <= op <= 0xe3 then ZERO.(imm := IMM_BYTE, force64 := true)
      else if 0xe4 <= op <= 0xe7 then ZERO.(imm := IMM_BYTE)
      else if 0xe8 <= op <= 0xe9 then ZERO.(imm := IMM_VWORD32, force64 := true)
      else if op == 0xea then ZERO.(imm := IMM_PTR)
      else if op == 0xeb then ZERO.(imm := IMM_BYTE, force64 := true)
      else if op == 0xf0 then ZERO.(pfx := PFX_LOCK)
      else if op == 0xf2 then ZERO.(pfx := PFX_REPNE)
      else if op == 0xf3 then ZERO.(pfx := PFX_REPE)
      else if op == 0xf6 then ZERO.(grp := 5, modrm := true)
      else if op == 0xf7 then ZERO.(grp := 6, modrm := true)
      else if op == 0xfe then ZERO.(grp := 7, modrm := true)
      else if op == 0xff then ZERO.(grp := 8, modrm := true)
      else ZERO
  }

  function Escape1Entry(op: Byte): Attr
  {
    if op < 0x40 then
      if op == 0x00 then ZERO.(grp := 9, modrm := true)
      else if op == 0x01 then ZERO.(grp := 10, modrm := true)
      else if 0x02 <= op <= 0x03 then ZERO.(modrm := true)
      else if op == 0x0d then ZERO.(grp := 11, modrm := true)
      else if op == 0x0f then ZERO.(imm := IMM_BYTE, modrm := true)
      else if 0x10 <= op <= 0x17 then ZERO.(modrm := true, variant := true, vexok := true)
      else if op == 0x18 then ZERO.(grp := 12, modrm := true)
      else if 0x1f <= op <= 0x23 then ZERO.(modrm := true)
      else if 0x28 <= op <= 0x29 then ZERO.(modrm := true, variant := true, vexok := true)
      else if op == 0x2a then ZERO.(modrm := true, variant := true)
      else if op == 0x2b then ZERO.(modrm := true, variant := true, vexok := true)
      else if 0x2c <= op <= 0x2d then ZERO.(modrm := true, variant := true)
      else if 0x2e <= op <= 0x2f then ZERO.(modrm := true, variant := true, vexok := true)
      else if op == 0x38 then ZERO.(esc := 2)
      else if op == 0x3a then ZERO.(esc := 3)
      else ZERO
    else if op < 0x80 then
      if 0x40 <= op <= 0x4f then ZERO.(modrm := true)
      else if 0x50 <= op <= 0x5f then ZERO.(modrm := true, variant := true, vexok := true)
      else if 0x60 <= op <= 0x6b then ZERO.(modrm := true, variant := true)
      else if 0x6c <= op <= 0x6d then ZERO.(variant := true)
      else if 0x6e <= op <= 0x6f then ZERO.(modrm := true, variant := true)
      else if op == 0x70 then ZERO.(imm := IMM_BYTE, modrm := true, variant := true)
      else if op == 0x71 then ZERO.(grp := 13, modrm := true)
      else if op == 0x72 then ZERO.(grp := 14, modrm := true)
      else if op == 0x73 then ZERO.(grp := 15, modrm := true)
      else if 0x74 <= op <= 0x76 then ZERO.(modrm := true, variant := true)
      else if op == 0x77 then ZERO.(vexok := true)
      else if 0x78 <= op <= 0x79 then ZERO.(modrm := true)
      else if 0x7c <= op <= 0x7d then ZERO.(variant := true)
      else if 0x7e <= op <= 0x7f then ZERO.(modrm := true, variant := true)
      else ZERO
    else if op < 0xc0 then
      if 0x80 <= op <= 0x8f then ZERO.(imm := IMM_VWORD32, force64 := true)
      else if 0x90 <= op <= 0x9f then ZERO.(modrm := true)
      else if 0xa0 <= op <= 0xa1 then ZERO.(force64 := true)
      else if op == 0xa3 then ZERO.(modrm := true)
      else if op == 0xa4 then ZERO.(imm := IMM_BYTE, modrm := true)
      else if op == 0xa5 then ZERO.(modrm := true)
      else if op == 0xa6 then ZERO.(grp := 16, modrm := true)
      else if op == 0xa7 then ZERO.(grp := 17, modrm := true)
      else if 0xa8 <= op <= 0xa9 then ZERO.(force64 := true)
      else if op == 0xab then ZERO.(modrm := true)
      else if op == 0xac then ZERO.(imm := IMM_BYTE, modrm := true)
      else if op == 0xad then ZERO.(modrm := true)
      else if op == 0xae then ZERO.(grp := 18, modrm := true)
      else if 0xaf <= op <= 0xb7 then ZERO.(modrm := true)
      else if op == 0xb8 then ZERO.(variant := true)
      else if op == 0xb9 then ZERO.(grp := 19, modrm := true)
      else if op == 0xba then ZERO.(grp := 20, imm := IMM_BYTE, modrm := true)
      else if 0xbb <= op <= 0xbf then ZERO.(modrm := true)
      else ZERO
    else
      if 0xc0 <= op <= 0xc1 then ZERO.(modrm := true)
      else if op == 0xc2 then ZERO.(imm := IMM_BYTE, modrm := true, variant := true, vexok := true)
      else if op == 0xc3 then ZERO.(modrm := true)
      else if 0xc4 <= op <= 0xc5 then ZERO.(imm := IMM_BYTE, modrm := true, variant := true)
      else if op == 0xc6 then ZERO.(imm := IMM_BYTE, modrm := true, variant := true, vexok := true)
      else if op == 0xc7 then ZERO.(grp := 21, modrm := true)
      else if op == 0xd0 then ZERO.(variant := true)
      else if 0xd1 <= op <= 0xd5 then ZERO.(modrm := true, variant := true)
      else if op == 0xd6 then ZERO.(variant := true)
      else if 0xd7 <= op <= 0xe5 then ZERO.(modrm := true, variant := true)
      else if op == 0xe6 then ZERO.(variant := true)
      else if 0xe7 <= op <= 0xef then ZERO.(modrm := true, variant := true)
      else if op == 0xf0 then ZERO.(variant := true)
      else if 0xf1 <= op <= 0xfe then ZERO.(modrm := true, variant := true)
      else ZERO
  }

  function Escape1v1Entry(op: Byte): Attr
  {
    if 0x10 <= op <= 0x17 then ZERO.(modrm := true, vexok := true)
    else if 0x28 <= op <= 0x29 then ZERO.(modrm := true, vexok := true)
    else if op == 0x2a then ZERO.(modrm := true)
    else if op == 0x2b then ZERO.(modrm := true, vexok := true)
    else if 0x2c <= op <= 0x2d then ZERO.(modrm := true)
    else if 0x2e <= op <= 0x2f then ZERO.(modrm := true, vexok := true)
    else if 0x50 <= op <= 0x51 then ZERO.(modrm := true, vexok := true)
    else if 0x54 <= op <= 0x6f then ZERO.(modrm := true, vexok := true)
    else if op == 0x70 then ZERO.(imm := IMM_BYTE, modrm := true, vexok := true)
    else if 0x74 <= op <= 0x76 then ZERO.(modrm := true, vexok := true)
    else if 0x7c <= op <= 0x7f then ZERO.(modrm := true, vexok := true)
    else if op == 0xc2 then ZERO.(imm := IMM_BYTE, modrm := true, vexok := true)
    else if 0xc4 <= op <= 0xc6 then ZERO.(imm := IMM_BYTE, modrm := true, vexok := true)
    else if 0xd0 <= op <= 0xef then ZERO.(modrm := true, vexok := true)
    else if 0xf1 <= op <= 0xfe then ZERO.(modrm := true, vexok := true)
    else ZERO
  }

  function Escape1v2Entry(op: Byte): Attr
  {
    if 0x10 <= op <= 0x12 then ZERO.(modrm := true, vexok := true)
    else if op == 0x16 then ZERO.(modrm := true, vexok := true)
    else if op == 0x2a then ZERO.(modrm := true, vexok := true)
    else if 0x2c <= op <= 0x2d then ZERO.(modrm := true, vexok := true)
    else if 0x51 <= op <= 0x53 then ZERO.(modrm := true, vexok := true)
    else if 0x58 <= op <= 0x5f then ZERO.(modrm := true, vexok := true)
    else if op == 0x6f then ZERO.(modrm := true, vexok := true)
    else if op == 0x70 then ZERO.(imm := IMM_BYTE, modrm := true, vexok := true)
    else if 0x7e <= op <= 0x7f then ZERO.(modrm := true, vexok := true)
    else if op == 0xb8 then ZERO.(modrm := true)
    else if op == 0xc2 then ZERO.(imm := IMM_BYTE, modrm := true, vexok := true)
    else if op == 0xd6 then ZERO.(modrm := true)
    else if op == 0xe6 then ZERO.(modrm := true, vexok := true)
    else ZERO
  }

  function Escape1v3Entry(op: Byte): Attr
  {
    if 0x10 <= op <= 0x12 then ZERO.(modrm := true, vexok := true)
    else if op == 0x2a then ZERO.(modrm := true, vexok := true)
    else if 0x2c <= op <= 0x2d then ZERO.(modrm := true, vexok := true)
    else if op == 0x51 then ZERO.(modrm := true, vexok := true)
    else if 0x58 <= op <= 0x5a then ZERO.(modrm := true, vexok := true)
    else if 0x5c <= op <= 0x5f then ZERO.(modrm := true, vexok := true)
    else if op == 0x70 then ZERO.(imm := IMM_BYTE, modrm := true, vexok := true)
    else if 0x7c <= op <= 0x7d then ZERO.(modrm := true, vexok := true)
    else if op == 0xc2 then ZERO.(imm := IMM_BYTE, modrm := true, vexok := true)
    else if op == 0xd0 then ZERO.(modrm := true, vexok := true)
    else if op == 0xd6 then ZERO.(modrm := true)
    else if op == 0xe6 then ZERO.(modrm := true, vexok := true)
    else if op == 0xf0 then ZERO.(modrm := true, vexok := true)
    else ZERO
  }

  function Escape2Entry(op: Byte): Attr
  {
    if 0x00 <= op <= 0x0b then ZERO.(modrm := true, variant := true)
    else if 0x0c <= op <= 0x10 then ZERO.(variant := true)
    else if 0x14 <= op <= 0x15 then ZERO.(variant := true)
    else if 0x17 <= op <= 0x1a then ZERO.(variant := true)
    else if 0x1c <= op <= 0x1e then ZERO.(modrm := true, variant := true)
    else if 0x20 <= op <= 0x25 then ZERO.(variant := true)
    else if 0x28 <= op <= 0x35 then ZERO.(variant := true)
    else if 0x37 <= op <= 0x41 then ZERO.(variant := true)
    else if 0x80 <= op <= 0x81 then ZERO.(variant := true)
    else if 0x96 <= op <= 0x9f then ZERO.(variant := true)
    else if 0xa6 <= op <= 0xaf then ZERO.(variant := true)
    else if 0xb6 <= op <= 0xbf then ZERO.(variant := true)
    else if 0xdb <= op <= 0xdf then ZERO.(variant := true)
    else if 0xf0 <= op <= 0xf1 then ZERO.(modrm := true, variant := true)
    else ZERO
  }

  function Escape2v1Entry(op: Byte): Attr
  {
    if 0x00 <= op <= 0x0b then ZERO.(modrm := true, vexok := true)
    else if 0x0c <= op <= 0x0f then ZERO.(modrm := true, vexok := true, vexonly := true)
    else if op == 0x10 then ZERO.(modrm := true)
    else if 0x14 <= op <= 0x15 then ZERO.(modrm := true)
    else if op == 0x17 then ZERO.(modrm := true, vexok := true)
    else if 0x18 <= op <= 0x1a then ZERO.(modrm := true, vexok := true, vexonly := true)
    else if 0x1c <= op <= 0x1e then ZERO.(modrm := true, vexok := true)
    else if 0x20 <= op <= 0x25 then ZERO.(modrm := true, vexok := true)
    else if 0x28 <= op <= 0x2b then ZERO.(modrm := true, vexok := true)
    else if 0x2c <= op <= 0x2f then ZERO.(modrm := true, vexok := true, vexonly := true)
    else if 0x30 <= op <= 0x35 then ZERO.(modrm := true, vexok := true)
    else if 0x37 <= op <= 0x41 then ZERO.(modrm := true, vexok := true)
    else if 0x80 <= op <= 0x81 then ZERO.(modrm := true)
    else if 0x96 <= op <= 0x9f then ZERO.(modrm := true, vexok := true)
    else if 0xa6 <= op <= 0xaf then ZERO.(modrm := true, vexok := true)
    else if 0xb6 <= op <= 0xbf then ZERO.(modrm := true, vexok := true)
    else if 0xdb <= op <= 0xdf then ZERO.(modrm := true, vexok := true)
    else ZERO
  }

  function Escape2v3Entry(op: Byte): Attr
  {
    if 0xf0 <= op <= 0xf1 then ZERO.(modrm := true)
    else ZERO
  }

  function Escape3Entry(op: Byte): Attr
  {
    if 0x04 <= op <= 0x06 then ZERO.(variant := true)
    else if 0x08 <= op <= 0x0e then ZERO.(variant := true)
    else if op == 0x0f then ZERO.(imm := IMM_BYTE, modrm := true, variant := true)
    else if 0x14 <= op <= 0x19 then ZERO.(variant := true)
    else if 0x20 <= op <= 0x22 then ZERO.(variant := true)
    else if 0x40 <= op <= 0x42 then ZERO.(variant := true)
    else if op == 0x44 then ZERO.(variant := true)
    else if 0x4a <= op <= 0x4c then ZERO.(variant := true)
    else if 0x60 <= op <= 0x63 then ZERO.(variant := true)
    else if op == 0xdf then ZERO.(variant := true)
    else ZERO
  }

  function Escape3v1Entry(op: Byte): Attr
  {
    if 0x04 <= op <= 0x06 then ZERO.(imm := IMM_BYTE, modrm := true, vexok := true, vexonly := true)
    else if 0x08 <= op <= 0x0f then ZERO.(imm := IMM_BYTE, modrm := true, vexok := true)
    else if 0x14 <= op <= 0x17 then ZERO.(imm := IMM_BYTE, modrm := true, vexok := true)
    else if 0x18 <= op <= 0x19 then ZERO.(imm := IMM_BYTE, modrm := true, vexok := true, vexonly := true)
    else if 0x20 <= op <= 0x22 then ZERO.(imm := IMM_BYTE, modrm := true, vexok := true)
    else if 0x40 <= op <= 0x42 then ZERO.(imm := IMM_BYTE, modrm := true, vexok := true)
    else if op == 0x44 then ZERO.(imm := IMM_BYTE, modrm := true, vexok := true)
    else if 0x4a <= op <= 0x4c then ZERO.(imm := IMM_BYTE, modrm := true, vexok := true, vexonly := true)
    else if 0x60 <= op <= 0x63 then ZERO.(imm := IMM_BYTE, modrm := true, vexok := true)
    else if op == 0xdf then ZERO.(imm := IMM_BYTE, modrm := true, vexok := true)
    else ZERO
  }

  function Group5Entry(reg: nat): Attr
  {
    if reg == 0 then ZERO.(imm := IMM_BYTE, modrm := true)
    else if 2 <= reg <= 7 then ZERO.(modrm := true)
    else ZERO
  }

  function Group6Entry(reg: nat): Attr
  {
    if reg == 0 then ZERO.(imm := IMM_VWORD32, modrm := true)
    else if 2 <= reg <= 7 then ZERO.(modrm := true)
    else ZERO
  }

  function Group7Entry(reg: nat): Attr
  {
    if 0 <= reg <= 1 then ZERO.(modrm := true)
    else ZERO
  }

  function Group8Entry(reg: nat): Attr
  {
    if 0 <= reg <= 1 then ZERO.(modrm := true)
    else if reg == 2 then ZERO.(modrm := true, force64 := true)
    else if reg == 3 then ZERO.(modrm := true)
    else if reg == 4 then ZERO.(modrm := true, force64 := true)
    else if reg == 5 then ZERO.(modrm := true)
    else if reg == 6 then ZERO.(modrm := true, force64 := true)
    else ZERO
  }

  function Group9Entry(reg: nat): Attr
  {
    if 0 <= reg <= 5 then ZERO.(modrm := true)
    else ZERO
  }

  function Group10Entry(reg: nat): Attr
  {
    if 0 <= reg <= 4 then ZERO.(modrm := true)
    else if 6 <= reg <= 7 then ZERO.(modrm := true)
    else ZERO
  }

  function Group21Entry(reg: nat): Attr
  {
    if reg == 1 then ZERO.(modrm := true)
    else if reg == 6 then ZERO.(modrm := true, variant := true)
    else if reg == 7 then ZERO.(modrm := true)
    else ZERO
  }

  function Group21v1Entry(reg: nat): Attr
  {
    if reg == 6 then ZERO.(modrm := true)
    else ZERO
  }

  function Group21v2Entry(reg: nat): Attr
  {
    if reg == 6 then ZERO.(modrm := true)
    else ZERO
  }

  function Group13Entry(reg: nat): Attr
  {
    if reg == 2 then ZERO.(imm := IMM_BYTE, modrm := true, variant := true)
    else if reg == 4 then ZERO.(imm := IMM_BYTE, modrm := true, variant := true)
    else if reg == 6 then ZERO.(imm := IMM_BYTE, modrm := true, variant := true)
    else ZERO
  }

  function Group13v1Entry(reg: nat): Attr
  {
    if reg == 2 then ZERO.(imm := IMM_BYTE, modrm := true, vexok := true)
    else if reg == 4 then ZERO.(imm := IMM_BYTE, modrm := true, vexok := true)
    else if reg == 6 then ZERO.(imm := IMM_BYTE, modrm := true, vexok := true)
    else ZERO
  }

  function Group14Entry(reg: nat): Attr
  {
    if reg == 2 then ZERO.(imm := IMM_BYTE, modrm := true, variant := true)
    else if reg == 4 then ZERO.(imm := IMM_BYTE, modrm := true, variant := true)
    else if reg == 6 then ZERO.(imm := IMM_BYTE, modrm := true, variant := true)
    else ZERO
  }

  function Group14v1Entry(reg: nat): Attr
  {
    if reg == 2 then ZERO.(imm := IMM_BYTE, modrm := true, vexok := true)
    else if reg == 4 then ZERO.(imm := IMM_BYTE, modrm := true, vexok := true)
    else if reg == 6 then ZERO.(imm := IMM_BYTE, modrm := true, vexok := true)
    else ZERO
  }

  function Group15Entry(reg: nat): Attr
  {
    if reg == 2 then ZERO.(imm := IMM_BYTE, modrm := true, variant := true)
    else if reg == 3 then ZERO.(variant := true)
    else if reg == 6 then ZERO.(imm := IMM_BYTE, modrm := true, variant := true)
    else if reg == 7 then ZERO.(variant := true)
    else ZERO
  }

  function Group15v1Entry(reg: nat): Attr
  {
    if 2 <= reg <= 3 then ZERO.(imm := IMM_BYTE, modrm := true, vexok := true)
    else if 6 <= reg <= 7 then ZERO.(imm := IMM_BYTE, modrm := true, vexok := true)
    else ZERO
  }

  function Group18Entry(reg: nat): Attr
  {
    if 2 <= reg <= 3 then ZERO.(vexok := true)
    else ZERO
  }

  function Group12Entry(reg: nat): Attr
  {
    if 0 <= reg <= 3 then ZERO.(modrm := true)
    else ZERO
  }

  function EscapeEntry(t: EscapeMap, op: Byte): Attr
  {
    match t
    case Escape1 => Escape1Entry(op)
    case Escape1v1 => Escape1v1Entry(op)
    case Escape1v2 => Escape1v2Entry(op)
    case Escape1v3 => Escape1v3Entry(op)
    case Escape2 => Escape2Entry(op)
    case Escape2v1 => Escape2v1Entry(op)
    case Escape2v3 => Escape2v3Entry(op)
    case Escape3 => Escape3Entry(op)
    case Escape3v1 => Escape3v1Entry(op)
  }

  function GroupEntry(t: GroupMap, reg: nat): Attr
  {
    match t
    case Group5 => Group5Entry(reg)
    case Group6 => Group6Entry(reg)
    case Group7 => Group7Entry(reg)
    case Group8 => Group8Entry(reg)
    case Group9 => Group9Entry(reg)
    case Group10 => Group10Entry(reg)
    case Group21 => Group21Entry(reg)
    case Group21v1 => Group21v1Entry(reg)
    case Group21v2 => Group21v2Entry(reg)
    case Group13 => Group13Entry(reg)
    case Group13v1 => Group13v1Entry(reg)
    case Group14 => Group14Entry(reg)
    case Group14v1 => Group14v1Entry(reg)
    case Group15 => Group15Entry(reg)
    case Group15v1 => Group15v1Entry(reg)
    case Group18 => Group18Entry(reg)
    case Group12 => Group12Entry(reg)
  }

  function EscapeTable(n: bv2, m: nat): Option<EscapeMap>
  {
    if n == 1 && m == 0 then Some(Escape1)
    else if n == 1 && m == 1 then Some(Escape1v1)
    else if n == 1 && m == 2 then Some(Escape1v2)
    else if n == 1 && m == 3 then Some(Escape1v3)
    else if n == 2 && m == 0 then Some(Escape2)
    else if n == 2 && m == 1 then Some(Escape2v1)
    else if n == 2 && m == 3 then Some(Escape2v3)
    else if n == 3 && m == 0 then Some(Escape3)
    else if n == 3 && m == 1 then Some(Escape3v1)
    else None
  }

  function GroupTable(n: bv5, m: nat): Option<GroupMap>
  {
    if n == 5 && m == 0 then Some(Group5)
    else if n == 6 && m == 0 then Some(Group6)
    else if n == 7 && m == 0 then Some(Group7)
    else if n == 8 && m == 0 then Some(Group8)
    else if n == 9 && m == 0 then Some(Group9)
    else if n == 10 && m == 0 then Some(Group10)
    else if n == 12 && m == 0 then Some(Group12)
    else if n == 13 && m == 0 then Some(Group13)
    else if n == 13 && m == 1 then Some(Group13v1)
    else if n == 14 && m == 0 then Some(Group14)
    else if n == 14 && m == 1 then Some(Group14v1)
    else if n == 15 && m == 0 then Some(Group15)
    else if n == 15 && m == 1 then Some(Group15v1)
    else if n == 18 && m == 0 then Some(Group18)
    else if n == 21 && m == 0 then Some(Group21)
    else if n == 21 && m == 1 then Some(Group21v1)
    else if n == 21 && m == 2 then Some(Group21v2)
    else None
  }

  function AvxTable(vexM: nat, m: nat): Option<EscapeMap>
  {
    if vexM == 1 && m == 0 then Some(Escape1)
    else if vexM == 1 && m == 1 then Some(Escape1v1)
    else if vexM == 1 && m == 2 then Some(Escape1v2)
    else if vexM == 1 && m == 3 then Some(Escape1v3)
    else if vexM == 2 && m == 0 then Some(Escape2)
    else if vexM == 2 && m == 1 then Some(Escape2v1)
    else if vexM == 2 && m == 3 then Some(Escape2v3)
    else if vexM == 3 && m == 0 then Some(Escape3)
    else if vexM == 3 && m == 1 then Some(Escape3v1)
    else None
  }
}
