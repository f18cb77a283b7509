/// The lazy, memoised decoder: struct insn and the insn_get_* functions of arch/x86/lib/insn.c.
///
/// Each getter first runs the getters before it, then fills its own field and advances nextByte.
/// The ghost stage counts how far an object has got; StateAt says, through the one-pass reading of
/// InsnSpec, what every field holds at that stage.
module InsnDecoder {
  import opened Bytes
  import opened InatAttr
  import opened Inat
  import opened InsnSpec
  import opened InsnTheory
  import TableFacts

  /// struct insn_field, as a value and as bytes.
  datatype Field = Field(value: int, got: bool, nbytes: nat)
  datatype ByteField = ByteField(bytes: seq<Byte>, got: bool, nbytes: nat)

  const EMPTY := Field(0, false, 0)
  const EMPTY_BYTES := ByteField([0, 0, 0, 0], false, 0)

  datatype State = State(prefixes: ByteField, rexPrefix: Field, vexPrefix: ByteField, opcode: ByteField,
                         modrm: Field, sib: Field, displacement: Field, immediate: Field, immediate2: Field,
                         attr: Attr, opndBytes: nat, addrBytes: nat, length: nat, next: int)

  /// immediate2.got, which only some of the immediate kinds set.
  function Imm2Got(a: Attr, opnd: nat): bool
  {
    a.moffset || (a.imm == IMM_PTR && opnd != 8) || a.imm == IMM_VWORD
  }

  const PREFIXES := 1
  const OPCODE := 2
  const MODRM := 3
  const SIB := 4
  const DISPLACEMENT := 5
  const IMMEDIATE := 6
  const LENGTH := 7

  function StateAt(c: seq<Byte>, x64: bool, stage: nat): State
  {
    var l := Parse(c, x64);
    State(if stage >= PREFIXES then ByteField(l.p.bytes, true, l.p.run % 0x100) else EMPTY_BYTES,
          if stage >= PREFIXES then Field(l.p.rex, true, l.p.rexSize) else EMPTY,
          if stage >= PREFIXES then ByteField(l.p.vex, true, l.p.vexSize) else EMPTY_BYTES,
          if stage >= OPCODE then ByteField(Pad4(l.o.bytes), true, |l.o.bytes|) else EMPTY_BYTES,
          if stage >= MODRM then Field(l.m.value, true, l.m.size) else EMPTY,
          if stage >= SIB then Field(l.sib, true, l.sibSize) else EMPTY,
          if stage >= DISPLACEMENT then Field(Disp(c, l), true, l.dispSize) else EMPTY,
          if stage >= IMMEDIATE then Field(Imm1(c, l), true, l.imm1Size) else EMPTY,
          if stage >= IMMEDIATE then Field(Imm2(c, l), Imm2Got(l.m.attr, l.m.opnd), l.imm2Size) else EMPTY,
          if stage >= MODRM then l.m.attr else if stage >= OPCODE then l.o.attr else ZERO,
          if stage >= MODRM then l.m.opnd else if stage >= PREFIXES then l.p.opnd else 4,
          if stage >= PREFIXES then l.p.addr else if x64 then 8 else 4,
          if stage >= LENGTH then l.Length() % 0x100 else 0,
          Cursor(l, stage))
  }

  /// How many bytes have been consumed at a stage.
  function Cursor(l: Layout, stage: nat): nat
  {
    if stage >= IMMEDIATE then l.Length()
    else if stage == DISPLACEMENT then l.ImmOff()
    else if stage == SIB then l.DispOff()
    else if stage == MODRM then l.SibOff()
    else if stage == OPCODE then l.ModrmOff()
    else if stage == PREFIXES then l.p.End()
    else 0
  }

  /// The got flags are the stage.
  lemma GotFlags(c: seq<Byte>, x64: bool, stage: nat)
    ensures var s := StateAt(c, x64, stage);
      && (s.prefixes.got <==> stage >= PREFIXES) && (s.opcode.got <==> stage >= OPCODE)
      && (s.modrm.got <==> stage >= MODRM) && (s.sib.got <==> stage >= SIB)
      && (s.displacement.got <==> stage >= DISPLACEMENT) && (s.immediate.got <==> stage >= IMMEDIATE)
  {}

  /// What the prefix stage adds to the initial state.
  lemma PrefixStage(c: seq<Byte>, x64: bool)
    ensures var (s, p) := (StateAt(c, x64, 0), PrefixesOf(c, x64));
      && s == State(EMPTY_BYTES, EMPTY, EMPTY_BYTES, EMPTY_BYTES, EMPTY, EMPTY, EMPTY, EMPTY, EMPTY, ZERO, 4,
                    if x64 then 8 else 4, 0, 0)
      && StateAt(c, x64, PREFIXES) == s.(prefixes := ByteField(p.bytes, true, p.run % 0x100),
           rexPrefix := Field(p.rex, true, p.rexSize), vexPrefix := ByteField(p.vex, true, p.vexSize),
           opndBytes := p.opnd, addrBytes := p.addr, next := p.End())
  {
    hide PrefixesOf, OpcodeOf, ModrmOf;
  }

  lemma PrefixesKept(c: seq<Byte>, x64: bool, stage: nat)
    requires stage >= PREFIXES
    ensures var (s, p) := (StateAt(c, x64, stage), Parse(c, x64).p);
      s.prefixes.bytes == p.bytes && s.vexPrefix == ByteField(p.vex, true, p.vexSize)
  {
    hide Parse;
  }

  lemma OpcodeKept(c: seq<Byte>, x64: bool)
    ensures var (s, l) := (StateAt(c, x64, OPCODE), Parse(c, x64));
      s.attr == l.o.attr && s.opndBytes == l.p.opnd && s.next == l.ModrmOff() && s.modrm == EMPTY
      && l.SibOff() <= l.Length()
  {
    hide Parse;
  }

  lemma ModrmKept(c: seq<Byte>, x64: bool, stage: nat)
    requires stage >= MODRM
    ensures var (s, l) := (StateAt(c, x64, stage), Parse(c, x64));
      && s.modrm == Field(l.m.value, true, l.m.size) && s.addrBytes == l.p.addr
      && s.attr == l.m.attr && s.opndBytes == l.m.opnd && s.next == Cursor(l, stage)
      && (stage < SIB ==> s.sib == EMPTY) && (stage < DISPLACEMENT ==> s.displacement == EMPTY)
      && (stage < IMMEDIATE ==> s.immediate == EMPTY && s.immediate2 == EMPTY)
      && l.DispOff() <= l.ImmOff() <= l.Length()
  {
    hide Parse;
  }

  lemma SibKept(c: seq<Byte>, x64: bool, stage: nat)
    requires stage >= SIB
    ensures StateAt(c, x64, stage).sib == Field(Parse(c, x64).sib, true, Parse(c, x64).sibSize)
  {
    hide Parse;
  }

  lemma LengthKept(c: seq<Byte>, x64: bool, stage: nat)
    requires stage <= LENGTH
    ensures var (s, n) := (StateAt(c, x64, stage), Parse(c, x64).Length());
      && s.length == (if stage == LENGTH then n % 0x100 else 0)
      && (stage >= IMMEDIATE ==> s.next == n)
  {
    hide Parse;
  }

  lemma OpcodeStage(c: seq<Byte>, x64: bool)
    ensures var l := Parse(c, x64);
      StateAt(c, x64, OPCODE) == StateAt(c, x64, PREFIXES).(
        opcode := ByteField(Pad4(l.o.bytes), true, |l.o.bytes|), attr := l.o.attr, next := l.ModrmOff())
  {
    hide Parse;
  }

  lemma ModrmStage(c: seq<Byte>, x64: bool)
    ensures var l := Parse(c, x64);
      StateAt(c, x64, MODRM) == StateAt(c, x64, OPCODE).(
        modrm := Field(l.m.value, true, l.m.size), attr := l.m.attr, opndBytes := l.m.opnd, next := l.SibOff())
  {
    hide Parse;
  }

  lemma SibStage(c: seq<Byte>, x64: bool)
    ensures var l := Parse(c, x64);
      StateAt(c, x64, SIB) == StateAt(c, x64, MODRM).(sib := Field(l.sib, true, l.sibSize), next := l.DispOff())
  {
    hide Parse;
  }

  lemma DisplacementStage(c: seq<Byte>, x64: bool)
    ensures var l := Parse(c, x64);
      StateAt(c, x64, DISPLACEMENT) == StateAt(c, x64, SIB).(
        displacement := Field(Disp(c, l), true, l.dispSize), next := l.ImmOff())
  {
    hide Parse;
  }

  lemma ImmediateStage(c: seq<Byte>, x64: bool)
    ensures var l := Parse(c, x64);
      StateAt(c, x64, IMMEDIATE) == StateAt(c, x64, DISPLACEMENT).(
        immediate := Field(Imm1(c, l), true, l.imm1Size),
        immediate2 := Field(Imm2(c, l), Imm2Got(l.m.attr, l.m.opnd), l.imm2Size), next := l.Length())
  {
    hide Parse;
  }

  lemma LengthStage(c: seq<Byte>, x64: bool)
    ensures StateAt(c, x64, LENGTH) == StateAt(c, x64, IMMEDIATE).(length := Parse(c, x64).Length() % 0x100)
  {
    hide Parse;
  }

  function Max(a: nat, b: nat): nat { if a < b then b else a }

  datatype Getter = Prefixes | Opcode | Modrm | Sib | Displacement | Immediate | Length | RipRelative | IsAvx

  class Insn {
    const text: array<Byte>
    const kaddr: nat
    const x64: bool

    var prefixes: ByteField
    var rexPrefix: Field
    var vexPrefix: ByteField
    var opcode: ByteField
    var modrm: Field
    var sib: Field
    var displacement: Field
    var immediate: Field
    var immediate2: Field
    var attr: Attr
    var opndBytes: nat
    var addrBytes: nat
    var length: nat
    var nextByte: nat

    ghost const code: seq<Byte>
    ghost var stage: nat

    ghost function Fields(): State
      reads this
    {
      State(prefixes, rexPrefix, vexPrefix, opcode, modrm, sib, displacement, immediate, immediate2,
            attr, opndBytes, addrBytes, length, nextByte - kaddr)
    }

    ghost predicate Valid()
      reads this
    {
      stage <= LENGTH && kaddr <= nextByte && Fields() == StateAt(code, x64, stage)
    }

    /// The memory from kaddr on still is what it was when decoding began.
    ghost predicate Mapped()
      reads text
    {
      kaddr <= text.Length && text[kaddr..] == code
    }

    /// The whole instruction is mapped.
    ghost predicate Complete()
    {
      Parse(code, x64).Length() <= |code|
    }

    /// insn_init
    constructor (text: array<Byte>, kaddr: nat, x64: bool)
      requires kaddr <= text.Length
      ensures this.text == text && this.kaddr == kaddr && this.x64 == x64 && code == text[kaddr..]
      ensures stage == 0 && Valid()
    {
      this.text, this.kaddr, this.x64 := text, kaddr, x64;
      prefixes, vexPrefix, opcode := EMPTY_BYTES, EMPTY_BYTES, EMPTY_BYTES;
      rexPrefix, modrm, sib, displacement, immediate, immediate2 := EMPTY, EMPTY, EMPTY, EMPTY, EMPTY, EMPTY;
      attr, length, nextByte := ZERO, 0, kaddr;
      opndBytes := 4;
      addrBytes := if x64 then 8 else 4;
      code, stage := text[kaddr..], 0;
    }

    // ----- peek_next and get_next -----

    ghost predicate Readable(n: nat)
      reads this, text
    {
      Mapped() && kaddr <= nextByte && nextByte - kaddr + n <= |code|
    }

    method NextByte() returns (r: Byte)
      requires Readable(1)
      modifies this`nextByte
      ensures nextByte == old(nextByte) + 1 && r == At(code, old(nextByte) - kaddr)
    {
      r := text[nextByte];
      nextByte := nextByte + 1;
    }

    method NextChar() returns (r: int)
      requires Readable(1)
      modifies this`nextByte
      ensures nextByte == old(nextByte) + 1 && r == S8(code, old(nextByte) - kaddr)
    {
      r := Signed(text[nextByte], TWO_8);
      nextByte := nextByte + 1;
    }

    method NextUnsignedShort() returns (r: int)
      requires Readable(2)
      modifies this`nextByte
      ensures nextByte == old(nextByte) + 2 && r == U16(code, old(nextByte) - kaddr)
    {
      r := text[nextByte] as int + 0x100 * text[nextByte + 1] as int;
      nextByte := nextByte + 2;
    }

    method NextShort() returns (r: int)
      requires Readable(2)
      modifies this`nextByte
      ensures nextByte == old(nextByte) + 2 && r == S16(code, old(nextByte) - kaddr)
    {
      var u := NextUnsignedShort();
      r := Signed(u, TWO_16);
    }

    method NextInt() returns (r: int)
      requires Readable(4)
      modifies this`nextByte
      ensures nextByte == old(nextByte) + 4 && r == S32(code, old(nextByte) - kaddr)
    {
      var i := nextByte;
      r := Signed(text[i] as int + 0x100 * text[i + 1] as int + 0x1_0000 * text[i + 2] as int
                  + 0x100_0000 * text[i + 3] as int, TWO_32);
      nextByte := nextByte + 4;
    }

    // ----- getters -----

    /// The byte n places after the cursor.
    method Peek(n: nat) returns (r: Byte)
      requires Readable(n + 1)
      ensures r == At(code, nextByte - kaddr + n)
    {
      r := text[nextByte + n];
    }

    /// Whether one of the first nb slots holds b.
    method IsStored(nb: nat, b: Byte) returns (found: bool)
      requires nb <= |prefixes.bytes|
      ensures found <==> b in prefixes.bytes[..nb]
    {
      var i := 0;
      while i < nb && prefixes.bytes[i] != b
        invariant i <= nb && b !in prefixes.bytes[..i]
      {
        i := i + 1;
      }
      found := i < nb;
    }

    method Store(nb: nat, b: Byte, attr: Attr)
      requires nb < |prefixes.bytes| && attr == OpcodeAttr(b)
      requires opndBytes <= 6 && addrBytes <= if x64 then 12 else 6
      modifies this`prefixes, this`addrBytes, this`opndBytes
      ensures prefixes == old(prefixes).(bytes := old(prefixes).bytes[nb := b])
      ensures opndBytes == if b == 0x66 then 6 - old(opndBytes) else old(opndBytes)
      ensures addrBytes == if b == 0x67 then (if x64 then 12 - old(addrBytes) else 6 - old(addrBytes))
                           else old(addrBytes)
    {
      hide OpcodeAttr;
      TableFacts.PrefixBytes(b);
      prefixes := prefixes.(bytes := prefixes.bytes[nb := b]);
      if attr.pfx == PFX_ADDRSZ {
        // addr_bytes ^= 12, which swaps 8 and 4; ^= 6, which swaps 4 and 2
        addrBytes := if x64 then 12 - addrBytes else 6 - addrBytes;
      } else if attr.pfx == PFX_OPNDSZ {
        opndBytes := 6 - opndBytes;
      }
    }

    /// Store a prefix unless it is stored already; a fifth distinct one is not taken.
    method TakePrefix(nb: nat, b: Byte, attr: Attr, ghost k: nat) returns (full: bool, stored: nat)
      requires k < |code| && b == code[k] && attr == OpcodeAttr(b) && IsLegacyPrefix(attr)
      requires |prefixes.bytes| == 4 && nb <= 4 && Scanned(code, x64, k, prefixes.bytes, nb, opndBytes, addrBytes)
      modifies this`prefixes, this`addrBytes, this`opndBytes
      ensures full ==> Stops(code, k) && stored == nb
      ensures full ==> prefixes == old(prefixes) && opndBytes == old(opndBytes) && addrBytes == old(addrBytes)
      ensures !full ==> !Stops(code, k) && Scanned(code, x64, k + 1, prefixes.bytes, stored, opndBytes, addrBytes)
      ensures stored <= 4 && |prefixes.bytes| == 4 && prefixes == old(prefixes).(bytes := prefixes.bytes)
    {
      hide OpcodeAttr, TableFacts.IsLegacyByte, IsLegacyPrefix, IsRexPrefix, Scanned, Stops, AddressSize, Distinct;
      TableFacts.PrefixBytes(b);
      ScannedStep(code, x64, k, prefixes.bytes, nb, opndBytes, addrBytes);
      var found := IsStored(nb, b);
      if found {
        return false, nb;
      }
      if nb == 4 {
        return true, nb;
      }
      Store(nb, b, attr);
      return false, nb + 1;
    }

    /// Scan the legacy prefixes: skip repeats, stop at a fifth distinct one.
    method ScanLegacyPrefixes() returns (nb: nat, lb: Byte)
      requires Mapped() && Complete() && nextByte == kaddr && prefixes == EMPTY_BYTES
      requires opndBytes == 4 && addrBytes == if x64 then 8 else 4
      modifies this`prefixes, this`addrBytes, this`opndBytes, this`nextByte
      ensures var n := Run(code);
        && nextByte == kaddr + n && prefixes.nbytes == n % 0x100 && !prefixes.got
        && Scanned(code, x64, n, prefixes.bytes, nb, opndBytes, addrBytes)
        && lb == (if n == 0 then 0 else code[n - 1])
    {
      hide OpcodeAttr, TableFacts.IsLegacyByte, IsLegacyPrefix, IsRexPrefix, Parse, Scanned, Stops, AddressSize,
           Distinct, RunFrom;
      ghost var n := Run(code);
      RunFromStops(code, 0);
      LengthBound(code, x64);
      nb, lb := 0, 0;
      ghost var k := 0;
      var b := Peek(0);
      ScannedStart(code, x64);
      while IsLegacyPrefix(OpcodeAttr(b))
        invariant k <= n && nextByte == kaddr + k && b == At(code, k)
        invariant |prefixes.bytes| == 4 && nb <= 4 && prefixes.nbytes == k % 0x100 && !prefixes.got
        invariant lb == if k == 0 then 0 else code[k - 1]
        invariant Scanned(code, x64, k, prefixes.bytes, nb, opndBytes, addrBytes)
        decreases n - k
      {
        var full;
        full, nb := TakePrefix(nb, b, OpcodeAttr(b), k);
        if full {
          break;
        }
        prefixes := prefixes.(nbytes := (prefixes.nbytes + 1) % 0x100);
        nextByte := nextByte + 1;
        k := k + 1;
        lb := b;
        b := Peek(0);
      }
      NoPrefixStops(code, x64, k, prefixes.bytes, nb, opndBytes, addrBytes);
      assert k == n;
    }

    /// Set the last prefix: it goes to slot 3, and a prefix that was there takes over its slot.
    method SetLastPrefix(nb: nat, lb: Byte)
      requires var n := Run(code);
        Scanned(code, x64, n, prefixes.bytes, nb, opndBytes, addrBytes) && lb == if n == 0 then 0 else code[n - 1]
      modifies this`prefixes
      ensures prefixes == old(prefixes).(bytes := Stored(code[..Run(code)]))
    {
      ghost var run, pad := code[..Run(code)], prefixes.bytes;
      hide AddressSize, Distinct, Stops, TableFacts.IsLegacyByte;
      PrefixScan(code, x64);
      NoZero(run);
      if run != [] && pad[3] == lb {
        LastInPlace(run);
      }
      if lb != 0 && lb != prefixes.bytes[3] {
        if prefixes.bytes[3] != 0 {
          // the byte in slot 3 moves to where the last prefix was
          var b := prefixes.bytes[3];
          for i := 0 to nb
            invariant |prefixes.bytes| == 4 && prefixes == old(prefixes).(bytes := prefixes.bytes)
            invariant forall j | 0 <= j < 4 :: prefixes.bytes[j] == if j < i && pad[j] == lb then b else pad[j]
          {
            if prefixes.bytes[i] == lb {
              prefixes := prefixes.(bytes := prefixes.bytes[i := b]);
            }
          }
        }
        prefixes := prefixes.(bytes := prefixes.bytes[3 := lb]);
      }
      assert prefixes.bytes == Stored(run);
    }

    /// Decode REX prefix, which exists in 64-bit mode only; REX.W overrides the operand size.
    method DecodeRex()
      requires Mapped() && Complete() && nextByte == kaddr + Run(code) && rexPrefix == EMPTY
      modifies this`rexPrefix, this`opndBytes, this`nextByte
      ensures var p := PrefixesOf(code, x64);
        && rexPrefix == Field(p.rex, true, p.rexSize)
        && nextByte == kaddr + p.run + p.rexSize
        && opndBytes == if p.rexSize == 1 && p.rex / 8 % 2 == 1 then 8 else old(opndBytes)
    {
      hide OpcodeAttr, Parse, PrefixesOf, IsLegacyPrefix, IsVexPrefix, TableFacts.IsLegacyByte;
      LengthBound(code, x64);
      RexFields(code, x64);
      if x64 {
        var b := Peek(0);
        TableFacts.PrefixBytes(b);
        if IsRexPrefix(OpcodeAttr(b)) {
          rexPrefix := Field(b, rexPrefix.got, 1);
          nextByte := nextByte + 1;
          if b / 8 % 2 == 1 {
            opndBytes := 8;
          }
        }
      }
      rexPrefix := rexPrefix.(got := true);
    }

    /// Decode VEX prefix.  In 32-bit mode C4 and C5 are LES and LDS unless bits 7:6 of the second
    /// byte are 11; VEX.W overrides the operand size.
    method DecodeVex()
      requires var p := PrefixesOf(code, x64);
        Mapped() && Complete() && nextByte == kaddr + p.run + p.rexSize && vexPrefix == EMPTY_BYTES
      modifies this`vexPrefix, this`opndBytes, this`nextByte
      ensures var p := PrefixesOf(code, x64);
        && vexPrefix == ByteField(p.vex, true, p.vexSize)
        && nextByte == kaddr + p.End()
        && opndBytes == if p.vexSize == 3 && x64 && p.vex[2] >= 0x80 then 8 else old(opndBytes)
    {
      hide OpcodeAttr, IsRexPrefix, IsLegacyPrefix, TableFacts.IsLegacyByte, Parse, PrefixesOf;
      ghost var p := PrefixesOf(code, x64);
      VexInside(code, x64);
      VexFields(code, x64);
      var b := Peek(0);
      TableFacts.PrefixBytes(b);
      if IsVexPrefix(OpcodeAttr(b)) {
        var b2 := Peek(1);
        if x64 || Mod(b2) == 3 {
          vexPrefix := vexPrefix.(bytes := [b, b2, 0, 0]);
          if OpcodeAttr(b).pfx == PFX_VEX3 {
            b2 := Peek(2);
            vexPrefix := vexPrefix.(bytes := vexPrefix.bytes[2 := b2], nbytes := 3);
            nextByte := nextByte + 3;
            if x64 && b2 >= 0x80 {
              opndBytes := 8;
            }
          } else {
            vexPrefix := vexPrefix.(nbytes := 2);
            nextByte := nextByte + 2;
          }
        }
      }
      vexPrefix := vexPrefix.(got := true);
      assert vexPrefix.bytes == p.vex;
    }

    /// Legacy prefixes, REX and VEX in turn.
    method DecodePrefixes()
      requires Mapped() && Complete() && nextByte == kaddr && prefixes == EMPTY_BYTES && rexPrefix == EMPTY
      requires vexPrefix == EMPTY_BYTES && opndBytes == 4 && addrBytes == if x64 then 8 else 4
      modifies this`prefixes, this`rexPrefix, this`vexPrefix, this`opndBytes, this`addrBytes, this`nextByte
      ensures var p := PrefixesOf(code, x64);
        && prefixes == ByteField(p.bytes, true, p.run % 0x100)
        && rexPrefix == Field(p.rex, true, p.rexSize) && vexPrefix == ByteField(p.vex, true, p.vexSize)
        && opndBytes == p.opnd && addrBytes == p.addr && nextByte == kaddr + p.End()
    {
      hide Stored, Run, Parse, Distinct, PrefixesOf, AddressSize, OpcodeAttr, Pad4, Mapped;
      PrefixFields(code, x64);
      var nb, lb := ScanLegacyPrefixes();
      SetLastPrefix(nb, lb);
      DecodeRex();
      DecodeVex();
      prefixes := prefixes.(got := true);
    }

    /// insn_get_prefixes
    method GetPrefixes()
      requires Valid() && Mapped() && Complete()
      modifies this
      ensures Valid() && stage == Max(old(stage), PREFIXES)
    {
      hide Parse, PrefixesOf, StateAt, OpcodeAttr, Mapped;
      GotFlags(code, x64, stage);
      if prefixes.got {
        return;
      }
      PrefixStage(code, x64);
      DecodePrefixes();
      stage := PREFIXES;
    }

    // ----- bits and bytes of the prefixes: insn.h -----

    /// insn_last_prefix
    function LastPrefixByte(): Byte
      requires |prefixes.bytes| == 4
      reads this
    {
      prefixes.bytes[3]
    }

    /// vex_prefix.value != 0
    predicate VexPresent()
      reads this
    {
      vexPrefix.bytes != [0, 0, 0, 0]
    }

    /// insn_vex_m_bits
    function VexMBits(): nat
      requires |vexPrefix.bytes| == 4
      reads this
    {
      if vexPrefix.nbytes == 2 then 1 else vexPrefix.bytes[1] % 32
    }

    /// insn_vex_p_bits
    function VexPBits(): nat
      requires |vexPrefix.bytes| == 4
      reads this
    {
      if vexPrefix.nbytes == 2 then vexPrefix.bytes[1] % 4 else vexPrefix.bytes[2] % 4
    }

    /// insn_is_avx
    method IsAvx() returns (b: bool)
      requires Valid() && Mapped() && Complete()
      modifies this
      ensures Valid() && stage == Max(old(stage), PREFIXES)
      ensures b <==> Parse(code, x64).p.vexSize != 0
    {
      hide OpcodeAttr, Parse, StateAt, PrefixesOf;
      GotFlags(code, x64, stage);
      if !prefixes.got {
        GetPrefixes();
      }
      PrefixesKept(code, x64, stage);
      PrefixFields(code, x64);
      VexFields(code, x64);
      b := VexPresent();
    }

    /// One opcode byte after VEX.
    method LookupAvx(op: Byte)
      requires var p := PrefixesOf(code, x64);
        vexPrefix == ByteField(p.vex, true, p.vexSize) && p.vexSize != 0 && op == At(code, p.End())
      modifies this`attr
      ensures OpcodeOf(code, PrefixesOf(code, x64)) == InsnSpec.Opcode([op], attr)
    {
      hide AvxAttr, PrefixesOf, OpcodeOf;
      AvxPath(code, PrefixesOf(code, x64));
      attr := AvxAttr(op, VexMBits(), VexPBits());
      if !attr.vexok {
        attr := ZERO;
      }
    }

    /// Follow the escape bytes.
    method LookupEscapes(op0: Byte)
      requires var p := PrefixesOf(code, x64);
        && prefixes.bytes == p.bytes && p.vexSize == 0
        && Mapped() && p.End() + |OpcodeOf(code, p).bytes| <= |code|
        && nextByte == kaddr + p.End() + 1 && op0 == At(code, p.End()) && opcode == ByteField([op0, 0, 0, 0], false, 1)
      modifies this`opcode, this`attr, this`nextByte
      ensures var o := OpcodeOf(code, PrefixesOf(code, x64));
        && opcode == ByteField(Pad4(o.bytes), false, |o.bytes|) && attr == o.attr
        && nextByte == kaddr + PrefixesOf(code, x64).End() + |o.bytes|
    {
      hide OpcodeAttr, EscapeAttr, PrefixesOf, OpcodeOf;
      ghost var p := PrefixesOf(code, x64);
      ghost var e, o := p.End(), OpcodeOf(code, p);
      ghost var a0 := OpcodeAttr(op0);
      ghost var a1 := EscapeAttr(At(code, e + 1), p.bytes[3], a0);
      OpcodePath(code, p);
      attr := OpcodeAttr(op0);
      while attr.esc != 0
        invariant 1 <= opcode.nbytes <= |o.bytes| && !opcode.got && |opcode.bytes| == 4
        invariant forall i | 0 <= i < 4 :: opcode.bytes[i] == if i < opcode.nbytes then At(code, e + i) else 0
        invariant nextByte == kaddr + e + opcode.nbytes
        invariant attr == if opcode.nbytes == 1 then a0 else if opcode.nbytes == 2 then a1
                          else EscapeAttr(At(code, e + 2), p.bytes[3], a1)
        invariant opcode.nbytes > 1 ==> a0.esc != 0
        invariant opcode.nbytes > 2 ==> a1.esc != 0
        decreases 3 - opcode.nbytes
      {
        var op := NextByte();
        opcode := ByteField(opcode.bytes[opcode.nbytes := op], false, opcode.nbytes + 1);
        attr := EscapeAttr(op, LastPrefixByte(), attr);
      }
      if attr.vexonly {
        attr := ZERO;
      }
      assert opcode.bytes == Pad4(o.bytes);
    }

    /// The opcode bytes and their attributes.
    method ReadOpcode()
      requires var p := PrefixesOf(code, x64);
        && prefixes.bytes == p.bytes && vexPrefix == ByteField(p.vex, true, p.vexSize)
        && Mapped() && p.End() + |OpcodeOf(code, p).bytes| <= |code|
        && nextByte == kaddr + p.End() && opcode == EMPTY_BYTES
      modifies this`opcode, this`attr, this`nextByte
      ensures var o := OpcodeOf(code, PrefixesOf(code, x64));
        && opcode == ByteField(Pad4(o.bytes), true, |o.bytes|) && attr == o.attr
        && nextByte == kaddr + PrefixesOf(code, x64).End() + |o.bytes|
    {
      hide PrefixesOf, OpcodeOf;
      VexFields(code, x64);
      var op := NextByte();
      opcode := ByteField(opcode.bytes[0 := op], false, 1);
      if VexPresent() {
        LookupAvx(op);
        assert opcode.bytes == Pad4([op]);
      } else {
        LookupEscapes(op);
      }
      opcode := opcode.(got := true);
    }

    /// insn_get_opcode
    method GetOpcode()
      requires Valid() && Mapped() && Complete()
      modifies this
      ensures Valid() && stage == Max(old(stage), OPCODE)
    {
      hide Parse, StateAt, PrefixesOf, OpcodeOf, Pad4, Mapped;
      GotFlags(code, x64, stage);
      if opcode.got {
        return;
      }
      if !prefixes.got {
        GetPrefixes();
      }
      PrefixStage(code, x64);
      OpcodeStage(code, x64);
      OpcodeInside(code, x64);
      ReadOpcode();
      stage := OPCODE;
    }

    /// The ModRM byte, if any, and the attributes of an opcode group.
    method ReadModrm()
      requires var l := Parse(code, x64);
        && prefixes.bytes == l.p.bytes && attr == l.o.attr && opndBytes == l.p.opnd
        && Mapped() && nextByte == kaddr + l.ModrmOff() && l.SibOff() <= |code| && modrm == EMPTY
      modifies this`modrm, this`attr, this`opndBytes, this`nextByte
      ensures var l := Parse(code, x64);
        && modrm == Field(l.m.value, true, l.m.size) && attr == l.m.attr && opndBytes == l.m.opnd
        && nextByte == kaddr + l.SibOff()
    {
      hide Parse, GroupAttr;
      ModrmFields(code, x64);
      if attr.modrm {
        var mod := NextByte();
        modrm := Field(mod, false, 1);
        if attr.grp != 0 {
          attr := GroupAttr(mod, LastPrefixByte(), attr);
        }
      }
      if x64 && attr.force64 {
        opndBytes := 8;
      }
      modrm := modrm.(got := true);
    }

    /// insn_get_modrm
    method GetModrm()
      requires Valid() && Mapped() && Complete()
      modifies this
      ensures Valid() && stage == Max(old(stage), MODRM)
    {
      hide Parse, StateAt, Pad4, Mapped;
      GotFlags(code, x64, stage);
      if modrm.got {
        return;
      }
      if !opcode.got {
        GetOpcode();
      }
      PrefixesKept(code, x64, stage);
      OpcodeKept(code, x64);
      ModrmStage(code, x64);
      ReadModrm();
      stage := MODRM;
    }

    /// insn_rip_relative
    method RipRelative() returns (r: bool)
      requires Valid() && (modrm.got || !x64 || (Mapped() && Complete()))
      modifies this
      ensures Valid() && stage == if x64 then Max(old(stage), MODRM) else old(stage)
      ensures r <==> x64 && Parse(code, x64).RipRelative()
    {
      hide Parse, StateAt, Pad4, Mapped;
      if !x64 {
        return false;
      }
      GotFlags(code, x64, stage);
      if !modrm.got {
        GetModrm();
      }
      ModrmKept(code, x64, stage);
      r := modrm.nbytes != 0 && modrm.value / 64 == 0 && modrm.value % 8 == 5;
    }

    method ReadSib()
      requires var l := Parse(code, x64);
        && modrm == Field(l.m.value, true, l.m.size) && addrBytes == l.p.addr
        && Mapped() && nextByte == kaddr + l.SibOff() && l.DispOff() <= |code| && sib == EMPTY
      modifies this`sib, this`nextByte
      ensures var l := Parse(code, x64);
        sib == Field(l.sib, true, l.sibSize) && nextByte == kaddr + l.DispOff()
    {
      hide Parse;
      SibFields(code, x64);
      if modrm.nbytes != 0 {
        if addrBytes != 2 && Mod(modrm.value) != 3 && Rm(modrm.value) == 4 {
          var b := NextByte();
          sib := Field(b, false, 1);
        }
      }
      sib := sib.(got := true);
    }

    /// insn_get_sib
    method GetSib()
      requires Valid() && Mapped() && Complete()
      modifies this
      ensures Valid() && stage == Max(old(stage), SIB)
    {
      hide Parse, StateAt, Pad4, Mapped;
      GotFlags(code, x64, stage);
      if sib.got {
        return;
      }
      if !modrm.got {
        GetModrm();
      }
      ModrmKept(code, x64, stage);
      SibStage(code, x64);
      ReadSib();
      stage := SIB;
    }

    method ReadDisplacement()
      requires var l := Parse(code, x64);
        && modrm == Field(l.m.value, true, l.m.size) && sib == Field(l.sib, true, l.sibSize) && addrBytes == l.p.addr
        && Mapped() && nextByte == kaddr + l.DispOff() && l.ImmOff() <= |code| && displacement == EMPTY
      modifies this`displacement, this`nextByte
      ensures var l := Parse(code, x64);
        displacement == Field(Disp(code, l), true, l.dispSize) && nextByte == kaddr + l.ImmOff()
    {
      hide Parse;
      SibFields(code, x64);
      var r: int;
      if modrm.nbytes != 0 {
        var mod, rm, base := Mod(modrm.value), Rm(modrm.value), sib.value % 8;
        if mod != 3 {
          if mod == 1 {
            r := NextChar();
            displacement := Field(r, false, 1);
          } else if addrBytes == 2 {
            if (mod == 0 && rm == 6) || mod == 2 {
              r := NextShort();
              displacement := Field(r, false, 2);
            }
          } else {
            if (mod == 0 && rm == 5) || mod == 2 || (mod == 0 && base == 5) {
              r := NextInt();
              displacement := Field(r, false, 4);
            }
          }
        }
      }
      displacement := displacement.(got := true);
    }

    /// insn_get_displacement
    method GetDisplacement()
      requires Valid() && Mapped() && Complete()
      modifies this
      ensures Valid() && stage == Max(old(stage), DISPLACEMENT)
    {
      hide Parse, StateAt, Pad4, Mapped, Disp;
      GotFlags(code, x64, stage);
      if displacement.got {
        return;
      }
      if !sib.got {
        GetSib();
      }
      ModrmKept(code, x64, stage);
      SibKept(code, x64, stage);
      DisplacementStage(code, x64);
      ReadDisplacement();
      stage := DISPLACEMENT;
    }

    // ----- immediates -----

    /// __get_moffset
    method GetMoffset()
      requires addrBytes in {2, 4, 8} && Readable(addrBytes)
      modifies this`immediate, this`immediate2, this`nextByte
      ensures var off := old(nextByte) - kaddr; var n := if addrBytes == 2 then 2 else 4;
        && nextByte == old(nextByte) + addrBytes && immediate == Field(Value(code, off, n), true, n)
        && immediate2 == (if addrBytes == 8 then Field(S32(code, off + 4), true, 4)
                          else old(immediate2).(got := true))
    {
      var r: int;
      if addrBytes == 2 {
        r := NextShort();
        immediate := Field(r, false, 2);
      } else if addrBytes == 4 {
        r := NextInt();
        immediate := Field(r, false, 4);
      } else {
        r := NextInt();
        immediate := Field(r, false, 4);
        r := NextInt();
        immediate2 := Field(r, false, 4);
      }
      immediate, immediate2 := immediate.(got := true), immediate2.(got := true);
    }

    /// __get_immv32
    method GetImmv32()
      requires opndBytes in {2, 4, 8} && Readable(if opndBytes == 2 then 2 else 4) && !immediate.got
      modifies this`immediate, this`nextByte
      ensures var off := old(nextByte) - kaddr; var n := if opndBytes == 2 then 2 else 4;
        nextByte == old(nextByte) + n && immediate == Field(Value(code, off, n), false, n)
    {
      var r: int;
      if opndBytes == 2 {
        r := NextShort();
        immediate := immediate.(value := r, nbytes := 2);
      } else {
        r := NextInt();
        immediate := immediate.(value := r, nbytes := 4);
      }
    }

    /// __get_immv
    method GetImmv()
      requires opndBytes in {2, 4, 8} && Readable(opndBytes)
      modifies this`immediate, this`immediate2, this`nextByte
      ensures var off := old(nextByte) - kaddr; var n := if opndBytes == 2 then 2 else 4;
        && nextByte == old(nextByte) + opndBytes && immediate == Field(Value(code, off, n), true, n)
        && immediate2 == (if opndBytes == 8 then Field(S32(code, off + 4), true, 4)
                          else old(immediate2).(got := true))
    {
      var r: int;
      if opndBytes == 2 {
        r := NextShort();
        immediate := Field(r, false, 2);
      } else if opndBytes == 4 {
        r := NextInt();
        immediate := Field(r, false, 4);
      } else {
        r := NextInt();
        immediate := Field(r, false, 4);
        r := NextInt();
        immediate2 := Field(r, false, 4);
      }
      immediate, immediate2 := immediate.(got := true), immediate2.(got := true);
    }

    /// __get_immptr: a far pointer, offset then segment; there is none with a 64-bit offset.
    method GetImmptr()
      requires opndBytes in {2, 4, 8} && Readable(if opndBytes == 8 then 0 else opndBytes + 2)
      modifies this`immediate, this`immediate2, this`nextByte
      ensures var off := old(nextByte) - kaddr;
        if opndBytes == 8 then
          nextByte == old(nextByte) && immediate == old(immediate) && immediate2 == old(immediate2)
        else
          && nextByte == old(nextByte) + opndBytes + 2
          && immediate == Field(Value(code, off, opndBytes), true, opndBytes)
          && immediate2 == Field(U16(code, off + opndBytes), true, 2)
    {
      var r: int;
      if opndBytes == 2 {
        r := NextShort();
        immediate := Field(r, false, 2);
      } else if opndBytes == 4 {
        r := NextInt();
        immediate := Field(r, false, 4);
      } else {
        return;
      }
      r := NextUnsignedShort();
      immediate2 := Field(r, false, 2);
      immediate, immediate2 := immediate.(got := true), immediate2.(got := true);
    }

    method ReadImmediate()
      requires var l := Parse(code, x64);
        && attr == l.m.attr && opndBytes == l.m.opnd && addrBytes == l.p.addr
        && Mapped() && nextByte == kaddr + l.ImmOff() && l.Length() <= |code|
        && immediate == EMPTY && immediate2 == EMPTY
      modifies this`immediate, this`immediate2, this`nextByte
      ensures var l := Parse(code, x64);
        && immediate == Field(Imm1(code, l), true, l.imm1Size)
        && immediate2 == Field(Imm2(code, l), Imm2Got(l.m.attr, l.m.opnd), l.imm2Size)
        && nextByte == kaddr + l.Length()
    {
      hide Parse, S8, S16, S32, U16;
      ImmediateFields(code, x64);
      SecondImmediate(code, x64);
      var r: int;
      if attr.moffset {
        GetMoffset();
      } else if attr.imm != 0 {
        if attr.imm == IMM_BYTE {
          r := NextChar();
          immediate := Field(r, false, 1);
        } else if attr.imm == IMM_WORD {
          r := NextShort();
          immediate := Field(r, false, 2);
        } else if attr.imm == IMM_DWORD {
          r := NextInt();
          immediate := Field(r, false, 4);
        } else if attr.imm == IMM_QWORD {
          r := NextInt();
          immediate := Field(r, false, 4);
          r := NextInt();
          immediate2 := Field(r, false, 4);
        } else if attr.imm == IMM_PTR {
          GetImmptr();
        } else if attr.imm == IMM_VWORD32 {
          GetImmv32();
        } else {
          GetImmv();
        }
        if attr.scndimm {
          r := NextChar();
          immediate2 := immediate2.(value := r, nbytes := 1);
        }
      }
      immediate := immediate.(got := true);
    }

    /// insn_get_immediate
    method GetImmediate()
      requires Valid() && Mapped() && Complete()
      modifies this
      ensures Valid() && stage == Max(old(stage), IMMEDIATE)
    {
      hide Parse, StateAt, Pad4, Mapped, Disp, Imm1, Imm2, Imm2Got;
      GotFlags(code, x64, stage);
      if immediate.got {
        return;
      }
      if !displacement.got {
        GetDisplacement();
      }
      ModrmKept(code, x64, stage);
      ImmediateStage(code, x64);
      ReadImmediate();
      stage := IMMEDIATE;
    }

    /// insn_get_length: the byte count as an unsigned char.
    method GetLength()
      requires Valid() && Mapped() && Complete()
      modifies this
      ensures Valid() && stage == LENGTH
    {
      hide Parse, StateAt, Pad4, Mapped;
      GotFlags(code, x64, stage);
      LengthStage(code, x64);
      LengthKept(code, x64, stage);
      if length != 0 {
        return;
      }
      if !immediate.got {
        GetImmediate();
      }
      LengthKept(code, x64, stage);
      length := (nextByte - kaddr) % 0x100;
      stage := LENGTH;
    }

    // ----- offset of each field from kaddr: insn.h -----

    function OffsetRexPrefix(): nat reads this { prefixes.nbytes }
    function OffsetVexPrefix(): nat reads this { OffsetRexPrefix() + rexPrefix.nbytes }
    function OffsetOpcode(): nat reads this { OffsetVexPrefix() + vexPrefix.nbytes }
    function OffsetModrm(): nat reads this { OffsetOpcode() + opcode.nbytes }
    function OffsetSib(): nat reads this { OffsetModrm() + modrm.nbytes }
    function OffsetDisplacement(): nat reads this { OffsetSib() + sib.nbytes }
    function OffsetImmediate(): nat reads this { OffsetDisplacement() + displacement.nbytes }

    /// The fields tile the instruction: the recorded length is the sum of the recorded sizes, as an
    /// unsigned char.
    lemma Tiling()
      requires Valid() && stage == LENGTH
      ensures length == (OffsetImmediate() + immediate.nbytes + immediate2.nbytes) % 0x100
    {
      hide Parse;
      var l := Parse(code, x64);
      Wrap(l.p.run, l.Length() - l.p.run);
    }

    /// Each offset is the place where the field was read, provided the prefix count did not wrap.
    lemma OffsetsExact()
      requires Valid() && stage == LENGTH
      ensures var l := Parse(code, x64);
        && (OffsetRexPrefix() == l.p.run <==> l.p.run < 0x100)
        && (OffsetVexPrefix() == l.p.run + l.p.rexSize <==> l.p.run < 0x100)
        && (OffsetOpcode() == l.p.End() <==> l.p.run < 0x100)
        && (OffsetModrm() == l.ModrmOff() <==> l.p.run < 0x100)
        && (OffsetSib() == l.SibOff() <==> l.p.run < 0x100)
        && (OffsetDisplacement() == l.DispOff() <==> l.p.run < 0x100)
        && (OffsetImmediate() == l.ImmOff() <==> l.p.run < 0x100)
        && (length == l.Length() <==> l.Length() < 0x100)
    {
      hide Parse;
    }

    lemma FullyDecoded()
      requires Valid() && stage == LENGTH
      ensures Fields() == StateAt(code, x64, LENGTH)
    {
      hide StateAt;
    }

    /// Every field that a getter has reached has the size and the value of the one-pass reading.
    lemma AllFields()
      requires Valid()
      ensures var l := Parse(code, x64);
        && (stage >= PREFIXES ==>
              && prefixes.bytes == l.p.bytes && prefixes.nbytes == l.p.run % 0x100
              && rexPrefix.nbytes == l.p.rexSize && rexPrefix.value == l.p.rex
              && vexPrefix.nbytes == l.p.vexSize && vexPrefix.bytes == l.p.vex && addrBytes == l.p.addr)
        && (stage >= OPCODE ==> opcode.nbytes == |l.o.bytes| && opcode.bytes == Pad4(l.o.bytes))
        && (stage >= MODRM ==>
              modrm.nbytes == l.m.size && modrm.value == l.m.value && attr == l.m.attr && opndBytes == l.m.opnd)
        && (stage >= SIB ==> sib.nbytes == l.sibSize && sib.value == l.sib)
        && (stage >= DISPLACEMENT ==> displacement.nbytes == l.dispSize && displacement.value == Disp(code, l))
        && (stage >= IMMEDIATE ==>
              && immediate.nbytes == l.imm1Size && immediate.value == Imm1(code, l)
              && immediate2.nbytes == l.imm2Size && immediate2.value == Imm2(code, l)
              && nextByte == kaddr + l.Length())
    {
      hide Parse;
    }

    /// The fields of a fully decoded instruction.
    lemma Decoded()
      requires Valid() && stage == LENGTH
      ensures var l := Parse(code, x64);
        && opcode.bytes == Pad4(l.o.bytes) && modrm.got
        && displacement.value == Disp(code, l) && immediate.value == Imm1(code, l)
        && length == l.Length() % 0x100
    {
      hide Parse;
    }
  }

  lemma NoZero(run: seq<Byte>)
    requires forall x | x in run :: TableFacts.IsLegacyByte(x)
    ensures 0 !in run && (run != [] ==> run[|run| - 1] != 0)
  {
    assert run != [] ==> run[|run| - 1] in run;
  }

  /// A last prefix that was stored in slot 3 stays there.
  lemma LastInPlace(run: seq<Byte>)
    requires run != [] && |Distinct(run)| <= 4 && 0 !in run && Pad4(Distinct(run))[3] == run[|run| - 1]
    ensures Stored(run) == Pad4(Distinct(run))
  {
    hide Distinct;
    DistinctFacts(run);
    assert run[|run| - 1] in run;
  }

  lemma NoPrefixStops(c: seq<Byte>, x64: bool, k: nat, bytes: seq<Byte>, nb: nat, opnd: nat, addr: nat)
    requires k < |c| && Scanned(c, x64, k, bytes, nb, opnd, addr)
    ensures !IsLegacyPrefix(OpcodeAttr(c[k])) ==> Stops(c, k)
  {
    hide OpcodeAttr, Scanned, TableFacts.IsLegacyByte, IsLegacyPrefix, IsRexPrefix;
    TableFacts.PrefixBytes(c[k]);
    ScannedStep(c, x64, k, bytes, nb, opnd, addr);
  }

  lemma Wrap(run: nat, rest: int)
    requires rest >= 0
    ensures (run + rest) % 0x100 == (run % 0x100 + rest) % 0x100
  {}

  /// One call of a getter.
  method Call(i: Insn, g: Getter)
    requires i.Valid() && i.Mapped() && i.Complete()
    modifies i
    ensures i.Valid()
  {
    hide Parse, StateAt, Insn.Valid;
    match g
    case Prefixes => i.GetPrefixes();
    case Opcode => i.GetOpcode();
    case Modrm => i.GetModrm();
    case Sib => i.GetSib();
    case Displacement => i.GetDisplacement();
    case Immediate => i.GetImmediate();
    case Length => i.GetLength();
    case RipRelative => var r := i.RipRelative();
    case IsAvx => var b := i.IsAvx();
  }

  /// Laziness is unobservable: after any calls in any order, with repeats, insn_get_length leaves
  /// exactly the state of one complete decode.
  method AnyOrder(i: Insn, calls: seq<Getter>)
    requires i.Valid() && i.Mapped() && i.Complete()
    modifies i
    ensures i.Valid() && i.Fields() == StateAt(i.code, i.x64, LENGTH)
  {
    hide Parse, StateAt, Insn.Valid;
    for k := 0 to |calls|
      invariant i.Valid()
    {
      Call(i, calls[k]);
    }
    i.GetLength();
    i.FullyDecoded();
  }
}
