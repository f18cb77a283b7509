/// What the one-pass reading guarantees: prefix scan, locality, stability under patching, length bound.
module InsnTheory {
  import opened Bytes
  import opened InatAttr
  import opened Inat
  import opened InsnSpec
  import TableFacts

  // ----- prefix scan -----

  lemma {:induction false} RunFromStops(c: seq<Byte>, i: nat)
    requires i <= |c|
    ensures Stops(c, RunFrom(c, i))
    ensures forall j | i <= j < RunFrom(c, i) :: !Stops(c, j)
    decreases |c| - i
  {
    if !Stops(c, i) {
      RunFromStops(c, i + 1);
    }
  }

  lemma {:induction false} RunFromUnique(c: seq<Byte>, i: nat, n: nat)
    requires i <= n <= |c| && Stops(c, n)
    requires forall j | i <= j < n :: !Stops(c, j)
    ensures RunFrom(c, i) == n
    decreases n - i
  {
    if i < n {
      RunFromUnique(c, i + 1, n);
    }
  }

  ghost predicate NoRepeats(s: seq<Byte>)
  {
    forall i, j | 0 <= i < j < |s| :: s[i] != s[j]
  }

  lemma {:induction false} DistinctFacts(s: seq<Byte>)
    ensures NoRepeats(Distinct(s))
    ensures forall x :: x in Distinct(s) <==> x in s
  {
    if s != [] {
      var front := s[..|s| - 1];
      DistinctFacts(front);
      assert s == front + [s[|s| - 1]];
    }
  }

  lemma {:induction false} FourDistinct(c: seq<Byte>, i: nat)
    requires i <= Run(c)
    ensures |Distinct(c[..i])| <= 4
    ensures forall x | x in c[..i] :: TableFacts.IsLegacyByte(x)
  {
    RunFromStops(c, 0);
    if i > 0 {
      FourDistinct(c, i - 1);
      assert c[..i] == c[..i - 1] + [c[i - 1]];
      assert c[..i][..|c[..i]| - 1] == c[..i - 1];
      assert !Stops(c, i - 1);
    }
  }

  /// The scan takes the maximal run of legacy prefixes with at most four distinct values.  The
  /// stored bytes are those values, slot 3 being the last prefix read (zero if there was none).
  lemma PrefixScan(c: seq<Byte>, x64: bool)
    ensures var n := Run(c);
      Stops(c, n) && (forall j | 0 <= j < n :: !Stops(c, j))
      && |Distinct(c[..n])| <= 4 && (forall x | x in c[..n] :: TableFacts.IsLegacyByte(x))
    ensures var (n, s) := (Run(c), Stored(c[..Run(c)]));
      (forall x | x != 0 :: x in s <==> x in c[..n])
      && s[3] == if n == 0 then 0 else c[n - 1]
  {
    var n := Run(c);
    RunFromStops(c, 0);
    FourDistinct(c, n);
    StoredElements(c[..n]);
  }

  lemma StoredElements(run: seq<Byte>)
    requires |Distinct(run)| <= 4 && 0 !in run
    ensures forall x | x != 0 :: x in Stored(run) <==> x in run
    ensures Stored(run)[3] == if run == [] then 0 else run[|run| - 1]
  {
    DistinctFacts(run);
    var d, s := Distinct(run), Stored(run);
    var pad := Pad4(d);
    if run != [] {
      var last := run[|run| - 1];
      forall x | x != 0 && x in run
        ensures x in s
      {
        var i :| 0 <= i < |d| && d[i] == x;
        if x == last {
          assert s[3] == x;
        } else if i < 3 {
          assert s[i] == x;
        } else {
          var k :| 0 <= k < |d| && d[k] == last;
          assert s[k] == x;
        }
      }
      forall x | x != 0 && x in s
        ensures x in run
      {
        var i :| 0 <= i < 4 && s[i] == x;
        assert x == last || x == pad[i] || x == pad[3];
        if x != last {
          assert x in d;
        }
      }
    } else {
      assert forall i | 0 <= i < 4 :: s[i] == 0;
    }
  }

  lemma NoPrefixes(c: seq<Byte>)
    ensures Distinct(c[..0]) == [] && Pad4([]) == [0, 0, 0, 0]
  {}

  /// One more prefix byte.
  lemma DistinctStep(c: seq<Byte>, k: nat)
    requires k < |c|
    ensures var (d, e) := (Distinct(c[..k]), Distinct(c[..k + 1]));
      && e == (if c[k] in d then d else d + [c[k]])
      && (c[k] in d <==> c[k] in c[..k])
      && (|d| <= 4 ==> Pad4(d)[..|d|] == d)
      && (|e| <= 4 ==> Pad4(e) == if c[k] in d then Pad4(d) else Pad4(d)[|d| := c[k]])
    ensures forall x :: x in c[..k + 1] <==> x in c[..k] || x == c[k]
  {
    assert c[..k + 1][..k] == c[..k];
    assert c[..k + 1] == c[..k] + [c[k]];
    DistinctFacts(c[..k]);
  }

  /// What the scan has gathered from the first k bytes: the stored prefixes, how many, and the
  /// operand and address size.
  ghost predicate Scanned(c: seq<Byte>, x64: bool, k: nat, bytes: seq<Byte>, nb: nat, opnd: nat, addr: nat)
    requires k <= |c|
  {
    && nb == |Distinct(c[..k])| <= 4 && bytes == Pad4(Distinct(c[..k])) && bytes[..nb] == Distinct(c[..k])
    && opnd == (if 0x66 in c[..k] then 2 else 4)
    && addr == AddressSize(x64, 0x67 in c[..k])
  }

  lemma ScannedStart(c: seq<Byte>, x64: bool)
    ensures Scanned(c, x64, 0, [0, 0, 0, 0], 0, 4, if x64 then 8 else 4)
  {
    NoPrefixes(c);
  }

  /// A repeated prefix changes nothing; a new one is stored, and 0x66 and 0x67 switch their size.
  lemma ScannedStep(c: seq<Byte>, x64: bool, k: nat, bytes: seq<Byte>, nb: nat, opnd: nat, addr: nat)
    requires k < |c| && Scanned(c, x64, k, bytes, nb, opnd, addr)
    ensures c[k] in bytes[..nb] ==> Scanned(c, x64, k + 1, bytes, nb, opnd, addr)
    ensures c[k] !in bytes[..nb] && nb < 4 ==>
      Scanned(c, x64, k + 1, bytes[nb := c[k]], nb + 1, if c[k] == 0x66 then 6 - opnd else opnd,
              if c[k] == 0x67 then (if x64 then 12 - addr else 6 - addr) else addr)
    ensures Stops(c, k) <==> !TableFacts.IsLegacyByte(c[k]) || (c[k] !in bytes[..nb] && nb == 4)
    ensures opnd <= 6 && addr <= if x64 then 12 else 6
  {
    DistinctStep(c, k);
    if c[k] !in bytes[..nb] && nb < 4 {
      assert bytes[nb := c[k]][..nb + 1] == bytes[..nb] + [c[k]];
    }
  }

  // ----- locality -----

  ghost predicate Same(c: seq<Byte>, d: seq<Byte>, n: nat)
  {
    forall i: nat | i < n :: At(c, i) == At(d, i)
  }

  lemma RunLocal(c: seq<Byte>, d: seq<Byte>)
    requires Same(c, d, Run(c) + 1)
    ensures Run(d) == Run(c) && d[..Run(c)] == c[..Run(c)]
  {
    var n := Run(c);
    RunFromStops(c, 0);
    FourDistinct(c, n);
    assert n <= |d| by {
      if n > 0 {
        assert c[n - 1] in c[..n];
        assert At(d, n - 1) == At(c, n - 1) == c[n - 1] != 0;
      }
    }
    forall i | 0 <= i < n
      ensures d[i] == c[i]
    {
      assert At(d, i) == At(c, i);
    }
    forall i | 0 <= i <= n
      ensures Stops(d, i) == Stops(c, i)
    {
      assert d[..i] == c[..i];
      assert At(d, i) == At(c, i);
    }
    RunFromUnique(d, 0, n);
  }

  /// The scan looks no further than the opcode byte, and in 32-bit mode the ModRM byte of LDS and LES.
  lemma PrefixesLocal(c: seq<Byte>, d: seq<Byte>, x64: bool)
    requires var p := PrefixesOf(c, x64);
      Same(c, d, p.End() + if IsVex(At(c, p.End())) && p.vexSize == 0 then 2 else 1)
    ensures PrefixesOf(d, x64) == PrefixesOf(c, x64)
  {
    hide TableFacts.IsLegacyByte, Run, Stored;
    var n, p, q := Run(c), PrefixesOf(c, x64), PrefixesOf(d, x64);
    RunLocal(c, d);
    assert At(c, n) == At(d, n);
    var v := n + p.rexSize;
    assert At(c, v) == At(d, v);
    assert p.vexSize == 0 && IsVex(At(c, v)) ==> At(c, v + 1) == At(d, v + 1);
    assert p.vexSize != 0 ==> At(c, v + 1) == At(d, v + 1);
    assert q.vexSize == p.vexSize;
    assert p.vexSize == 3 ==> At(c, v + 2) == At(d, v + 2);
    assert q.vex == p.vex;
  }

  /// A C4 or C5 that was not taken as VEX is LDS or LES and has a ModRM byte.
  lemma HeadCovered(c: seq<Byte>, x64: bool)
    ensures var l := Parse(c, x64);
      IsVex(At(c, l.p.End())) && l.p.vexSize == 0 ==> l.m.size == 1
  {
    hide OpcodeAttr, EscapeAttr;
    var b := At(c, Parse(c, x64).p.End());
    if IsVex(b) {
      TableFacts.VexBytes(b);
    }
  }

  lemma OpcodeLocal(c: seq<Byte>, d: seq<Byte>, p: Prefixes)
    requires p.WellFormed()
    requires forall i: nat | p.End() <= i < p.End() + |OpcodeOf(c, p).bytes| :: At(c, i) == At(d, i)
    ensures OpcodeOf(d, p) == OpcodeOf(c, p)
  {
    hide OpcodeAttr, EscapeAttr, AvxAttr;
    var e, k := p.End(), |OpcodeOf(c, p).bytes|;
    assert At(c, e) == At(d, e);
    assert k > 1 ==> At(c, e + 1) == At(d, e + 1);
    assert k > 2 ==> At(c, e + 2) == At(d, e + 2);
  }

  /// Sizes, attributes and all header bytes depend only on the bytes before the displacement.
  lemma ParseLocal(c: seq<Byte>, d: seq<Byte>, x64: bool)
    requires Same(c, d, Parse(c, x64).DispOff())
    ensures Parse(d, x64) == Parse(c, x64)
  {
    hide PrefixesOf, OpcodeOf, GroupAttr;
    var l := Parse(c, x64);
    HeadCovered(c, x64);
    PrefixesLocal(c, d, x64);
    var e, k := l.p.End(), |l.o.bytes|;
    assert forall i: nat | e <= i < e + k :: At(c, i) == At(d, i);
    OpcodeLocal(c, d, l.p);
    assert l.m.size == 1 ==> At(c, e + k) == At(d, e + k);
    assert l.sibSize == 1 ==> At(c, e + k + l.m.size) == At(d, e + k + l.m.size);
  }

  lemma ValueLocal(c: seq<Byte>, d: seq<Byte>, off: nat, size: nat)
    requires forall i: nat | off <= i < off + size :: At(c, i) == At(d, i)
    ensures Value(d, off, size) == Value(c, off, size)
    ensures size == 2 ==> U16(d, off) == U16(c, off)
  {}

  /// Decoding depends on exactly the bytes of the instruction: any window that agrees on them gives
  /// the same sizes, attributes and values.
  lemma DecodeLocal(c: seq<Byte>, d: seq<Byte>, x64: bool)
    requires Same(c, d, Parse(c, x64).Length())
    ensures var l := Parse(c, x64);
      Parse(d, x64) == l && Disp(d, l) == Disp(c, l) && Imm1(d, l) == Imm1(c, l) && Imm2(d, l) == Imm2(c, l)
  {
    hide Parse;
    var l := Parse(c, x64);
    ParseLocal(c, d, x64);
    ValueLocal(c, d, l.DispOff(), l.dispSize);
    ValueLocal(c, d, l.ImmOff(), l.imm1Size);
    ValueLocal(c, d, l.ImmOff() + l.imm1Size, l.imm2Size);
  }

  /// An instruction is never a proper prefix of another one.
  lemma SelfDelimiting(c: seq<Byte>, d: seq<Byte>, x64: bool)
    requires |c| == Parse(c, x64).Length() && |d| == Parse(d, x64).Length()
    requires c <= d
    ensures c == d
  {
    DecodeLocal(c, d, x64);
  }

  // ----- length -----

  lemma WithoutVexNarrow(a: Attr)
    requires TableFacts.Narrow(a)
    ensures TableFacts.Narrow(WithoutVex(a)) && TableFacts.Narrow(ZERO)
  {}

  lemma OpcodeKinds(c: seq<Byte>, p: Prefixes)
    requires p.WellFormed()
    ensures var o := OpcodeOf(c, p);
      TableFacts.Narrow(o.attr) || (TableFacts.Wide(o.attr) && |o.bytes| == 1 && p.vexSize == 0)
  {
    hide OpcodeAttr, EscapeAttr, AvxAttr, TableFacts.Narrow, TableFacts.Wide;
    var b0, b1, b2 := At(c, p.End()), At(c, p.End() + 1), At(c, p.End() + 2);
    var a1 := EscapeAttr(b1, p.bytes[3], OpcodeAttr(b0));
    var a2 := EscapeAttr(b2, p.bytes[3], a1);
    TableFacts.AvxAttrNarrow(b0, VexM(p), VexP(p));
    WithoutVexNarrow(AvxAttr(b0, VexM(p), VexP(p)));
    TableFacts.EscapeAttrNarrow(b1, p.bytes[3], OpcodeAttr(b0));
    WithoutVexNarrow(a1);
    TableFacts.EscapeAttrNarrow(b2, p.bytes[3], a1);
    WithoutVexNarrow(a2);
    PrimaryWide(b0);
  }

  lemma PrimaryWide(b: Byte)
    ensures TableFacts.Wide(OpcodeAttr(b)) && TableFacts.Wide(WithoutVex(OpcodeAttr(b)))
  {
    TableFacts.PrimaryWide(b);
  }

  /// The final attributes, after a group has been resolved: a second immediate follows a WORD only,
  /// and a ModRM byte excludes the long immediates.
  lemma FinalAttr(c: seq<Byte>, x64: bool)
    ensures var l := Parse(c, x64);
      var (a, m, plain) := (l.m.attr, l.m, |l.o.bytes| == 1 && l.p.vexSize == 0);
      && (a.scndimm ==> a.imm == IMM_WORD && !a.moffset && m.size == 0 && plain)
      && (a.moffset ==> a.imm == 0 && m.size == 0 && plain)
      && (a.imm == 0 || a.imm == IMM_BYTE || a.imm == IMM_VWORD32 || (m.size == 0 && plain))
      && (a.imm == IMM_VWORD32 && m.size == 1 ==> plain)
      && a.imm != IMM_QWORD && a.imm != IMM_DWORD
  {
    var l := Parse(c, x64);
    hide OpcodeAttr, EscapeAttr, AvxAttr, GroupAttr, PrefixesOf, OpcodeOf;
    OpcodeKinds(c, l.p);
    if l.o.attr.grp != 0 {
      TableFacts.GroupMerge(l.m.value, l.p.bytes[3], l.o.attr);
    }
  }

  /// After the legacy prefixes an instruction has at most 12 bytes, and at least one.
  lemma LengthBound(c: seq<Byte>, x64: bool)
    ensures Run(c) + 1 <= Parse(c, x64).Length() <= Run(c) + 12
  {
    FinalAttr(c, x64);
    hide OpcodeAttr, EscapeAttr, AvxAttr, GroupAttr, Run, Stored, OpcodeOf;
    var l := Parse(c, x64);
    assert l.m.opnd in {2, 4, 8};
    assert l.m.size == 0 ==> l.sibSize == l.dispSize == 0;
    assert l.imm1Size + l.imm2Size <= 8;
  }

  /// Both bytes a C4 or C5 makes the scan look at belong to the instruction.
  lemma VexInside(c: seq<Byte>, x64: bool)
    ensures var (p, n) := (PrefixesOf(c, x64), Parse(c, x64).Length());
      p.run + p.rexSize < n && (IsVex(At(c, p.run + p.rexSize)) ==> p.run + p.rexSize + 1 < n) && p.End() < n
  {
    hide OpcodeAttr, EscapeAttr, AvxAttr, GroupAttr, Run, Stored, OpcodeOf;
    HeadCovered(c, x64);
  }

  lemma PrefixFields(c: seq<Byte>, x64: bool)
    ensures var p := PrefixesOf(c, x64);
      && Parse(c, x64).p == p && p.run == Run(c) && p.bytes == Stored(c[..p.run])
      && p.opnd == (if (p.rexSize == 1 && p.rex / 8 % 2 == 1) || (p.vexSize == 3 && x64 && p.vex[2] >= 0x80) then 8
                    else if 0x66 in c[..p.run] then 2 else 4)
      && p.addr == AddressSize(x64, 0x67 in c[..p.run])
  {
    hide Stored, Run;
  }

  lemma RexFields(c: seq<Byte>, x64: bool)
    ensures var p := PrefixesOf(c, x64);
      && p.run == Run(c) && (p.rexSize != 0 <==> x64 && 0x40 <= At(c, p.run) <= 0x4f)
      && p.rex == if p.rexSize != 0 then At(c, p.run) else 0
  {
    hide Stored, Run;
  }

  /// The VEX bytes one by one.
  lemma VexFields(c: seq<Byte>, x64: bool)
    ensures var p := PrefixesOf(c, x64); var v := p.run + p.rexSize;
      && (p.vexSize == 0 ==> p.vex == [0, 0, 0, 0])
      && (p.vexSize == 2 ==> p.vex == [At(c, v), At(c, v + 1), 0, 0])
      && (p.vexSize == 3 ==> p.vex == [At(c, v), At(c, v + 1), At(c, v + 2), 0])
      && (p.vexSize != 0 <==> IsVex(At(c, v)) && (x64 || Mod(At(c, v + 1)) == 3))
      && (p.vexSize != 0 ==> (p.vexSize == 3 <==> At(c, v) == 0xc4))
  {
    hide Stored, Run;
  }

  /// The escape loop leaves after at most two escapes, with the attributes of OpcodeOf.
  lemma OpcodePath(c: seq<Byte>, p: Prefixes)
    requires p.WellFormed() && p.vexSize == 0
    ensures var (b0, b1, b2) := (At(c, p.End()), At(c, p.End() + 1), At(c, p.End() + 2));
      var a0 := OpcodeAttr(b0);
      var a1 := EscapeAttr(b1, p.bytes[3], a0);
      var a2 := EscapeAttr(b2, p.bytes[3], a1);
      if a0.esc == 0 then OpcodeOf(c, p) == Opcode([b0], WithoutVex(a0))
      else if a1.esc == 0 then OpcodeOf(c, p) == Opcode([b0, b1], WithoutVex(a1))
      else a2.esc == 0 && OpcodeOf(c, p) == Opcode([b0, b1, b2], WithoutVex(a2))
  {
    hide OpcodeAttr, EscapeAttr, AvxAttr;
    var (b0, b1, b2) := (At(c, p.End()), At(c, p.End() + 1), At(c, p.End() + 2));
    var a1 := EscapeAttr(b1, p.bytes[3], OpcodeAttr(b0));
    TableFacts.EscapeDepth(b0, p.bytes[3], OpcodeAttr(b0));
    TableFacts.EscapeDepth(b1, p.bytes[3], OpcodeAttr(b0));
    TableFacts.EscapeDepth(b2, p.bytes[3], a1);
  }

  lemma AvxPath(c: seq<Byte>, p: Prefixes)
    requires p.WellFormed() && p.vexSize != 0
    ensures var a := AvxAttr(At(c, p.End()), VexM(p), VexP(p));
      OpcodeOf(c, p) == Opcode([At(c, p.End())], if a.vexok then a else ZERO)
  {
    hide OpcodeAttr, EscapeAttr, AvxAttr;
  }

  lemma OpcodeInside(c: seq<Byte>, x64: bool)
    ensures var l := Parse(c, x64); var p := PrefixesOf(c, x64);
      l.p == p && l.o == OpcodeOf(c, p) && p.End() + |l.o.bytes| <= l.Length()
  {
    hide PrefixesOf, OpcodeOf, OpcodeAttr, EscapeAttr, AvxAttr, GroupAttr;
  }

  /// The rules of ModrmOf, SibSize and DispSize, and of the immediates, as equations on a layout.
  lemma ModrmFields(c: seq<Byte>, x64: bool)
    ensures var l := Parse(c, x64); l.m == ModrmOf(c, x64, l.p, l.o)
  {
    hide PrefixesOf, OpcodeOf, ModrmOf, OpcodeAttr, EscapeAttr, AvxAttr, GroupAttr;
  }

  lemma SibFields(c: seq<Byte>, x64: bool)
    ensures var l := Parse(c, x64);
      && l.sibSize == SibSize(l.m, l.p.addr) && l.sib == (if l.sibSize == 1 then At(c, l.SibOff()) else 0)
      && l.dispSize == DispSize(l.m, l.sib, l.p.addr)
  {
    hide PrefixesOf, OpcodeOf, ModrmOf, OpcodeAttr, EscapeAttr, AvxAttr, GroupAttr;
  }

  lemma ImmediateFields(c: seq<Byte>, x64: bool)
    ensures var l := Parse(c, x64);
      && l.imm1Size == Imm1Size(l.m.attr, l.m.opnd, l.p.addr) && l.imm2Size == Imm2Size(l.m.attr, l.m.opnd, l.p.addr)
      && l.m.opnd in {2, 4, 8} && l.p.addr in {2, 4, 8}
  {
    hide OpcodeOf, OpcodeAttr, EscapeAttr, AvxAttr, GroupAttr, Run, Stored;
  }

  lemma SecondImmediate(c: seq<Byte>, x64: bool)
    ensures var a := Parse(c, x64).m.attr; a.scndimm ==> a.imm == IMM_WORD && !a.moffset
  {
    hide Parse;
    FinalAttr(c, x64);
  }
}
