/// Walking a function instruction by instruction, and what the copy loop of symbol_hijack establishes.
module CopyLoop {
  import opened Bytes
  import opened Wrappers
  import opened InsnSpec
  import opened InsnTheory
  import opened Relocation

  /// end_addr after the scan over trailing zero bytes.
  function TrimmedEnd(m: seq<Byte>, start: nat, end: nat): (e: nat)
    requires start <= end <= |m|
    ensures start <= e <= end
    ensures forall i | e <= i < end :: m[i] == 0
    ensures e > start ==> m[e - 1] != 0
    decreases end - start
  {
    if end > start && m[end - 1] == 0 then TrimmedEnd(m, start, end - 1) else end
  }

  function LengthAt(m: seq<Byte>, a: nat): (n: nat)
    requires a <= |m|
    ensures n >= 1
  {
    LengthBound(m[a..], true);
    Parse(m[a..], true).Length()
  }

  /// The text from a up to end decodes into whole instructions before limit.  Each is at most
  /// 255 bytes long, unless the decoder rejects it (its 8-bit length is zero), and the branch test
  /// is right about it.
  ghost predicate Walkable(m: seq<Byte>, a: nat, end: nat, f: Func, limit: nat)
    requires a <= |m| && end <= limit <= |m|
    decreases end - a
  {
    a < end ==>
      var n := LengthAt(m, a);
      && a + n <= limit
      && (n % 0x100 == 0 || (n < 0x100 && Classified(m[a..], a, f) && Walkable(m, a + n, end, f, limit)))
  }

  /// The first instruction boundary at or past end; None if the decoder rejects an instruction before.
  ghost function Extent(m: seq<Byte>, a: nat, end: nat): (r: Option<nat>)
    requires a <= |m| && end <= |m|
    ensures r.Some? ==> a <= r.value
    decreases end - a
  {
    if a >= end then Some(a)
    else if LengthAt(m, a) % 0x100 == 0 || a + LengthAt(m, a) > |m| then None
    else Extent(m, a + LengthAt(m, a), end)
  }

  /// x is reached from a by whole instructions.
  ghost predicate Boundary(m: seq<Byte>, a: nat, x: nat)
    requires a <= |m|
    decreases x - a
  {
    a == x || (a < x && a + LengthAt(m, a) <= |m| && Boundary(m, a + LengthAt(m, a), x))
  }

  /// Every instruction between a and b is relocated by shift, and b is a boundary.
  ghost predicate Copied(m0: seq<Byte>, m1: seq<Byte>, a: nat, b: nat, shift: int, f: Func)
    requires a <= |m0|
    decreases b - a
  {
    if a >= b then a == b
    else
      var n := LengthAt(m0, a);
      && a + n <= b <= |m0| && 0 <= a + shift && b + shift <= |m1|
      && Relocated(m0[a..], a, m1[a + shift..], a + shift, f)
      && Copied(m0, m1, a + n, b, shift, f)
  }

  // ----- locality -----

  /// Two memories agree on [lo, hi).
  ghost predicate SameText(m: seq<Byte>, m': seq<Byte>, lo: int, hi: int)
  {
    |m'| == |m| && forall i | 0 <= i < |m| && lo <= i < hi :: m'[i] == m[i]
  }

  lemma AgreeWindow(m: seq<Byte>, m': seq<Byte>, a: nat, n: nat)
    requires SameText(m, m', a, a + n) && a + n <= |m|
    ensures Same(m[a..], m'[a..], n)
  {}

  lemma LengthLocal(m: seq<Byte>, m': seq<Byte>, a: nat, hi: nat)
    requires a <= |m| && a + LengthAt(m, a) <= hi <= |m| && SameText(m, m', a, hi)
    ensures LengthAt(m', a) == LengthAt(m, a)
  {
    hide Parse;
    AgreeWindow(m, m', a, LengthAt(m, a));
    DecodeLocal(m[a..], m'[a..], true);
  }

  lemma {:induction false} WalkLocal(m: seq<Byte>, m': seq<Byte>, a: nat, end: nat, f: Func, limit: nat)
    requires a <= |m| && f.addr <= a && end <= limit <= |m|
    requires SameText(m, m', f.addr, limit) && Walkable(m, a, end, f, limit)
    ensures Walkable(m', a, end, f, limit) && Extent(m', a, end) == Extent(m, a, end)
    decreases end - a
  {
    hide Parse;
    if a < end {
      var n := LengthAt(m, a);
      LengthLocal(m, m', a, limit);
      AgreeWindow(m, m', a, n);
      DecodeLocal(m[a..], m'[a..], true);
      if n % 0x100 != 0 {
        WalkLocal(m, m', a + n, end, f, limit);
      }
    }
  }

  /// The relocated copy stays what it is while the original text and the copy are not written.
  lemma {:induction false} CopiedLocal(m0: seq<Byte>, m1: seq<Byte>, m2: seq<Byte>, a: nat, b: nat, shift: int, f: Func)
    requires a <= |m0| && Copied(m0, m1, a, b, shift, f) && SameText(m1, m2, a + shift, b + shift)
    ensures Copied(m0, m2, a, b, shift, f)
    decreases b - a
  {
    hide Parse, Relocated;
    if a < b {
      var n := LengthAt(m0, a);
      AgreeWindow(m1, m2, a + shift, n);
      RelocatedLocal(m0[a..], a, m1[a + shift..], m2[a + shift..], a + shift, f);
      CopiedLocal(m0, m1, m2, a + n, b, shift, f);
    }
  }

  lemma RelocatedLocal(c: seq<Byte>, src: nat, d: seq<Byte>, e: seq<Byte>, dest: nat, f: Func)
    requires Relocated(c, src, d, dest, f) && Same(d, e, Parse(c, true).Length())
    ensures Relocated(c, src, e, dest, f)
  {
    hide Parse;
    DecodeLocal(d, e, true);
  }

  /// Reading the original from another memory with the same instruction changes nothing.
  lemma SourceLocal(c: seq<Byte>, c': seq<Byte>, src: nat, f: Func)
    requires Same(c, c', Parse(c, true).Length())
    ensures Parse(c', true) == Parse(c, true)
    ensures Classified(c', src, f) == Classified(c, src, f)
  {
    hide Parse;
    DecodeLocal(c, c', true);
  }

  lemma RelocatedSource(c: seq<Byte>, c': seq<Byte>, src: nat, d: seq<Byte>, dest: nat, f: Func)
    requires Same(c, c', Parse(c, true).Length()) && Relocated(c, src, d, dest, f)
    ensures Relocated(c', src, d, dest, f)
  {
    hide Parse;
    DecodeLocal(c, c', true);
  }

  lemma {:induction false} CopiedAppend(m0: seq<Byte>, m1: seq<Byte>, a: nat, x: nat, shift: int, f: Func)
    requires a <= x <= |m0| && Copied(m0, m1, a, x, shift, f) && 0 <= x + shift
    requires x + LengthAt(m0, x) <= |m0| && x + LengthAt(m0, x) + shift <= |m1|
    requires Relocated(m0[x..], x, m1[x + shift..], x + shift, f)
    ensures Copied(m0, m1, a, x + LengthAt(m0, x), shift, f)
    decreases x - a
  {
    hide Parse, Relocated;
    if a < x {
      CopiedAppend(m0, m1, a + LengthAt(m0, a), x, shift, f);
    } else {
      assert Copied(m0, m1, x + LengthAt(m0, x), x + LengthAt(m0, x), shift, f);
    }
  }

  // ----- what it means -----

  lemma RelocatedLength(c: seq<Byte>, src: nat, d: seq<Byte>, dest: nat, f: Func)
    requires Relocated(c, src, d, dest, f)
    ensures Parse(d, true).Length() == Parse(c, true).Length()
  {
    hide Parse;
  }

  /// The copied function, boundary by boundary: a boundary of the original is relocated and its image
  /// is a boundary of the copy, and the copy has no other boundaries.
  lemma {:induction false} CopiedBoundaries(m0: seq<Byte>, m1: seq<Byte>, a: nat, b: nat, shift: int, f: Func, x: nat)
    requires a <= x < b && 0 <= a + shift <= |m1| && a <= |m0| && Copied(m0, m1, a, b, shift, f)
    ensures x <= |m0| && 0 <= x + shift <= |m1|
    ensures Boundary(m0, a, x) <==> Boundary(m1, a + shift, x + shift)
    ensures Boundary(m0, a, x) ==> Relocated(m0[x..], x, m1[x + shift..], x + shift, f)
    decreases b - a
  {
    hide Parse, Relocated;
    var n := LengthAt(m0, a);
    RelocatedLength(m0[a..], a, m1[a + shift..], a + shift, f);
    assert LengthAt(m1, a + shift) == n;
    if a + n <= x {
      CopiedBoundaries(m0, m1, a + n, b, shift, f, x);
    }
  }

  /// The copied function by address: from every boundary, calls and jumps by rel32 and RIP-relative operands
  /// lead where they did, if that is outside the function and in reach, and else as much farther as the
  /// copy is.
  lemma CopiedByAddress(m0: seq<Byte>, m1: seq<Byte>, a: nat, b: nat, shift: int, f: Func, x: nat)
    requires a <= x < b && 0 <= a + shift <= |m1| && a <= |m0| && Copied(m0, m1, a, b, shift, f)
    requires Boundary(m0, a, x)
    ensures x <= |m0| && 0 <= x + shift <= |m1| && Boundary(m1, a + shift, x + shift)
    ensures var (c, d, l) := (m0[x..], m1[x + shift..], Parse(m0[x..], true));
      var t := (x + l.Length() + Imm1(c, l)) % 0x1_0000_0000_0000_0000;
      var u := (x + shift + l.Length() + Imm1(d, l)) % 0x1_0000_0000_0000_0000;
      l.p.vexSize == 0 && (l.o.bytes == [0xe8] || l.o.bytes == [0xe9]) ==>
        && (t < f.addr || t >= f.addr + f.size ==> (u == t <==> Reachable(x + shift, l.Length(), t)))
        && (f.addr <= t < f.addr + f.size ==> u == (t + shift) % 0x1_0000_0000_0000_0000)
    ensures var (c, d, l) := (m0[x..], m1[x + shift..], Parse(m0[x..], true));
      var t := (x + l.Length() + Disp(c, l)) % 0x1_0000_0000_0000_0000;
      var u := (x + shift + l.Length() + Disp(d, l)) % 0x1_0000_0000_0000_0000;
      l.m.size == 1 && l.m.value / 64 == 0 && l.m.value % 8 == 5 ==>
        && (t < f.addr || t >= f.addr + f.size ==> (u == t <==> Reachable(x + shift, l.Length(), t)))
        && (f.addr <= t < f.addr + f.size ==> u == (t + shift) % 0x1_0000_0000_0000_0000)
  {
    hide Parse, Relocated, Copied, Boundary, Imm1, Disp, Reachable;
    CopiedBoundaries(m0, m1, a, b, shift, f, x);
    RelocatedByAddress(m0[x..], x, m1[x + shift..], x + shift, f);
  }

  /// The extent is the least boundary at or past end.
  lemma {:induction false} ExtentLeast(m: seq<Byte>, a: nat, end: nat, x: nat)
    requires a <= |m| && a <= end <= |m| && Extent(m, a, end).Some?
    ensures var b := Extent(m, a, end).value;
      end <= b && Boundary(m, a, b) && (end <= x < b ==> !Boundary(m, a, x))
    decreases end - a
  {
    hide Parse;
    if a < end {
      var n := LengthAt(m, a);
      if a + n <= end {
        ExtentLeast(m, a + n, end, x);
      }
    }
  }

  /// The walk arrives if some boundary at or past end is reached over instructions that the decoder accepts:
  /// an instruction is rejected when its length, as an unsigned char, is zero.
  lemma {:induction false} ExtentFound(m: seq<Byte>, a: nat, end: nat, b: nat)
    requires a <= |m| && end <= b <= |m| && Boundary(m, a, b)
    requires forall x | a <= x < end && x <= |m| && Boundary(m, a, x) :: LengthAt(m, x) % 0x100 != 0
    ensures Extent(m, a, end).Some?
    decreases end - a
  {
    hide Parse, LengthAt;
    if a < end {
      assert Boundary(m, a, a);
      ExtentFound(m, a + LengthAt(m, a), end, b);
    }
  }

  /// And only then.
  lemma {:induction false} ExtentAccepted(m: seq<Byte>, a: nat, end: nat, x: nat)
    requires a <= |m| && end <= |m| && Extent(m, a, end).Some? && a <= x < end && Boundary(m, a, x)
    ensures LengthAt(m, x) % 0x100 != 0 && Extent(m, a, end).value <= |m|
    decreases end - a
  {
    hide Parse, LengthAt;
    if a < x {
      ExtentAccepted(m, a + LengthAt(m, a), end, x);
    } else {
      ExtentInside(m, a, end);
    }
  }

  lemma {:induction false} ExtentInside(m: seq<Byte>, a: nat, end: nat)
    requires a <= |m| && end <= |m| && Extent(m, a, end).Some?
    ensures Extent(m, a, end).value <= |m|
    decreases end - a
  {
    hide Parse, LengthAt;
    if a < end {
      ExtentInside(m, a + LengthAt(m, a), end);
    }
  }

  /// A text can be walked if each instruction that is reached before the end ends before the limit and is
  /// either rejected by the decoder or shorter than 256 bytes and classified.
  lemma {:induction false} WalkableText(m: seq<Byte>, a: nat, end: nat, f: Func, limit: nat)
    requires a <= |m| && end <= limit <= |m|
    requires forall x | a <= x < end && Boundary(m, a, x) ::
      var n := LengthAt(m, x);
      x + n <= limit && (n % 0x100 == 0 || (n < 0x100 && Classified(m[x..], x, f)))
    ensures Walkable(m, a, end, f, limit)
    decreases end - a
  {
    hide Parse, LengthAt, Classified;
    if a < end {
      assert Boundary(m, a, a);
      var n := LengthAt(m, a);
      if n % 0x100 != 0 {
        WalkableText(m, a + n, end, f, limit);
      }
    }
  }
}
