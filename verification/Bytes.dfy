/// Failure-free option type shared by the modules.
module Wrappers {
  datatype Option<+T> = None | Some(value: T)
}

/// Bytes, little-endian fields and the 64-bit address arithmetic of hijacks.c.
module Bytes {
  type Byte = x: int | 0 <= x < 256

  const TWO_8: int := 0x100
  const TWO_16: int := 0x1_0000
  const TWO_32: int := 0x1_0000_0000
  const TWO_64: int := 0x1_0000_0000_0000_0000

  /// The byte at an offset of a window of memory; a window reads as zero past its end.
  function At(c: seq<Byte>, i: nat): Byte
  {
    if i < |c| then c[i] else 0
  }

  /// Reads of *(char*), *(short*), *(unsigned short*), *(unsigned int*) and *(int*).
  function S8(c: seq<Byte>, i: nat): int
  {
    Signed(At(c, i), TWO_8)
  }

  function U16(c: seq<Byte>, i: nat): (r: nat)
    ensures r < TWO_16
  {
    At(c, i) + 0x100 * At(c, i + 1)
  }

  function S16(c: seq<Byte>, i: nat): int
  {
    Signed(U16(c, i), TWO_16)
  }

  function U32(c: seq<Byte>, i: nat): (r: nat)
    ensures r < TWO_32
  {
    At(c, i) + 0x100 * At(c, i + 1) + 0x1_0000 * At(c, i + 2) + 0x100_0000 * At(c, i + 3)
  }

  function S32(c: seq<Byte>, i: nat): int
  {
    Signed(U32(c, i), TWO_32)
  }

  /// The two's complement reading of u modulo m.
  function Signed(u: int, m: int): int
    requires m > 0
  {
    if 2 * (u % m) < m then u % m else u % m - m
  }

  predicate FitsS32(d: int)
  {
    -0x8000_0000 <= d < 0x8000_0000
  }

  /// The bytes a store of the u32 value v writes.
  function Le32(v: nat): (s: seq<Byte>)
    requires v < TWO_32
    ensures |s| == 4
  {
    [v % 0x100, v / 0x100 % 0x100, v / 0x1_0000 % 0x100, v / 0x100_0000]
  }

  /// Reading back a stored word gives the word.
  lemma Le32RoundTrip(v: nat, c: seq<Byte>, i: nat)
    requires v < TWO_32 && i + 4 <= |c| && c[i..i + 4] == Le32(v)
    ensures U32(c, i) == v
  {
    var s := c[i..i + 4];
    assert s[0] == c[i] && s[1] == c[i + 1] && s[2] == c[i + 2] && s[3] == c[i + 3];
    var a, b := v / 0x100, v / 0x1_0000;
    assert v == v % 0x100 + 0x100 * a;
    assert a == a % 0x100 + 0x100 * (a / 0x100);
    assert b == a / 0x100;
    assert b == b % 0x100 + 0x100 * (v / 0x100_0000);
  }

  /// Reading a word of one size modulo a divisor of it.
  lemma SignedModulo(d: int)
    ensures Signed(d, TWO_64) % TWO_32 == d % TWO_32
  {
    var q := d / 0x1_0000_0000_0000_0000 + if 2 * (d % 0x1_0000_0000_0000_0000) < 0x1_0000_0000_0000_0000 then 0 else 1;
    var s := Signed(d, TWO_64);
    assert d == s + 0x1_0000_0000 * (0x1_0000_0000 * q);
    AddMultiple(s, 0x1_0000_0000 * q);
  }

  lemma AddMultiple(s: int, k: int)
    ensures (s + 0x1_0000_0000 * k) % 0x1_0000_0000 == s % 0x1_0000_0000
  {}

  lemma SignedSmall(s: int)
    requires -0x8000_0000_0000_0000 <= s < 0x8000_0000_0000_0000
    ensures Signed(s % TWO_32, TWO_32) == s <==> FitsS32(s)
  {}

  /// A 64-bit difference survives being cut to 32 bits and sign-extended exactly when it fits.
  lemma Sext32(d: int)
    ensures Signed(d % TWO_32, TWO_32) == Signed(d, TWO_64) <==> FitsS32(Signed(d, TWO_64))
  {
    SignedModulo(d);
    SignedSmall(Signed(d, TWO_64));
  }
}
