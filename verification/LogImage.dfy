/// Log files byte by byte: the packed structure of fruk.h, written by createiolog and read by main of
/// test/RestoreIolog.c.
module LogImage {
  import opened Wrappers
  import opened Bytes
  import opened IoLog

  function Number(s: seq<Byte>): nat
  {
    if s == [] then 0 else s[0] + 0x100 * Number(s[1..])
  }

  function Power(n: nat): nat { if n == 0 then 1 else 0x100 * Power(n - 1) }

  lemma {:induction false} NumberRoundTrip(v: nat, n: nat)
    requires v < Power(n)
    ensures Number(LittleEndian(v, n)) == v
  {
    if n > 0 {
      NumberRoundTrip(v / 0x100, n - 1);
      assert LittleEndian(v, n)[1..] == LittleEndian(v / 0x100, n - 1);
    }
  }

  lemma WordRoundTrip(v: nat)
    ensures v < 0x1_0000_0000 ==> Number(LittleEndian(v, 4)) == v
    ensures v < 0x1_0000_0000_0000_0000 ==> Number(LittleEndian(v, 8)) == v
  {
    assert Power(4) == 0x1_0000_0000 && Power(8) == 0x1_0000_0000_0000_0000;
    if v < 0x1_0000_0000 {
      NumberRoundTrip(v, 4);
    }
    if v < 0x1_0000_0000_0000_0000 {
      NumberRoundTrip(v, 8);
    }
  }

  // ----- packed structures -----

  function Packed(fields: seq<seq<Byte>>): seq<Byte>
  {
    if fields == [] then [] else fields[0] + Packed(fields[1..])
  }

  function Sum(sizes: seq<nat>): nat
  {
    if sizes == [] then 0 else sizes[0] + Sum(sizes[1..])
  }

  function Unpacked(bytes: seq<Byte>, sizes: seq<nat>): (fields: seq<seq<Byte>>)
    requires Sum(sizes) <= |bytes|
    ensures |fields| == |sizes|
    decreases |sizes|
  {
    if sizes == [] then [] else [bytes[..sizes[0]]] + Unpacked(bytes[sizes[0]..], sizes[1..])
  }

  ghost predicate Sized(fields: seq<seq<Byte>>, sizes: seq<nat>)
  {
    |fields| == |sizes| && forall i | 0 <= i < |sizes| :: |fields[i]| == sizes[i]
  }

  /// Packed fields are found again, whatever follows them.
  lemma {:induction false} UnpackPacked(fields: seq<seq<Byte>>, sizes: seq<nat>, rest: seq<Byte>)
    requires Sized(fields, sizes)
    ensures |Packed(fields)| == Sum(sizes) && Unpacked(Packed(fields) + rest, sizes) == fields
    decreases |fields|
  {
    if fields != [] {
      UnpackPacked(fields[1..], sizes[1..], rest);
      var all := Packed(fields) + rest;
      assert all == fields[0] + (Packed(fields[1..]) + rest);
      assert all[..sizes[0]] == fields[0] && all[sizes[0]..] == Packed(fields[1..]) + rest;
      assert fields == [fields[0]] + fields[1..];
    }
  }

  // ----- LOG_FILE -----

  function TypeCode(t: LogType): nat
  {
    match t
    case WriteFile => 1
    case NewFile => 4
    case DeleteFile => 5
    case Error => 10
  }

  function TypeOf(code: nat): Option<LogType>
  {
    if code == 1 then Some(WriteFile) else if code == 4 then Some(NewFile)
    else if code == 5 then Some(DeleteFile) else if code == 10 then Some(Error) else None
  }

  const HEADER_BYTES := 312
  const DATA_OFFSET := 1024

  /// ulHeaderSize, ulType, ullSeqNo, ullGolbalSeqNo, ulLogSize, bIsDir, wszFilePath, liSystemTime, and Length
  /// and ByteOffset of a write.
  const SIZES: seq<nat> := [4, 4, 8, 8, 4, 4, 260, 8, 4, 8]

  function CharBytes(s: seq<char>): (t: seq<Byte>)
    ensures |t| == |s|
  {
    seq(|s|, i requires 0 <= i < |s| => s[i] as int % 0x100)
  }

  function HeaderFields(r: LogFile): seq<seq<Byte>>
  {
    [LittleEndian(HEADER_BYTES, 4), LittleEndian(TypeCode(r.ulType), 4), LittleEndian(r.ullSeqNo, 8),
     LittleEndian(r.ullGlobalSeqNo, 8), LittleEndian(r.ulLogSize, 4), LittleEndian(if r.bIsDir then 1 else 0, 4),
     CharBytes(r.wszFilePath), LittleEndian(r.liSystemTime, 8), LittleEndian(r.length, 4), LittleEndian(r.byteOffset, 8)]
  }

  function ZeroBytes(n: nat): seq<Byte> { seq(n, _ => 0) }

  /// The memory that createiologfor* allocates and fills: the header, its reserved rest, and the data; four
  /// zero bytes stand where there is none.
  function Image(r: LogFile): seq<Byte>
  {
    Packed(HeaderFields(r)) + ZeroBytes(DATA_OFFSET - HEADER_BYTES) + if r.ulType == WriteFile then r.data else ZeroBytes(4)
  }

  /// createiolog writes ulLogSize bytes of it.
  function FileOf(r: LogFile): seq<Byte>
  {
    if r.ulLogSize <= |Image(r)| then Image(r)[..r.ulLogSize] else Image(r)
  }

  /// main reads the header, then as many bytes as it says; nothing is restored from a shorter file.
  function ReadFile(bytes: seq<Byte>): Option<LogFile>
  {
    if |bytes| < HEADER_BYTES then None
    else
      assert Sum(SIZES) == HEADER_BYTES by { SizesSum(); }
      var h := Unpacked(bytes, SIZES);
      var size, length := Number(h[4]), Number(h[8]);
      if |bytes| < size || size < DATA_OFFSET + length || TypeOf(Number(h[1])).None? then None
      else
        var p := bytes[..size];
        Some(LogFile(TypeOf(Number(h[1])).value, Number(h[5]) != 0, Number(h[2]), Number(h[3]), size,
                     Text(h[6]), Number(h[7]), length, Number(h[9]), p[DATA_OFFSET..DATA_OFFSET + length]))
  }

  lemma SizesSum()
    ensures Sum(SIZES) == HEADER_BYTES
  {
    assert Sum([4, 4, 8, 8, 4, 4, 260, 8, 4, 8]) == 4 + Sum([4, 8, 8, 4, 4, 260, 8, 4, 8]);
    assert Sum([4, 8, 8, 4, 4, 260, 8, 4, 8]) == 4 + Sum([8, 8, 4, 4, 260, 8, 4, 8]);
    assert Sum([8, 8, 4, 4, 260, 8, 4, 8]) == 8 + Sum([8, 4, 4, 260, 8, 4, 8]);
    assert Sum([8, 4, 4, 260, 8, 4, 8]) == 8 + Sum([4, 4, 260, 8, 4, 8]);
    assert Sum([4, 4, 260, 8, 4, 8]) == 4 + Sum([4, 260, 8, 4, 8]);
    assert Sum([4, 260, 8, 4, 8]) == 4 + Sum([260, 8, 4, 8]);
    assert Sum([260, 8, 4, 8]) == 260 + Sum([8, 4, 8]);
    assert Sum([8, 4, 8]) == 8 + Sum([4, 8]);
    assert Sum([4, 8]) == 4 + Sum([8]);
  }

  /// The numbers fit their fields and the path consists of bytes.
  ghost predicate Storable(stamp: Stamp, abspath: string, pos: nat, data: seq<Byte>)
  {
    && stamp.seqNo < 0x1_0000_0000_0000_0000 && stamp.globalSeqNo < 0x1_0000_0000_0000_0000
    && stamp.time < 0x1_0000_0000_0000_0000 && pos < 0x1_0000_0000_0000_0000
    && DATA_OFFSET + |data| < 0x1_0000_0000 && forall ch | ch in abspath :: ch as int < 0x100
  }

  lemma PathRoundTrip(abspath: string)
    requires forall ch | ch in abspath :: ch as int < 0x100
    ensures Text(CharBytes(PathField(abspath))) == PathField(abspath)
  {
    forall i | 0 <= i < PATH_FIELD
      ensures PathField(abspath)[i] as int < 0x100
    {
      assert i < |abspath| ==> abspath[i] in abspath;
    }
  }

  /// Every record that a hook makes is written whole and read back as it was: its size is the size of its
  /// bytes, no data is cut off, and all numbers return.
  lemma RecordRoundTrip(ulType: LogType, bIsDir: bool, stamp: Stamp, abspath: string, pos: nat, data: seq<Byte>)
    requires Storable(stamp, abspath, pos, data) && (ulType != WriteFile ==> pos == 0 && data == [])
    ensures var r := Filled(ulType, bIsDir, stamp, abspath, pos, data);
      && |Image(r)| == (if ulType == WriteFile then 1024 + |data| else 1028) == r.ulLogSize
      && FileOf(r) == Image(r)
      && ReadFile(FileOf(r)) == Some(r)
      && r.ullSeqNo == stamp.seqNo && r.ullGlobalSeqNo == stamp.globalSeqNo && r.liSystemTime == stamp.time && r.data == data
  {
    hide LittleEndian, Number, Packed, Unpacked, Sum, PathField;
    var r := Filled(ulType, bIsDir, stamp, abspath, pos, data);
    var fields := HeaderFields(r);
    var tail := ZeroBytes(DATA_OFFSET - HEADER_BYTES) + if r.ulType == WriteFile then r.data else ZeroBytes(4);
    SizesSum();
    UnpackPacked(fields, SIZES, tail);
    assert Image(r) == Packed(fields) + tail;
    assert FileOf(r) == Image(r);
    HeaderNumbers(r);
    PathRoundTrip(abspath);
    assert Image(r)[DATA_OFFSET..DATA_OFFSET + |data|] == data;
  }

  lemma HeaderNumbers(r: LogFile)
    requires r.ullSeqNo < 0x1_0000_0000_0000_0000 && r.ullGlobalSeqNo < 0x1_0000_0000_0000_0000
    requires r.liSystemTime < 0x1_0000_0000_0000_0000 && r.byteOffset < 0x1_0000_0000_0000_0000
    requires r.ulLogSize < 0x1_0000_0000 && r.length < 0x1_0000_0000
    ensures var h := HeaderFields(r);
      && TypeOf(Number(h[1])) == Some(r.ulType) && Number(h[2]) == r.ullSeqNo && Number(h[3]) == r.ullGlobalSeqNo
      && Number(h[4]) == r.ulLogSize && (Number(h[5]) != 0 <==> r.bIsDir) && Number(h[7]) == r.liSystemTime
      && Number(h[8]) == r.length && Number(h[9]) == r.byteOffset
  {
    hide LittleEndian, Number;
    WordRoundTrip(TypeCode(r.ulType));
    WordRoundTrip(r.ullSeqNo);
    WordRoundTrip(r.ullGlobalSeqNo);
    WordRoundTrip(r.ulLogSize);
    WordRoundTrip(if r.bIsDir then 1 else 0);
    WordRoundTrip(r.liSystemTime);
    WordRoundTrip(r.length);
    WordRoundTrip(r.byteOffset);
  }

  /// Of a file that is not complete nothing is restored.
  lemma PartialFile(ulType: LogType, bIsDir: bool, stamp: Stamp, abspath: string, pos: nat, data: seq<Byte>, part: seq<Byte>)
    requires Storable(stamp, abspath, pos, data) && (ulType != WriteFile ==> pos == 0 && data == [])
    requires part <= FileOf(Filled(ulType, bIsDir, stamp, abspath, pos, data))
    requires part != FileOf(Filled(ulType, bIsDir, stamp, abspath, pos, data))
    ensures ReadFile(part) == None
  {
    hide LittleEndian, Number, Packed, Unpacked, Sum, PathField;
    var r := Filled(ulType, bIsDir, stamp, abspath, pos, data);
    RecordRoundTrip(ulType, bIsDir, stamp, abspath, pos, data);
    HeaderNumbers(r);
    SizesSum();
    if |part| >= HEADER_BYTES {
      var header := Packed(HeaderFields(r));
      UnpackPacked(HeaderFields(r), SIZES, []);
      UnpackPacked(HeaderFields(r), SIZES, part[HEADER_BYTES..]);
      assert part[..HEADER_BYTES] == FileOf(r)[..HEADER_BYTES] == header;
      assert part == header + part[HEADER_BYTES..];
    }
  }
}
