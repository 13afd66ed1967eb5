/**
  The stored ZIP archive of src/integrations/php-integration-package.ts and a reader for it by
  the end record, the central directory and the local offsets (APPNOTE.TXT sections 4.3.16,
  4.3.12 and 4.3.7). Bytes are numbers below 256; a name is its UTF-8 bytes.
 */
module StoredZip {
  import opened Prelude
  import opened ArchiveLayout

  datatype Entry = Entry(name: Bytes, data: Bytes)

  /** An entry with the checksum recorded for it. */
  datatype Stored = Stored(name: Bytes, data: Bytes, checksum: nat)

  // ---------------------------------------------------------------------------
  // Records of little-endian fields

  datatype Width = U16 | U32

  function Size(w: Width): nat { if w.U16? then 2 else 4 }

  function Bound(size: nat): (r: nat)
    ensures r > 0
  {
    if size == 0 then 1 else 0x100 * Bound(size - 1)
  }

  function Le(value: nat, size: nat): (b: Bytes)
    ensures |b| == size
    decreases size
  {
    if size == 0 then [] else [value % 0x100] + Le(value / 0x100, size - 1)
  }

  function ReadLe(b: Bytes): nat {
    if b == [] then 0 else b[0] + 0x100 * ReadLe(b[1..])
  }

  lemma {:induction false} LeReads(value: nat, size: nat)
    requires value < Bound(size)
    ensures ReadLe(Le(value, size)) == value
    decreases size
  {
    if size > 0 {
      LeReads(value / 0x100, size - 1);
      assert Le(value, size)[1..] == Le(value / 0x100, size - 1);
    }
  }

  function Total(widths: seq<Width>): nat {
    if widths == [] then 0 else Size(widths[0]) + Total(widths[1..])
  }

  function Serialize(widths: seq<Width>, values: seq<nat>): (b: Bytes)
    requires |values| == |widths|
    ensures |b| == Total(widths)
  {
    if widths == [] then [] else Le(values[0], Size(widths[0])) + Serialize(widths[1..], values[1..])
  }

  function Parse(widths: seq<Width>, b: Bytes): (values: seq<nat>)
    requires |b| == Total(widths)
    ensures |values| == |widths|
  {
    if widths == [] then [] else
    var size := Size(widths[0]);
    [ReadLe(b[..size])] + Parse(widths[1..], b[size..])
  }

  ghost predicate Fits(widths: seq<Width>, values: seq<nat>) {
    |values| == |widths| && forall i | 0 <= i < |widths| :: values[i] < Bound(Size(widths[i]))
  }

  /** Fields that fit their width read back as they were written. */
  lemma {:induction false} RecordRoundTrip(widths: seq<Width>, values: seq<nat>)
    requires Fits(widths, values)
    ensures Parse(widths, Serialize(widths, values)) == values
    decreases |widths|
  {
    if widths != [] {
      var first, b := Le(values[0], Size(widths[0])), Serialize(widths, values);
      assert b[..Size(widths[0])] == first && b[Size(widths[0])..] == Serialize(widths[1..], values[1..]);
      LeReads(values[0], Size(widths[0]));
      RecordRoundTrip(widths[1..], values[1..]);
      assert values == [values[0]] + values[1..];
    }
  }

  lemma {:induction false} SerializeSnoc(widths: seq<Width>, values: seq<nat>, w: Width, value: nat)
    requires |values| == |widths|
    ensures Serialize(widths + [w], values + [value]) == Serialize(widths, values) + Le(value, Size(w))
    decreases |widths|
  {
    if widths == [] {
      assert [w][1..] == [] && [value][1..] == [];
    } else {
      assert (widths + [w])[1..] == widths[1..] + [w] && (values + [value])[1..] == values[1..] + [value];
      SerializeSnoc(widths[1..], values[1..], w, value);
    }
  }

  method WriteUInt16LE(buffer: array<nat>, value: nat, at: nat, ghost widths: seq<Width>, ghost values: seq<nat>, ghost k: nat)
    requires value <= 0xffff && at + 2 <= buffer.Length
    requires |values| == |widths| > k && widths[k] == U16 && values[k] == value
    requires buffer[..at] == Serialize(widths[..k], values[..k])
    modifies buffer
    ensures buffer[..at + 2] == Serialize(widths[..k + 1], values[..k + 1])
  {
    assert widths[..k + 1] == widths[..k] + [U16] && values[..k + 1] == values[..k] + [value];
    SerializeSnoc(widths[..k], values[..k], U16, value);
    TwoBytes(value);
    buffer[at] := value % 0x100;
    buffer[at + 1] := value / 0x100;
    assert buffer[..at + 2] == old(buffer[..at]) + [value % 0x100, value / 0x100];
  }

  lemma TwoBytes(value: nat)
    requires value <= 0xffff
    ensures Le(value, Size(U16)) == [value % 0x100, value / 0x100]
    ensures value < Bound(Size(U16))
  {
  }

  lemma FourBytes(value: nat)
    requires value <= 0xffff_ffff
    ensures Le(value, Size(U32)) == [value % 0x100, value / 0x100 % 0x100, value / 0x100 / 0x100 % 0x100, value / 0x100 / 0x100 / 0x100]
    ensures value < Bound(Size(U32))
  {
  }

  method WriteUInt32LE(buffer: array<nat>, value: nat, at: nat, ghost widths: seq<Width>, ghost values: seq<nat>, ghost k: nat)
    requires value <= 0xffff_ffff && at + 4 <= buffer.Length
    requires |values| == |widths| > k && widths[k] == U32 && values[k] == value
    requires buffer[..at] == Serialize(widths[..k], values[..k])
    modifies buffer
    ensures buffer[..at + 4] == Serialize(widths[..k + 1], values[..k + 1])
  {
    assert widths[..k + 1] == widths[..k] + [U32] && values[..k + 1] == values[..k] + [value];
    SerializeSnoc(widths[..k], values[..k], U32, value);
    FourBytes(value);
    buffer[at] := value % 0x100;
    buffer[at + 1] := value / 0x100 % 0x100;
    buffer[at + 2] := value / 0x100 / 0x100 % 0x100;
    buffer[at + 3] := value / 0x100 / 0x100 / 0x100;
    assert buffer[..at + 4] == old(buffer[..at]) + Le(value, Size(U32));
  }

  // ---------------------------------------------------------------------------
  // The three records

  const LOCAL_SIGNATURE := 0x04034b50
  const CENTRAL_SIGNATURE := 0x02014b50
  const END_SIGNATURE := 0x06054b50

  /** Signature, version, flags, method, time, date, CRC, both sizes, name and extra lengths. */
  function LocalWidths(): seq<Width> {
    [U32, U16, U16, U16, U16, U16, U32, U32, U32, U16, U16]
  }

  function LocalValues(checksum: nat, size: nat, nameLength: nat): seq<nat> {
    [LOCAL_SIGNATURE, 20, 0x800, 0, 0, 0x21, checksum, size, size, nameLength, 0]
  }

  /** As the local header, with two versions, then comment length, disk, attributes and local offset. */
  function CentralWidths(): seq<Width> {
    [U32, U16, U16, U16, U16, U16, U16, U32, U32, U32, U16, U16, U16, U16, U16, U32, U32]
  }

  function CentralValues(checksum: nat, size: nat, nameLength: nat, offset: nat): seq<nat> {
    [CENTRAL_SIGNATURE, 20, 20, 0x800, 0, 0, 0x21, checksum, size, size, nameLength, 0, 0, 0, 0, 0, offset]
  }

  /** Signature, two disk numbers, two counts, directory size and offset, comment length. */
  function EndWidths(): seq<Width> {
    [U32, U16, U16, U16, U16, U32, U32, U16]
  }

  function EndValues(count: nat, centralSize: nat, centralOffset: nat): seq<nat> {
    [END_SIGNATURE, 0, 0, count, count, centralSize, centralOffset, 0]
  }

  lemma {:induction false} TotalAppend(a: seq<Width>, b: seq<Width>)
    ensures Total(a + b) == Total(a) + Total(b)
  {
    if a == [] {
      assert a + b == b;
    } else {
      assert (a + b)[1..] == a[1..] + b;
      TotalAppend(a[1..], b);
    }
  }

  lemma TakeAll<T>(s: seq<T>)
    ensures s[..|s|] == s
  {
  }

  lemma TotalOfFour(a: Width, b: Width, c: Width, d: Width)
    ensures Total([a, b, c, d]) == Size(a) + Size(b) + Size(c) + Size(d)
  {
    assert [a, b, c, d][1..] == [b, c, d];
    assert [b, c, d][1..] == [c, d];
    assert [c, d][1..] == [d];
    assert [d][1..] == [];
    assert Total([d]) == Size(d);
    assert Total([c, d]) == Size(c) + Total([d]);
    assert Total([b, c, d]) == Size(b) + Total([c, d]);
  }

  lemma TotalOfEight(w: seq<Width>)
    requires |w| == 8
    ensures Total(w) == Size(w[0]) + Size(w[1]) + Size(w[2]) + Size(w[3]) + Size(w[4]) + Size(w[5]) + Size(w[6]) + Size(w[7])
  {
    TotalOfFour(w[0], w[1], w[2], w[3]);
    TotalOfFour(w[4], w[5], w[6], w[7]);
    assert w == [w[0], w[1], w[2], w[3]] + [w[4], w[5], w[6], w[7]];
    TotalAppend([w[0], w[1], w[2], w[3]], [w[4], w[5], w[6], w[7]]);
  }

  /** The record lengths of the format: 30, 46 and 22 bytes. */
  lemma LocalTotal()
    ensures Total(LocalWidths()) == 30
  {
    var w, rest := LocalWidths(), [U32, U16, U16];
    TotalOfEight(w[..8]);
    assert w == w[..8] + rest;
    TotalAppend(w[..8], rest);
    assert rest[1..] == [U16, U16] && rest[1..][1..] == [U16] && rest[1..][1..][1..] == [];
  }

  lemma TotalOfSeventeen(a: seq<Width>, b: seq<Width>, w: Width)
    requires |a| == |b| == 8
    ensures Total(a + (b + [w])) == Total(a) + Total(b) + Size(w)
  {
    TotalAppend(b, [w]);
    TotalAppend(a, b + [w]);
    assert [w][1..] == [];
  }

  lemma CentralTotal()
    ensures Total(CentralWidths()) == 46
  {
    var w := CentralWidths();
    assert |w| == 17;
    var first, second := w[..8], w[8..16];
    assert w == first + (second + [w[16]]);
    TotalOfEight(first);
    TotalOfEight(second);
    TotalOfSeventeen(first, second, w[16]);
  }

  lemma EndTotal()
    ensures Total(EndWidths()) == 22
  {
    TotalOfEight(EndWidths());
  }

  method WriteLocalFields(local: array<nat>, checksum: nat, size: nat, nameLength: nat, ghost w: seq<Width>, ghost v: seq<nat>)
    requires local.Length == 30 && checksum <= 0xffff_ffff && size <= 0xffff_ffff && nameLength <= 0xffff
    requires |w| == |v| == 11
    requires w[0] == U32 && w[1] == U16 && w[2] == U16 && w[3] == U16 && w[4] == U16 && w[5] == U16
    requires w[6] == U32 && w[7] == U32 && w[8] == U32 && w[9] == U16 && w[10] == U16
    requires v[0] == 0x04034b50 && v[1] == 20 && v[2] == 0x800 && v[3] == 0 && v[4] == 0 && v[5] == 0x21
    requires v[6] == checksum && v[7] == size && v[8] == size && v[9] == nameLength && v[10] == 0
    modifies local
    ensures local[..30] == Serialize(w[..11], v[..11])
  {
    WriteUInt32LE(local, 0x04034b50, 0, w, v, 0);
    WriteUInt16LE(local, 20, 4, w, v, 1);
    WriteUInt16LE(local, 0x800, 6, w, v, 2);
    WriteUInt16LE(local, 0, 8, w, v, 3);
    WriteUInt16LE(local, 0, 10, w, v, 4);
    WriteUInt16LE(local, 0x21, 12, w, v, 5);
    WriteUInt32LE(local, checksum, 14, w, v, 6);
    WriteUInt32LE(local, size, 18, w, v, 7);
    WriteUInt32LE(local, size, 22, w, v, 8);
    WriteUInt16LE(local, nameLength, 26, w, v, 9);
    WriteUInt16LE(local, 0, 28, w, v, 10);
  }

  method MakeLocalHeader(checksum: nat, size: nat, nameLength: nat) returns (header: Bytes)
    requires checksum <= 0xffff_ffff && size <= 0xffff_ffff && nameLength <= 0xffff
    ensures header == Serialize(LocalWidths(), LocalValues(checksum, size, nameLength))
  {
    ghost var w, v := LocalWidths(), LocalValues(checksum, size, nameLength);
    var local := new nat[30](_ => 0);
    WriteLocalFields(local, checksum, size, nameLength, w, v);
    TakeAll(w);
    TakeAll(v);
    header := local[..];
  }

  method WriteCentralFields(central: array<nat>, checksum: nat, size: nat, nameLength: nat, offset: nat,
                            ghost w: seq<Width>, ghost v: seq<nat>)
    requires central.Length == 46 && checksum <= 0xffff_ffff && size <= 0xffff_ffff && nameLength <= 0xffff
    requires offset <= 0xffff_ffff && |w| == |v| == 17
    requires w[0] == U32 && w[1] == U16 && w[2] == U16 && w[3] == U16 && w[4] == U16 && w[5] == U16 && w[6] == U16
    requires w[7] == U32 && w[8] == U32 && w[9] == U32 && w[10] == U16 && w[11] == U16 && w[12] == U16 && w[13] == U16
    requires w[14] == U16 && w[15] == U32 && w[16] == U32
    requires v[0] == 0x02014b50 && v[1] == 20 && v[2] == 20 && v[3] == 0x800 && v[4] == 0 && v[5] == 0 && v[6] == 0x21
    requires v[7] == checksum && v[8] == size && v[9] == size && v[10] == nameLength && v[11] == 0 && v[12] == 0
    requires v[13] == 0 && v[14] == 0 && v[15] == 0 && v[16] == offset
    modifies central
    ensures central[..46] == Serialize(w[..17], v[..17])
  {
    WriteUInt32LE(central, 0x02014b50, 0, w, v, 0);
    WriteUInt16LE(central, 20, 4, w, v, 1);
    WriteUInt16LE(central, 20, 6, w, v, 2);
    WriteUInt16LE(central, 0x800, 8, w, v, 3);
    WriteUInt16LE(central, 0, 10, w, v, 4);
    WriteUInt16LE(central, 0, 12, w, v, 5);
    WriteUInt16LE(central, 0x21, 14, w, v, 6);
    WriteUInt32LE(central, checksum, 16, w, v, 7);
    WriteUInt32LE(central, size, 20, w, v, 8);
    WriteUInt32LE(central, size, 24, w, v, 9);
    WriteUInt16LE(central, nameLength, 28, w, v, 10);
    WriteUInt16LE(central, 0, 30, w, v, 11);
    WriteUInt16LE(central, 0, 32, w, v, 12);
    WriteUInt16LE(central, 0, 34, w, v, 13);
    WriteUInt16LE(central, 0, 36, w, v, 14);
    WriteUInt32LE(central, 0, 38, w, v, 15);
    WriteUInt32LE(central, offset, 42, w, v, 16);
  }

  method MakeCentralHeader(checksum: nat, size: nat, nameLength: nat, offset: nat) returns (header: Bytes)
    requires checksum <= 0xffff_ffff && size <= 0xffff_ffff && nameLength <= 0xffff && offset <= 0xffff_ffff
    ensures header == Serialize(CentralWidths(), CentralValues(checksum, size, nameLength, offset))
  {
    ghost var w, v := CentralWidths(), CentralValues(checksum, size, nameLength, offset);
    var central := new nat[46](_ => 0);
    WriteCentralFields(central, checksum, size, nameLength, offset, w, v);
    TakeAll(w);
    TakeAll(v);
    header := central[..];
  }

  method WriteEndFields(end: array<nat>, count: nat, centralSize: nat, centralOffset: nat, ghost w: seq<Width>, ghost v: seq<nat>)
    requires end.Length == 22 && count <= 0xffff && centralSize <= 0xffff_ffff && centralOffset <= 0xffff_ffff
    requires |w| == |v| == 8
    requires w[0] == U32 && w[1] == U16 && w[2] == U16 && w[3] == U16 && w[4] == U16 && w[5] == U32 && w[6] == U32 && w[7] == U16
    requires v[0] == 0x06054b50 && v[1] == 0 && v[2] == 0 && v[3] == count && v[4] == count
    requires v[5] == centralSize && v[6] == centralOffset && v[7] == 0
    modifies end
    ensures end[..22] == Serialize(w[..8], v[..8])
  {
    WriteUInt32LE(end, 0x06054b50, 0, w, v, 0);
    WriteUInt16LE(end, 0, 4, w, v, 1);
    WriteUInt16LE(end, 0, 6, w, v, 2);
    WriteUInt16LE(end, count, 8, w, v, 3);
    WriteUInt16LE(end, count, 10, w, v, 4);
    WriteUInt32LE(end, centralSize, 12, w, v, 5);
    WriteUInt32LE(end, centralOffset, 16, w, v, 6);
    WriteUInt16LE(end, 0, 20, w, v, 7);
  }

  method MakeEndRecord(count: nat, centralSize: nat, centralOffset: nat) returns (record: Bytes)
    requires count <= 0xffff && centralSize <= 0xffff_ffff && centralOffset <= 0xffff_ffff
    ensures record == Serialize(EndWidths(), EndValues(count, centralSize, centralOffset))
  {
    ghost var w, v := EndWidths(), EndValues(count, centralSize, centralOffset);
    var end := new nat[22](_ => 0);
    WriteEndFields(end, count, centralSize, centralOffset, w, v);
    TakeAll(w);
    TakeAll(v);
    record := end[..];
  }

  // ---------------------------------------------------------------------------
  // The archive

  function LocalRecord(s: Stored): Bytes {
    Serialize(LocalWidths(), LocalValues(s.checksum, |s.data|, |s.name|)) + s.name + s.data
  }

  function CentralRecord(s: Stored, offset: nat): Bytes {
    Serialize(CentralWidths(), CentralValues(s.checksum, |s.data|, |s.name|, offset)) + s.name
  }

  function LocalData(stored: seq<Stored>): Bytes { ArchiveLayout.Locals(LocalRecord, stored) }

  function CentralData(stored: seq<Stored>): Bytes { ArchiveLayout.Centrals(LocalRecord, CentralRecord, stored) }

  function EndRecord(stored: seq<Stored>): Bytes {
    Serialize(EndWidths(), EndValues(|stored|, |CentralData(stored)|, |LocalData(stored)|))
  }

  function Archive(stored: seq<Stored>): Bytes {
    LocalData(stored) + CentralData(stored) + EndRecord(stored)
  }

  /** Every length, count and offset is within its field. */
  ghost predicate WithinFields(stored: seq<Stored>) {
    && (forall i | 0 <= i < |stored| :: FieldsFit(stored[i]))
    && |stored| <= 0xffff && |LocalData(stored)| <= 0xffff_ffff && |CentralData(stored)| <= 0xffff_ffff
  }

  // ---------------------------------------------------------------------------
  // Reading by end record, directory and offsets

  function LocalFields(b: Bytes): (h: seq<nat>)
    requires |b| == 30
    ensures |h| == 11
  {
    LocalTotal();
    Parse(LocalWidths(), b)
  }

  function CentralFields(b: Bytes): (h: seq<nat>)
    requires |b| == 46
    ensures |h| == 17
  {
    CentralTotal();
    Parse(CentralWidths(), b)
  }

  function EndFields(b: Bytes): (h: seq<nat>)
    requires |b| == 22
    ensures |h| == 8
  {
    EndTotal();
    Parse(EndWidths(), b)
  }

  function ReadLocal(a: Bytes, at: nat, name: Bytes, size: nat, checksum: nat): Option<Bytes> {
    if at + 30 > |a| then None else
    var h := LocalFields(a[at..at + 30]);
    var start := at + 30 + h[9] + h[10];
    if h[0] != LOCAL_SIGNATURE || h[3] != 0 || h[6] != checksum || h[8] != size || h[9] != |name| then None
    else if start + size > |a| || a[at + 30..at + 30 + |name|] != name then None
    else Some(a[start..start + size])
  }

  datatype CentralEntry = CentralEntry(name: Bytes, size: nat, checksum: nat, offset: nat, next: nat)

  function ReadCentral(a: Bytes, at: nat): Option<CentralEntry> {
    if at + 46 > |a| then None else
    var h := CentralFields(a[at..at + 46]);
    if h[0] != CENTRAL_SIGNATURE || h[4] != 0 || h[8] != h[9] || at + 46 + h[10] > |a| then None
    else Some(CentralEntry(a[at + 46..at + 46 + h[10]], h[9], h[7], h[16], at + 46 + h[10] + h[11] + h[12]))
  }

  function ReadEntry(a: Bytes, c: CentralEntry): Option<Stored> {
    var data := ReadLocal(a, c.offset, c.name, c.size, c.checksum);
    if data.None? then None else Some(Stored(c.name, data.value, c.checksum))
  }

  function ReadDirectory(a: Bytes, at: nat, count: nat): Option<seq<Stored>>
    decreases count
  {
    if count == 0 then Some([]) else
    var c := ReadCentral(a, at);
    if c.None? then None else
    var first := ReadEntry(a, c.value);
    var rest := ReadDirectory(a, c.value.next, count - 1);
    if first.None? || rest.None? then None else Some([first.value] + rest.value)
  }

  /** The end record of an archive without a comment is its last 22 bytes. */
  function ReadArchive(a: Bytes): Option<seq<Stored>> {
    if |a| < 22 then None else
    var h := EndFields(a[|a| - 22..]);
    if h[0] != END_SIGNATURE || h[3] != h[4] || h[6] + h[5] + 22 != |a| || h[7] != 0 then None
    else ReadDirectory(a, h[6], h[3])
  }

  // ---------------------------------------------------------------------------
  // Reading them back

  lemma Bounds()
    ensures Bound(2) == 0x1_0000 && Bound(4) == 0x1_0000_0000
  {
  }

  lemma LocalHeaderReads(checksum: nat, size: nat, nameLength: nat)
    requires checksum <= 0xffff_ffff && size <= 0xffff_ffff && nameLength <= 0xffff
    ensures Parse(LocalWidths(), Serialize(LocalWidths(), LocalValues(checksum, size, nameLength))) ==
            LocalValues(checksum, size, nameLength)
  {
    Bounds();
    RecordRoundTrip(LocalWidths(), LocalValues(checksum, size, nameLength));
  }

  lemma CentralHeaderReads(checksum: nat, size: nat, nameLength: nat, offset: nat)
    requires checksum <= 0xffff_ffff && size <= 0xffff_ffff && nameLength <= 0xffff && offset <= 0xffff_ffff
    ensures Parse(CentralWidths(), Serialize(CentralWidths(), CentralValues(checksum, size, nameLength, offset))) ==
            CentralValues(checksum, size, nameLength, offset)
  {
    Bounds();
    RecordRoundTrip(CentralWidths(), CentralValues(checksum, size, nameLength, offset));
  }

  lemma EndRecordReads(count: nat, centralSize: nat, centralOffset: nat)
    requires count <= 0xffff && centralSize <= 0xffff_ffff && centralOffset <= 0xffff_ffff
    ensures Parse(EndWidths(), Serialize(EndWidths(), EndValues(count, centralSize, centralOffset))) ==
            EndValues(count, centralSize, centralOffset)
  {
    Bounds();
    RecordRoundTrip(EndWidths(), EndValues(count, centralSize, centralOffset));
  }

  lemma SubSlice(a: Bytes, at: nat, length: nat, i: nat, j: nat)
    requires at + length <= |a| && i <= j <= length
    ensures a[at..at + length][i..j] == a[at + i..at + j]
  {
    var cut, short := a[at..at + length][i..j], a[at + i..at + j];
    assert |cut| == |short| && forall k | 0 <= k < |cut| :: cut[k] == short[k];
  }

  lemma Parts3(a: Bytes, at: nat, x: Bytes, y: Bytes, z: Bytes)
    requires At(a, at, x + y + z)
    ensures a[at..at + |x|] == x && a[at + |x|..at + |x| + |y|] == y
    ensures a[at + |x| + |y|..at + |x| + |y| + |z|] == z
  {
    var part := x + y + z;
    SubSlice(a, at, |part|, 0, |x|);
    SubSlice(a, at, |part|, |x|, |x| + |y|);
    SubSlice(a, at, |part|, |x| + |y|, |part|);
    assert part[..|x|] == x && part[|x|..|x| + |y|] == y && part[|x| + |y|..] == z;
  }

  lemma Parts2(a: Bytes, at: nat, x: Bytes, y: Bytes)
    requires At(a, at, x + y)
    ensures a[at..at + |x|] == x && a[at + |x|..at + |x| + |y|] == y
  {
    assert x + y == x + y + [];
    Parts3(a, at, x, y, []);
  }

  ghost predicate CentralFieldsAre(v: seq<nat>, checksum: nat, size: nat, nameLength: nat, offset: nat) {
    && |v| == 17 && v[0] == CENTRAL_SIGNATURE && v[4] == 0 && v[7] == checksum && v[8] == size && v[9] == size
    && v[10] == nameLength && v[11] == 0 && v[12] == 0 && v[16] == offset
  }

  lemma CentralEntryIs(a: Bytes, at: nat, name: Bytes, checksum: nat, size: nat, offset: nat)
    requires at + 46 + |name| <= |a| && a[at + 46..at + 46 + |name|] == name
    requires CentralFieldsAre(CentralFields(a[at..at + 46]), checksum, size, |name|, offset)
    ensures ReadCentral(a, at) == Some(CentralEntry(name, size, checksum, offset, at + 46 + |name|))
  {
  }

  lemma CentralHeaderFields(h: Bytes, checksum: nat, size: nat, nameLength: nat, offset: nat)
    requires checksum <= 0xffff_ffff && size <= 0xffff_ffff && nameLength <= 0xffff && offset <= 0xffff_ffff
    requires h == Serialize(CentralWidths(), CentralValues(checksum, size, nameLength, offset))
    ensures |h| == 46 && CentralFieldsAre(CentralFields(h), checksum, size, nameLength, offset)
  {
    CentralTotal();
    CentralHeaderReads(checksum, size, nameLength, offset);
    CentralValuesAt(checksum, size, nameLength, offset);
  }

  lemma CentralValuesAt(checksum: nat, size: nat, nameLength: nat, offset: nat)
    ensures CentralFieldsAre(CentralValues(checksum, size, nameLength, offset), checksum, size, nameLength, offset)
  {
  }

  // A record, whatever it is made of, that reads as its entry.

  ghost predicate FieldsFit(s: Stored) { s.checksum <= 0xffff_ffff && |s.data| <= 0xffff_ffff && |s.name| <= 0xffff }

  ghost predicate ReadsAsCentral(r: Bytes, s: Stored, offset: nat) {
    exists h: Bytes :: CentralHeaderOf(h, r, s, offset)
  }

  ghost predicate CentralHeaderOf(h: Bytes, r: Bytes, s: Stored, offset: nat) {
    r == h + s.name && |h| == 46 && CentralFieldsAre(CentralFields(h), s.checksum, |s.data|, |s.name|, offset)
  }

  ghost predicate LocalFieldsAre(v: seq<nat>, checksum: nat, size: nat, nameLength: nat) {
    && |v| == 11 && v[0] == LOCAL_SIGNATURE && v[3] == 0 && v[6] == checksum && v[8] == size
    && v[9] == nameLength && v[10] == 0
  }

  ghost predicate ReadsAsLocal(r: Bytes, s: Stored) {
    exists h: Bytes :: LocalHeaderOf(h, r, s)
  }

  ghost predicate LocalHeaderOf(h: Bytes, r: Bytes, s: Stored) {
    r == h + s.name + s.data && |h| == 30 && LocalFieldsAre(LocalFields(h), s.checksum, |s.data|, |s.name|)
  }

  lemma CentralRecordReads(s: Stored, offset: nat)
    requires FieldsFit(s) && offset <= 0xffff_ffff
    ensures ReadsAsCentral(CentralRecord(s, offset), s, offset)
  {
    var h := Serialize(CentralWidths(), CentralValues(s.checksum, |s.data|, |s.name|, offset));
    CentralHeaderFields(h, s.checksum, |s.data|, |s.name|, offset);
    assert CentralHeaderOf(h, CentralRecord(s, offset), s, offset);
  }

  lemma LocalValuesAt(checksum: nat, size: nat, nameLength: nat)
    ensures LocalFieldsAre(LocalValues(checksum, size, nameLength), checksum, size, nameLength)
  {
  }

  lemma LocalRecordReads(s: Stored)
    requires FieldsFit(s)
    ensures ReadsAsLocal(LocalRecord(s), s)
  {
    var h := Serialize(LocalWidths(), LocalValues(s.checksum, |s.data|, |s.name|));
    LocalTotal();
    LocalHeaderReads(s.checksum, |s.data|, |s.name|);
    LocalValuesAt(s.checksum, |s.data|, |s.name|);
    assert LocalHeaderOf(h, LocalRecord(s), s);
  }

  lemma CentralReadsAt(a: Bytes, at: nat, r: Bytes, s: Stored, offset: nat)
    requires At(a, at, r) && ReadsAsCentral(r, s, offset)
    ensures ReadCentral(a, at) == Some(CentralEntry(s.name, |s.data|, s.checksum, offset, at + |r|))
  {
    var h: Bytes :| CentralHeaderOf(h, r, s, offset);
    Parts2(a, at, h, s.name);
    CentralEntryIs(a, at, s.name, s.checksum, |s.data|, offset);
  }

  lemma LocalReadsAt(a: Bytes, at: nat, r: Bytes, s: Stored)
    requires At(a, at, r) && ReadsAsLocal(r, s)
    ensures ReadLocal(a, at, s.name, |s.data|, s.checksum) == Some(s.data)
  {
    var h: Bytes :| LocalHeaderOf(h, r, s);
    Parts3(a, at, h, s.name, s.data);
  }

  lemma EntryReads(a: Bytes, at: nat, c: Bytes, offset: nat, l: Bytes, s: Stored)
    requires At(a, at, c) && ReadsAsCentral(c, s, offset) && At(a, offset, l) && ReadsAsLocal(l, s)
    ensures var entry := ReadCentral(a, at);
            entry.Some? && entry.value.next == at + |c| && ReadEntry(a, entry.value) == Some(s)
  {
    CentralReadsAt(a, at, c, s, offset);
    LocalReadsAt(a, offset, l, s);
  }

  lemma DirectoryStep(a: Bytes, at: nat, count: nat, s: Stored, next: nat, rest: seq<Stored>)
    requires count > 0 && ReadDirectory(a, next, count - 1) == Some(rest)
    requires var entry := ReadCentral(a, at); entry.Some? && entry.value.next == next && ReadEntry(a, entry.value) == Some(s)
    ensures ReadDirectory(a, at, count) == Some([s] + rest)
  {
  }

  ghost predicate ReadableAt(local: Stored -> Bytes, central: (Stored, nat) -> Bytes, stored: seq<Stored>, k: nat)
    requires k < |stored|
  {
    var offset := |ArchiveLayout.Locals(local, stored[..k])|;
    ReadsAsLocal(local(stored[k]), stored[k]) && ReadsAsCentral(central(stored[k], offset), stored[k], offset)
  }

  function Assembled(local: Stored -> Bytes, central: (Stored, nat) -> Bytes, stored: seq<Stored>, end: Bytes): Bytes {
    ArchiveLayout.Locals(local, stored) + ArchiveLayout.Centrals(local, central, stored) + end
  }

  function DirectoryPosition(local: Stored -> Bytes, central: (Stored, nat) -> Bytes, stored: seq<Stored>, i: nat): nat
    requires i <= |stored|
  {
    |ArchiveLayout.Locals(local, stored)| + |ArchiveLayout.Centrals(local, central, stored[..i])|
  }

  lemma EntryOfArchiveReads(local: Stored -> Bytes, central: (Stored, nat) -> Bytes, stored: seq<Stored>, end: Bytes, i: nat,
                            a: Bytes, at: nat, next: nat)
    requires i < |stored| && ReadableAt(local, central, stored, i)
    requires a == Assembled(local, central, stored, end) && at == DirectoryPosition(local, central, stored, i)
    requires next == DirectoryPosition(local, central, stored, i + 1)
    ensures var entry := ReadCentral(a, at);
            entry.Some? && entry.value.next == next && ReadEntry(a, entry.value) == Some(stored[i])
  {
    var offset := |ArchiveLayout.Locals(local, stored[..i])|;
    ArchiveLayout.Layout(local, central, stored, end, i);
    EntryReads(a, at, central(stored[i], offset), offset, local(stored[i]), stored[i]);
  }

  /** From the directory position of entry `i` on, exactly the entries from `i` on are read. */
  lemma {:induction false} DirectoryReads(local: Stored -> Bytes, central: (Stored, nat) -> Bytes, stored: seq<Stored>,
                                          end: Bytes, i: nat, a: Bytes, at: nat)
    requires i <= |stored| && forall k | 0 <= k < |stored| :: ReadableAt(local, central, stored, k)
    requires a == Assembled(local, central, stored, end) && at == DirectoryPosition(local, central, stored, i)
    ensures ReadDirectory(a, at, |stored| - i) == Some(stored[i..])
    decreases |stored| - i
  {
    if i < |stored| {
      var next := DirectoryPosition(local, central, stored, i + 1);
      EntryOfArchiveReads(local, central, stored, end, i, a, at, next);
      DirectoryReads(local, central, stored, end, i + 1, a, next);
      DirectoryStep(a, at, |stored| - i, stored[i], next, stored[i + 1..]);
      assert [stored[i]] + stored[i + 1..] == stored[i..];
    } else {
      assert stored[i..] == [];
    }
  }

  // ---------------------------------------------------------------------------
  // Writing and reading back

  ghost predicate EndFieldsAre(v: seq<nat>, count: nat, centralSize: nat, centralOffset: nat) {
    && |v| == 8 && v[0] == END_SIGNATURE && v[3] == count && v[4] == count && v[5] == centralSize
    && v[6] == centralOffset && v[7] == 0
  }

  lemma EndValuesAt(count: nat, centralSize: nat, centralOffset: nat)
    ensures EndFieldsAre(EndValues(count, centralSize, centralOffset), count, centralSize, centralOffset)
  {
  }

  lemma EndRecordFields(count: nat, centralSize: nat, centralOffset: nat)
    requires count <= 0xffff && centralSize <= 0xffff_ffff && centralOffset <= 0xffff_ffff
    ensures var r := Serialize(EndWidths(), EndValues(count, centralSize, centralOffset));
            |r| == 22 && EndFieldsAre(EndFields(r), count, centralSize, centralOffset)
  {
    EndTotal();
    EndRecordReads(count, centralSize, centralOffset);
    EndValuesAt(count, centralSize, centralOffset);
  }

  lemma EndReads(before: Bytes, end: Bytes, count: nat, centralSize: nat, centralOffset: nat)
    requires |end| == 22 && EndFieldsAre(EndFields(end), count, centralSize, centralOffset)
    requires |before| == centralOffset + centralSize
    ensures ReadArchive(before + end) == ReadDirectory(before + end, centralOffset, count)
  {
    assert (before + end)[|before + end| - 22..] == end;
  }

  lemma OffsetsFit(stored: seq<Stored>, k: nat)
    requires k < |stored|
    ensures |LocalData(stored[..k])| <= |LocalData(stored)|
  {
    ArchiveLayout.Layout(LocalRecord, CentralRecord, stored, [], k);
  }

  lemma RecordsReadable(stored: seq<Stored>, k: nat)
    requires WithinFields(stored) && k < |stored|
    ensures ReadableAt(LocalRecord, CentralRecord, stored, k)
  {
    OffsetsFit(stored, k);
    LocalRecordReads(stored[k]);
    CentralRecordReads(stored[k], |LocalData(stored[..k])|);
  }

  lemma DirectoryOfArchiveReads(stored: seq<Stored>, end: Bytes)
    requires WithinFields(stored)
    ensures ReadDirectory(LocalData(stored) + CentralData(stored) + end, |LocalData(stored)|, |stored|) == Some(stored)
  {
    forall k | 0 <= k < |stored|
      ensures ReadableAt(LocalRecord, CentralRecord, stored, k)
    {
      RecordsReadable(stored, k);
    }
    assert stored[..0] == [] && stored[0..] == stored;
    DirectoryReads(LocalRecord, CentralRecord, stored, end, 0, LocalData(stored) + CentralData(stored) + end, |LocalData(stored)|);
  }

  /** Every archive whose fields fit reads back as its entries, recorded checksums included. */
  lemma ArchiveReads(stored: seq<Stored>)
    requires WithinFields(stored)
    ensures ReadArchive(Archive(stored)) == Some(stored)
  {
    DirectoryOfArchiveReads(stored, EndRecord(stored));
    EndRecordFields(|stored|, |CentralData(stored)|, |LocalData(stored)|);
    EndReads(LocalData(stored) + CentralData(stored), EndRecord(stored), |stored|, |CentralData(stored)|, |LocalData(stored)|);
  }
}
