/**
  The records of the archive byte by byte, as sections 4.3.7, 4.3.12 and 4.3.16 of APPNOTE.TXT lay
  them out (src/integrations/php-integration-package.ts).
 */
module ArchiveFields {
  import opened Prelude
  import opened ArchiveLayout
  import opened StoredZip

  /** `value` stands at `at` in the record, in this many bytes, the least significant first. */
  ghost predicate Stands(record: Bytes, at: nat, size: nat, value: nat) {
    && at + size <= |record|
    && (size == 2 ==> record[at..at + size] == [value % 256, value / 256])
    && (size == 4 ==> record[at..at + size] == [value % 256, value / 256 % 256, value / 65536 % 256, value / 16777216])
  }

  lemma FourthByte(value: nat)
    ensures value / 0x100 / 0x100 == value / 65536 && value / 0x100 / 0x100 / 0x100 == value / 16777216
  {
  }

  lemma {:induction false} FieldStands(widths: seq<Width>, values: seq<nat>, k: nat)
    requires k < |widths| == |values| && values[k] <= (if widths[k] == U16 then 0xffff else 0xffff_ffff)
    ensures Total(widths[..k + 1]) == Total(widths[..k]) + Size(widths[k])
    ensures Stands(Serialize(widths, values), Total(widths[..k]), Size(widths[k]), values[k])
  {
    var first, rest := Le(values[0], Size(widths[0])), Serialize(widths[1..], values[1..]);
    if k == 0 {
      assert widths[..1][1..] == [] && widths[..0] == [];
      BytesStand(first, widths[0], values[0]);
      StandsBefore(first, rest, Size(widths[0]), values[0]);
    } else {
      FieldStands(widths[1..], values[1..], k - 1);
      assert widths[..k][1..] == widths[1..][..k - 1] && widths[..k + 1][1..] == widths[1..][..k];
      StandsBehind(first, rest, Total(widths[1..][..k - 1]), Size(widths[k]), values[k]);
    }
  }

  lemma BytesStand(bytes: Bytes, w: Width, value: nat)
    requires value <= (if w == U16 then 0xffff else 0xffff_ffff) && bytes == Le(value, Size(w))
    ensures Stands(bytes, 0, Size(w), value)
  {
    FourthByte(value);
    if w == U16 {
      TwoBytes(value);
    } else {
      FourBytes(value);
    }
  }

  lemma StandsBefore(first: Bytes, rest: Bytes, size: nat, value: nat)
    requires Stands(first, 0, size, value)
    ensures Stands(first + rest, 0, size, value)
  {
    assert (first + rest)[0..size] == first[0..size];
  }

  lemma StandsBehind(first: Bytes, rest: Bytes, at: nat, size: nat, value: nat)
    requires Stands(rest, at, size, value)
    ensures Stands(first + rest, |first| + at, size, value)
  {
    assert (first + rest)[|first| + at..|first| + at + size] == rest[at..at + size];
  }

  /** Every field of a record stands where it should. */
  ghost predicate AllStand(record: Bytes, widths: seq<Width>, values: seq<nat>, at: seq<nat>) {
    && |widths| == |values| == |at|
    && forall k | 0 <= k < |at| :: Stands(record, at[k], Size(widths[k]), values[k])
  }

  /** Values that fit, each at the sum of the widths before it. */
  ghost predicate Placed(widths: seq<Width>, values: seq<nat>, at: seq<nat>) {
    && |widths| == |values| == |at| > 0 && at[0] == 0
    && (forall k | 0 <= k < |values| :: values[k] <= (if widths[k] == U16 then 0xffff else 0xffff_ffff))
    && (forall k | 0 < k < |at| :: at[k] == at[k - 1] + Size(widths[k - 1]))
  }

  lemma FieldsStand(widths: seq<Width>, values: seq<nat>, at: seq<nat>)
    requires Placed(widths, values, at)
    ensures AllStand(Serialize(widths, values), widths, values, at)
  {
    forall k | 0 <= k < |at|
      ensures Stands(Serialize(widths, values), at[k], Size(widths[k]), values[k])
    {
      OffsetIs(widths, at, k);
      FieldStands(widths, values, k);
    }
  }

  lemma {:induction false} OffsetIs(widths: seq<Width>, at: seq<nat>, k: nat)
    requires |widths| == |at| > k && at[0] == 0 && forall j | 0 < j < |at| :: at[j] == at[j - 1] + Size(widths[j - 1])
    ensures Total(widths[..k]) == at[k]
    decreases k
  {
    if k == 0 {
      assert widths[..0] == [];
    } else {
      OffsetIs(widths, at, k - 1);
      TotalAppend(widths[..k - 1], [widths[k - 1]]);
      assert widths[..k] == widths[..k - 1] + [widths[k - 1]];
      assert [widths[k - 1]][1..] == [];
    }
  }

  /** Section 4.3.7: signature, version, flags, method, time, date, CRC, two sizes, name and extra length. */
  lemma LocalHeaderBytes(checksum: nat, size: nat, nameLength: nat)
    requires checksum <= 0xffff_ffff && size <= 0xffff_ffff && nameLength <= 0xffff
    ensures var h := Serialize(LocalWidths(), LocalValues(checksum, size, nameLength));
            && |h| == 30
            && AllStand(h, [U32, U16, U16, U16, U16, U16, U32, U32, U32, U16, U16],
                        [0x04034b50, 20, 0x800, 0, 0, 0x21, checksum, size, size, nameLength, 0],
                        [0, 4, 6, 8, 10, 12, 14, 18, 22, 26, 28])
  {
    LocalTotal();
    LocalPlaced(LocalWidths(), LocalValues(checksum, size, nameLength), checksum, size, nameLength);
    FieldsStand(LocalWidths(), LocalValues(checksum, size, nameLength), [0, 4, 6, 8, 10, 12, 14, 18, 22, 26, 28]);
  }

  lemma LocalPlaced(widths: seq<Width>, values: seq<nat>, checksum: nat, size: nat, nameLength: nat)
    requires checksum <= 0xffff_ffff && size <= 0xffff_ffff && nameLength <= 0xffff
    requires widths == [U32, U16, U16, U16, U16, U16, U32, U32, U32, U16, U16]
    requires values == [0x04034b50, 20, 0x800, 0, 0, 0x21, checksum, size, size, nameLength, 0]
    ensures Placed(widths, values, [0, 4, 6, 8, 10, 12, 14, 18, 22, 26, 28])
  {
  }

  lemma {:induction false} SerializeAppend(a: seq<Width>, b: seq<Width>, u: seq<nat>, v: seq<nat>)
    requires |u| == |a| && |v| == |b|
    ensures Serialize(a + b, u + v) == Serialize(a, u) + Serialize(b, v)
  {
    if a == [] {
      assert a + b == b && u + v == v;
    } else {
      assert (a + b)[1..] == a[1..] + b && (u + v)[1..] == u[1..] + v;
      SerializeAppend(a[1..], b, u[1..], v);
    }
  }

  /**
    Section 4.3.12: in the first 24 bytes signature, two versions, flags, method, time, date, CRC and the
    compressed size; in the other 22 the size, name, extra and comment length, disk, internal and
    external attributes and the offset of the local header.
   */
  lemma CentralHeaderBytes(checksum: nat, size: nat, nameLength: nat, offset: nat)
    requires checksum <= 0xffff_ffff && size <= 0xffff_ffff && nameLength <= 0xffff && offset <= 0xffff_ffff
    ensures var h := Serialize(CentralWidths(), CentralValues(checksum, size, nameLength, offset));
            && |h| == 46
            && AllStand(h[..24], [U32, U16, U16, U16, U16, U16, U16, U32, U32],
                        [0x02014b50, 20, 20, 0x800, 0, 0, 0x21, checksum, size], [0, 4, 6, 8, 10, 12, 14, 16, 20])
            && AllStand(h[24..], [U32, U16, U16, U16, U16, U16, U32, U32],
                        [size, nameLength, 0, 0, 0, 0, 0, offset], [0, 4, 6, 8, 10, 12, 14, 18])
  {
    var a, b := [U32, U16, U16, U16, U16, U16, U16, U32, U32], [U32, U16, U16, U16, U16, U16, U32, U32];
    var u, v := [0x02014b50, 20, 20, 0x800, 0, 0, 0x21, checksum, size], [size, nameLength, 0, 0, 0, 0, 0, offset];
    assert CentralWidths() == a + b && CentralValues(checksum, size, nameLength, offset) == u + v;
    SerializeAppend(a, b, u, v);
    CentralTotal();
    FirstHalf(checksum, size);
    SecondHalf(size, nameLength, offset);
    HalvesMeet(Serialize(a, u), Serialize(b, v), Serialize(a + b, u + v));
  }

  lemma HalvesMeet(a: Bytes, b: Bytes, h: Bytes)
    requires |a| == 24 && h == a + b
    ensures h[..24] == a && h[24..] == b
  {
  }

  lemma FirstHalf(checksum: nat, size: nat)
    requires checksum <= 0xffff_ffff && size <= 0xffff_ffff
    ensures var w := [U32, U16, U16, U16, U16, U16, U16, U32, U32];
            var v := [0x02014b50, 20, 20, 0x800, 0, 0, 0x21, checksum, size];
            |Serialize(w, v)| == 24 && AllStand(Serialize(w, v), w, v, [0, 4, 6, 8, 10, 12, 14, 16, 20])
  {
    var w := [U32, U16, U16, U16, U16, U16, U16, U32, U32];
    assert w == w[..8] + [U32];
    TotalOfEight(w[..8]);
    TotalAppend(w[..8], [U32]);
    assert [U32][1..] == [];
    FieldsStand(w, [0x02014b50, 20, 20, 0x800, 0, 0, 0x21, checksum, size], [0, 4, 6, 8, 10, 12, 14, 16, 20]);
  }

  lemma SecondHalf(size: nat, nameLength: nat, offset: nat)
    requires size <= 0xffff_ffff && nameLength <= 0xffff && offset <= 0xffff_ffff
    ensures var w := [U32, U16, U16, U16, U16, U16, U32, U32]; var v := [size, nameLength, 0, 0, 0, 0, 0, offset];
            AllStand(Serialize(w, v), w, v, [0, 4, 6, 8, 10, 12, 14, 18])
  {
    FieldsStand([U32, U16, U16, U16, U16, U16, U32, U32], [size, nameLength, 0, 0, 0, 0, 0, offset], [0, 4, 6, 8, 10, 12, 14, 18]);
  }

  /** Section 4.3.16: signature, two disk numbers, two counts, size and offset of the directory, comment length. */
  lemma EndRecordBytes(count: nat, centralSize: nat, centralOffset: nat)
    requires count <= 0xffff && centralSize <= 0xffff_ffff && centralOffset <= 0xffff_ffff
    ensures var h := Serialize(EndWidths(), EndValues(count, centralSize, centralOffset));
            && |h| == 22
            && AllStand(h, [U32, U16, U16, U16, U16, U32, U32, U16],
                        [0x06054b50, 0, 0, count, count, centralSize, centralOffset, 0],
                        [0, 4, 6, 8, 10, 12, 16, 20])
  {
    EndTotal();
    FieldsStand(EndWidths(), EndValues(count, centralSize, centralOffset), [0, 4, 6, 8, 10, 12, 16, 20]);
  }
}
