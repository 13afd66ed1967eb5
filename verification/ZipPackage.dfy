/** The package archive as a whole: what is accepted, what is written, and what extracting it gives. */
module ZipPackage {
  import opened Prelude
  import Crc32
  import opened ArchiveLayout
  import opened StoredZip

  // ---------------------------------------------------------------------------
  // Names

  const SLASH := 0x2f
  const BACKSLASH := 0x5c
  const DOT := 0x2e

  function Split(name: Bytes): (parts: seq<Bytes>)
    ensures |parts| >= 1
  {
    if name == [] then [[]]
    else if name[0] == SLASH then [[]] + Split(name[1..])
    else var rest := Split(name[1..]); [[name[0]] + rest[0]] + rest[1..]
  }

  predicate Ordinary(part: Bytes) { part != [] && part != [DOT] && part != [DOT, DOT] }

  predicate AllOrdinary(parts: seq<Bytes>) {
    parts == [] || (Ordinary(parts[0]) && AllOrdinary(parts[1..]))
  }

  /** `nfc` stands for the runtime's Unicode normalisation test. */
  predicate IsSafeArchiveName(nfc: Bytes -> bool, name: Bytes) {
    nfc(name) && !([SLASH] <= name) && BACKSLASH !in name && AllOrdinary(Split(name))
  }

  /** A stretch of the name between two slashes or an end of it. */
  predicate IsSegment(name: Bytes, i: nat, j: nat) {
    && i <= j <= |name| && (i == 0 || name[i - 1] == SLASH) && (j == |name| || name[j] == SLASH)
    && forall k | i <= k < j :: name[k] != SLASH
  }

  /** Where the first segment ends. */
  function FirstEnd(name: Bytes): (n: nat)
    ensures IsSegment(name, 0, n)
  {
    if name == [] || name[0] == SLASH then 0 else
    assert forall k | 0 <= k < FirstEnd(name[1..]) :: name[1..][k] == name[k + 1];
    1 + FirstEnd(name[1..])
  }

  lemma {:induction false} SplitFirst(name: Bytes)
    ensures var n := FirstEnd(name);
            && Split(name)[0] == name[..n]
            && Split(name)[1..] == if n == |name| then [] else Split(name[n + 1..])
  {
    if name != [] && name[0] != SLASH {
      var n := FirstEnd(name[1..]);
      SplitFirst(name[1..]);
      assert name[..n + 1] == [name[0]] + name[1..][..n];
      assert n + 1 < |name| ==> name[1..][n + 1..] == name[n + 2..];
    }
  }

  lemma {:induction false} SplitSegments(name: Bytes)
    ensures AllOrdinary(Split(name)) <==> forall i: nat, j: nat | IsSegment(name, i, j) :: Ordinary(name[i..j])
    decreases |name|
  {
    var n := FirstEnd(name);
    SplitFirst(name);
    assert name[0..n] == name[..n];
    if n == |name| {
      forall i: nat, j: nat | IsSegment(name, i, j)
        ensures i == 0 && j == n
      {
      }
    } else {
      var rest := name[n + 1..];
      SplitSegments(rest);
      SegmentsOfRest(name, n, rest);
    }
  }

  lemma SegmentsOfRest(name: Bytes, n: nat, rest: Bytes)
    requires IsSegment(name, 0, n) && n < |name| && rest == name[n + 1..]
    ensures forall i: nat, j: nat | IsSegment(rest, i, j) :: IsSegment(name, n + 1 + i, n + 1 + j) && name[n + 1 + i..n + 1 + j] == rest[i..j]
    ensures forall i: nat, j: nat | IsSegment(name, i, j) ::
              (i == 0 && j == n) || (i > n && IsSegment(rest, i - n - 1, j - n - 1) && name[i..j] == rest[i - n - 1..j - n - 1])
  {
    forall i: nat, j: nat | IsSegment(rest, i, j)
      ensures IsSegment(name, n + 1 + i, n + 1 + j) && name[n + 1 + i..n + 1 + j] == rest[i..j]
    {
      assert forall k | n + 1 + i <= k < n + 1 + j :: name[k] == rest[k - n - 1];
    }
    forall i: nat, j: nat | IsSegment(name, i, j)
      ensures (i == 0 && j == n) || (i > n && IsSegment(rest, i - n - 1, j - n - 1) && name[i..j] == rest[i - n - 1..j - n - 1])
    {
      if i > n {
        assert forall k | i - n - 1 <= k < j - n - 1 :: rest[k] == name[k + n + 1];
      }
    }
  }

  /** Normalised, without a backslash, and no segment between slashes is empty, `.` or `..`. */
  lemma SafeExactly(nfc: Bytes -> bool, name: Bytes)
    ensures IsSafeArchiveName(nfc, name) <==>
              && nfc(name) && BACKSLASH !in name
              && forall i: nat, j: nat | IsSegment(name, i, j) :: name[i..j] != [] && name[i..j] != [DOT] && name[i..j] != [DOT, DOT]
  {
    SplitSegments(name);
    if [SLASH] <= name {
      assert IsSegment(name, 0, 0) && name[0..0] == [];
    }
  }

  /** Where an unpacker that follows `.` and `..` ends up. */
  function Follow(folder: seq<Bytes>, parts: seq<Bytes>): seq<Bytes>
    decreases |parts|
  {
    if parts == [] then folder
    else if parts[0] == [] || parts[0] == [DOT] then Follow(folder, parts[1..])
    else if parts[0] == [DOT, DOT] then Follow(if folder == [] then [] else folder[..|folder| - 1], parts[1..])
    else Follow(folder + [parts[0]], parts[1..])
  }

  lemma {:induction false} FollowLength(folder: seq<Bytes>, parts: seq<Bytes>)
    ensures |Follow(folder, parts)| <= |folder| + |parts|
    ensures AllOrdinary(parts) <==> |Follow(folder, parts)| == |folder| + |parts|
    ensures AllOrdinary(parts) ==> Follow(folder, parts) == folder + parts
    decreases |parts|
  {
    if parts == [] {
      assert folder + parts == folder;
    } else if parts[0] == [] || parts[0] == [DOT] {
      FollowLength(folder, parts[1..]);
    } else if parts[0] == [DOT, DOT] {
      FollowLength(if folder == [] then [] else folder[..|folder| - 1], parts[1..]);
    } else {
      FollowLength(folder + [parts[0]], parts[1..]);
      assert folder + [parts[0]] + parts[1..] == folder + parts;
    }
  }

  /** The parts are acceptable exactly when unpacking below any folder takes them literally. */
  lemma OrdinaryNamesStayBelow(folder: seq<Bytes>, name: Bytes)
    ensures AllOrdinary(Split(name)) <==> Follow(folder, Split(name)) == folder + Split(name)
  {
    FollowLength(folder, Split(name));
  }

  // ---------------------------------------------------------------------------
  // Writing

  function Checksummed(entries: seq<Entry>): (r: seq<Stored>)
    ensures |r| == |entries|
  {
    if entries == [] then [] else
    var e := entries[|entries| - 1];
    Checksummed(entries[..|entries| - 1]) + [Stored(e.name, e.data, Crc32.Checksum(e.data))]
  }

  lemma {:induction false} ChecksummedAt(entries: seq<Entry>, i: nat)
    requires i < |entries|
    ensures Checksummed(entries)[i] == Stored(entries[i].name, entries[i].data, Crc32.Checksum(entries[i].data))
    decreases |entries|
  {
    if i < |entries| - 1 {
      ChecksummedAt(entries[..|entries| - 1], i);
    }
  }

  lemma {:induction false} ChecksummedPrefix(entries: seq<Entry>, i: nat)
    requires i <= |entries|
    ensures Checksummed(entries)[..i] == Checksummed(entries[..i])
    decreases |entries|
  {
    if i < |entries| {
      var before := entries[..|entries| - 1];
      ChecksummedPrefix(before, i);
      assert before[..i] == entries[..i];
      assert Checksummed(entries)[..i] == Checksummed(before)[..i];
    } else {
      assert entries[..i] == entries;
    }
  }

  predicate NameAccepted(nfc: Bytes -> bool, name: Bytes) {
    1 <= |name| <= 0xffff && IsSafeArchiveName(nfc, name)
  }

  predicate DataAccepted(entries: seq<Entry>) {
    forall i | 0 <= i < |entries| :: |entries[i].data| <= 0xffff_ffff
  }

  predicate SizesAccepted(entries: seq<Entry>) {
    && DataAccepted(entries)
    && |entries| <= 0xffff && |LocalData(Checksummed(entries))| <= 0xffff_ffff && |CentralData(Checksummed(entries))| <= 0xffff_ffff
  }

  predicate NamesAccepted(nfc: Bytes -> bool, entries: seq<Entry>) {
    forall i | 0 <= i < |entries| :: NameAccepted(nfc, entries[i].name)
  }

  datatype ZipResult = Zip(archive: Bytes) | InvalidProject | ArchiveLimitExceeded

  lemma LocalsGrow(entries: seq<Entry>, i: nat)
    requires i < |entries|
    ensures |LocalData(Checksummed(entries[..i]))| <= |LocalData(Checksummed(entries))|
  {
    ChecksummedPrefix(entries, i);
    OffsetsFit(Checksummed(entries), i);
  }

  method MakeRecords(e: Entry, offset: nat) returns (local: Bytes, central: Bytes)
    requires |e.name| <= 0xffff && |e.data| <= 0xffff_ffff && offset <= 0xffff_ffff
    ensures var s := Stored(e.name, e.data, Crc32.Checksum(e.data));
            local == LocalRecord(s) && central == CentralRecord(s, offset)
  {
    Crc32.ChecksumFits(e.data);
    var checksum := Crc32.CalculateChecksum(e.data);
    var header := MakeLocalHeader(checksum, |e.data|, |e.name|);
    local := header + e.name + e.data;
    var centralHeader := MakeCentralHeader(checksum, |e.data|, |e.name|, offset);
    central := centralHeader + e.name;
  }

  method CheckEntry(nfc: Bytes -> bool, entries: seq<Entry>, i: nat, offset: nat) returns (failure: Option<ZipResult>)
    requires i < |entries| && offset == |LocalData(Checksummed(entries[..i]))|
    ensures failure == Some(InvalidProject) ==> !NamesAccepted(nfc, entries)
    ensures failure == Some(ArchiveLimitExceeded) ==> !SizesAccepted(entries)
    ensures failure in {None, Some(InvalidProject), Some(ArchiveLimitExceeded)}
    ensures failure.None? ==>
              NameAccepted(nfc, entries[i].name) && |entries[i].data| <= 0xffff_ffff && offset <= 0xffff_ffff
  {
    var e := entries[i];
    if |e.name| == 0 || |e.name| > 0xffff || !IsSafeArchiveName(nfc, e.name) {
      assert !NameAccepted(nfc, entries[i].name);
      return Some(InvalidProject);
    }
    LocalsGrow(entries, i);
    if |e.data| > 0xffff_ffff || offset > 0xffff_ffff { return Some(ArchiveLimitExceeded); }
    return None;
  }

  ghost predicate AcceptedUpTo(nfc: Bytes -> bool, entries: seq<Entry>, n: nat)
    requires n <= |entries|
  {
    forall k | 0 <= k < n :: NameAccepted(nfc, entries[k].name) && |entries[k].data| <= 0xffff_ffff
  }

  lemma OneMoreAccepted(nfc: Bytes -> bool, entries: seq<Entry>, i: nat)
    requires i < |entries| && AcceptedUpTo(nfc, entries, i)
    requires NameAccepted(nfc, entries[i].name) && |entries[i].data| <= 0xffff_ffff
    ensures AcceptedUpTo(nfc, entries, i + 1)
  {
  }

  ghost predicate Recorded(stored: seq<Stored>, localRecords: seq<Bytes>, centralRecords: seq<Bytes>, offset: nat) {
    && localRecords == LocalRecords(LocalRecord, stored)
    && centralRecords == CentralRecords(LocalRecord, CentralRecord, stored)
    && offset == |LocalData(stored)|
  }

  lemma RecordedData(stored: seq<Stored>, localRecords: seq<Bytes>, centralRecords: seq<Bytes>, offset: nat)
    requires Recorded(stored, localRecords, centralRecords, offset)
    ensures Concat(localRecords) == LocalData(stored) && Concat(centralRecords) == CentralData(stored)
  {
  }

  method AddRecords(entries: seq<Entry>, i: nat, localRecords: seq<Bytes>, centralRecords: seq<Bytes>, offset: nat)
    returns (locals: seq<Bytes>, centrals: seq<Bytes>, next: nat)
    requires i < |entries| && Recorded(Checksummed(entries[..i]), localRecords, centralRecords, offset)
    requires |entries[i].name| <= 0xffff && |entries[i].data| <= 0xffff_ffff && offset <= 0xffff_ffff
    ensures Recorded(Checksummed(entries[..i + 1]), locals, centrals, next)
  {
    var local, central := MakeRecords(entries[i], offset);
    RecordsGrow(entries, i);
    locals, centrals, next := localRecords + [local], centralRecords + [central], offset + |local|;
  }

  lemma AllAccepted(nfc: Bytes -> bool, entries: seq<Entry>)
    requires AcceptedUpTo(nfc, entries, |entries|)
    ensures NamesAccepted(nfc, entries) && DataAccepted(entries)
  {
  }

  method BuildRecords(nfc: Bytes -> bool, entries: seq<Entry>)
    returns (failure: Option<ZipResult>, localRecords: seq<Bytes>, centralRecords: seq<Bytes>)
    ensures failure == Some(InvalidProject) ==> !NamesAccepted(nfc, entries)
    ensures failure == Some(ArchiveLimitExceeded) ==> !SizesAccepted(entries)
    ensures failure in {None, Some(InvalidProject), Some(ArchiveLimitExceeded)}
    ensures failure.None? ==>
              && NamesAccepted(nfc, entries) && DataAccepted(entries)
              && Concat(localRecords) == LocalData(Checksummed(entries))
              && Concat(centralRecords) == CentralData(Checksummed(entries))
  {
    localRecords, centralRecords := [], [];
    var offset := 0;
    for i := 0 to |entries|
      invariant Recorded(Checksummed(entries[..i]), localRecords, centralRecords, offset)
      invariant AcceptedUpTo(nfc, entries, i)
    {
      failure := CheckEntry(nfc, entries, i, offset);
      if failure.Some? { return; }
      OneMoreAccepted(nfc, entries, i);
      localRecords, centralRecords, offset := AddRecords(entries, i, localRecords, centralRecords, offset);
    }
    assert entries[..|entries|] == entries;
    RecordedData(Checksummed(entries), localRecords, centralRecords, offset);
    AllAccepted(nfc, entries);
    failure := None;
  }

  method CreateStoredZip(nfc: Bytes -> bool, entries: seq<Entry>) returns (r: ZipResult)
    ensures r.Zip? <==> NamesAccepted(nfc, entries) && SizesAccepted(entries)
    ensures r.Zip? ==> r.archive == Archive(Checksummed(entries))
    ensures r.InvalidProject? ==> !NamesAccepted(nfc, entries)
    ensures r.ArchiveLimitExceeded? ==> !SizesAccepted(entries)
  {
    var failure, localRecords, centralRecords := BuildRecords(nfc, entries);
    if failure.Some? { return failure.value; }
    r := AppendEnd(|entries|, Concat(localRecords), Concat(centralRecords));
    FinishedArchive(entries, Checksummed(entries), Concat(localRecords), Concat(centralRecords), r);
  }

  method AppendEnd(count: nat, localData: Bytes, centralData: Bytes) returns (r: ZipResult)
    ensures r == WithEnd(count, localData, centralData)
  {
    if count > 0xffff || |centralData| > 0xffff_ffff || |localData| > 0xffff_ffff { return ArchiveLimitExceeded; }
    var end := MakeEndRecord(count, |centralData|, |localData|);
    return Zip(localData + centralData + end);
  }

  function WithEnd(count: nat, localData: Bytes, centralData: Bytes): ZipResult {
    if count > 0xffff || |centralData| > 0xffff_ffff || |localData| > 0xffff_ffff then ArchiveLimitExceeded
    else Zip(localData + centralData + Serialize(EndWidths(), EndValues(count, |centralData|, |localData|)))
  }

  lemma {:induction false} FinishedArchive(entries: seq<Entry>, stored: seq<Stored>, localData: Bytes, centralData: Bytes, r: ZipResult)
    requires DataAccepted(entries) && stored == Checksummed(entries) && |stored| == |entries|
    requires localData == LocalData(stored) && centralData == CentralData(stored)
    requires r == WithEnd(|entries|, localData, centralData)
    ensures r.Zip? <==> SizesAccepted(entries)
    ensures r.Zip? ==> r.archive == Archive(stored)
    ensures !r.InvalidProject?
  {
  }

  /** The records of one more entry. */
  lemma RecordsGrow(entries: seq<Entry>, i: nat)
    requires i < |entries|
    ensures var before, after := Checksummed(entries[..i]), Checksummed(entries[..i + 1]);
            var s := Stored(entries[i].name, entries[i].data, Crc32.Checksum(entries[i].data));
            && LocalRecords(LocalRecord, after) == LocalRecords(LocalRecord, before) + [LocalRecord(s)]
            && CentralRecords(LocalRecord, CentralRecord, after) ==
               CentralRecords(LocalRecord, CentralRecord, before) + [CentralRecord(s, |LocalData(before)|)]
            && |LocalData(after)| == |LocalData(before)| + |LocalRecord(s)|
  {
    assert entries[..i + 1][..i] == entries[..i];
    var after := Checksummed(entries[..i + 1]);
    assert after[..i] == Checksummed(entries[..i]);
  }

  // ---------------------------------------------------------------------------
  // Extracting

  /** The entries, if every recorded checksum is that of the data. */
  function Verified(stored: seq<Stored>): Option<seq<Entry>> {
    if stored == [] then Some([]) else
    var s := stored[|stored| - 1];
    var before := Verified(stored[..|stored| - 1]);
    if before.None? || Crc32.Checksum(s.data) != s.checksum then None else Some(before.value + [Entry(s.name, s.data)])
  }

  function Extract(archive: Bytes): Option<seq<Entry>> {
    var stored := ReadArchive(archive);
    if stored.None? then None else Verified(stored.value)
  }

  lemma {:induction false} VerifiedChecksummed(entries: seq<Entry>)
    ensures Verified(Checksummed(entries)) == Some(entries)
    decreases |entries|
  {
    if entries != [] {
      var before, e := entries[..|entries| - 1], entries[|entries| - 1];
      VerifiedChecksummed(before);
      var all := Checksummed(entries);
      assert all[..|all| - 1] == Checksummed(before);
      assert before + [e] == entries;
      assert Entry(e.name, e.data) == e;
    }
  }

  lemma AcceptedIsWithinFields(nfc: Bytes -> bool, entries: seq<Entry>)
    requires NamesAccepted(nfc, entries) && SizesAccepted(entries)
    ensures WithinFields(Checksummed(entries))
  {
    forall i | 0 <= i < |entries|
      ensures FieldsFit(Checksummed(entries)[i])
    {
      ChecksummedAt(entries, i);
      Crc32.ChecksumFits(entries[i].data);
      assert NameAccepted(nfc, entries[i].name);
    }
  }

  /** Extracting what was written gives exactly the names and data that went in, in order. */
  lemma ArchiveRoundTrip(nfc: Bytes -> bool, entries: seq<Entry>)
    requires NamesAccepted(nfc, entries) && SizesAccepted(entries)
    ensures Extract(Archive(Checksummed(entries))) == Some(entries)
  {
    AcceptedIsWithinFields(nfc, entries);
    ArchiveReads(Checksummed(entries));
    VerifiedChecksummed(entries);
  }

  // ---------------------------------------------------------------------------
  // Damage

  function WithData(s: Stored, data: Bytes): Stored { s.(data := data) }

  lemma SameDirectoryRecord(s: Stored, data: Bytes, offset: nat)
    requires |data| == |s.data|
    ensures CentralRecord(WithData(s, data), offset) == CentralRecord(s, offset)
  {
  }

  lemma DataInParts(h: Bytes, name: Bytes, data: Bytes, p: nat, w: Bytes, r: Bytes, at: nat)
    requires p + |w| <= |data| && r == h + name + data && at == |h| + |name| + p
    ensures at + |w| <= |r| && h + name + Overwritten(data, p, w) == Overwritten(r, at, w)
  {
  }

  lemma DataInRecord(s: Stored, p: nat, w: Bytes)
    requires p + |w| <= |s.data|
    ensures 30 + |s.name| + p + |w| <= |LocalRecord(s)|
    ensures LocalRecord(WithData(s, Overwritten(s.data, p, w))) == Overwritten(LocalRecord(s), 30 + |s.name| + p, w)
  {
    LocalTotal();
    var h := Serialize(LocalWidths(), LocalValues(s.checksum, |s.data|, |s.name|));
    DataInParts(h, s.name, s.data, p, w, LocalRecord(s), 30 + |s.name| + p);
  }

  lemma DamagedRecord(s: Stored, p: nat, w: Bytes)
    requires p + |w| <= |s.data|
    ensures Damages(LocalRecord, CentralRecord, s, WithData(s, Overwritten(s.data, p, w)), 30 + |s.name| + p, w)
  {
    DataInRecord(s, p, w);
    forall offset: nat
      ensures CentralRecord(WithData(s, Overwritten(s.data, p, w)), offset) == CentralRecord(s, offset)
    {
      SameDirectoryRecord(s, Overwritten(s.data, p, w), offset);
    }
  }

  // The argument does not depend on what the records are, only on how they read.

  ghost predicate ReadsAndDamages(local: Stored -> Bytes, central: (Stored, nat) -> Bytes, s: Stored) {
    && ReadsAsLocal(local(s), s)
    && (forall offset: nat | offset <= 0xffff_ffff :: ReadsAsCentral(central(s, offset), s, offset))
  }

  lemma AllReadable(local: Stored -> Bytes, central: (Stored, nat) -> Bytes, stored: seq<Stored>)
    requires |ArchiveLayout.Locals(local, stored)| <= 0xffff_ffff
    requires forall k | 0 <= k < |stored| :: ReadsAndDamages(local, central, stored[k])
    ensures forall k | 0 <= k < |stored| :: ReadableAt(local, central, stored, k)
  {
    forall k | 0 <= k < |stored|
      ensures ReadableAt(local, central, stored, k)
    {
      Layout(local, central, stored, [], k);
      assert ReadsAndDamages(local, central, stored[k]);
    }
  }

  lemma DamagedBytes(local: Stored -> Bytes, central: (Stored, nat) -> Bytes, stored: seq<Stored>,
                                        i: nat, x: Stored, k: nat, w: Bytes, end: Bytes, a: Bytes, at: nat)
    requires i < |stored| && Damages(local, central, stored[i], x, k, w)
    requires a == Assembled(local, central, stored, end) && at == |ArchiveLayout.Locals(local, stored[..i])| + k
    ensures at + |w| <= |a| && Overwritten(a, at, w) == Assembled(local, central, stored[i := x], end)
    ensures |ArchiveLayout.Locals(local, stored[i := x])| == |ArchiveLayout.Locals(local, stored)|
    ensures |ArchiveLayout.Centrals(local, central, stored[i := x])| == |ArchiveLayout.Centrals(local, central, stored)|
  {
    OneRecordOverwritten(local, stored, i, x, k, w, at);
    SameDirectory(local, central, stored, i, x, k, w);
    var locals, centrals := ArchiveLayout.Locals(local, stored), ArchiveLayout.Centrals(local, central, stored);
    OverwriteAppend(locals, at, w, centrals);
    OverwriteAppend(locals + centrals, at, w, end);
  }

  /** Any list whose records read as its entries reads back through the end record. */
  lemma AssembledReads(local: Stored -> Bytes, central: (Stored, nat) -> Bytes, stored: seq<Stored>, end: Bytes)
    requires forall k | 0 <= k < |stored| :: ReadableAt(local, central, stored, k)
    requires |end| == 22 && EndFieldsAre(EndFields(end), |stored|, |ArchiveLayout.Centrals(local, central, stored)|,
                                         |ArchiveLayout.Locals(local, stored)|)
    ensures ReadArchive(Assembled(local, central, stored, end)) == Some(stored)
  {
    assert stored[..0] == [] && stored[0..] == stored;
    var locals, centrals := ArchiveLayout.Locals(local, stored), ArchiveLayout.Centrals(local, central, stored);
    DirectoryReads(local, central, stored, end, 0, locals + centrals + end, |locals|);
    EndReads(locals + centrals, end, |stored|, |centrals|, |locals|);
  }

  lemma DamagedDirectory(local: Stored -> Bytes, central: (Stored, nat) -> Bytes, stored: seq<Stored>,
                                            i: nat, x: Stored, k: nat, w: Bytes, end: Bytes, a: Bytes, at: nat)
    requires i < |stored| && |ArchiveLayout.Locals(local, stored)| <= 0xffff_ffff
    requires forall j | 0 <= j < |stored| :: ReadsAndDamages(local, central, stored[j])
    requires ReadsAndDamages(local, central, x) && Damages(local, central, stored[i], x, k, w)
    requires |end| == 22 && EndFieldsAre(EndFields(end), |stored|, |ArchiveLayout.Centrals(local, central, stored)|,
                                         |ArchiveLayout.Locals(local, stored)|)
    requires a == Assembled(local, central, stored, end) && at == |ArchiveLayout.Locals(local, stored[..i])| + k
    ensures at + |w| <= |a| && ReadArchive(Overwritten(a, at, w)) == Some(stored[i := x])
  {
    DamagedBytes(local, central, stored, i, x, k, w, end, a, at);
    AllReadable(local, central, stored[i := x]);
    AssembledReads(local, central, stored[i := x], end);
  }

  lemma RecordsReadAndDamage(s: Stored)
    requires FieldsFit(s)
    ensures ReadsAndDamages(LocalRecord, CentralRecord, s)
  {
    LocalRecordReads(s);
    forall offset: nat | offset <= 0xffff_ffff
      ensures ReadsAsCentral(CentralRecord(s, offset), s, offset)
    {
      CentralRecordReads(s, offset);
    }
  }

  /** What the format promises of every record. */
  ghost predicate IsFormat(local: Stored -> Bytes, central: (Stored, nat) -> Bytes) {
    && (forall s: Stored | FieldsFit(s) :: ReadsAndDamages(local, central, s))
    && (forall s: Stored, p: nat, w: Bytes | p + |w| <= |s.data| ::
          Damages(local, central, s, WithData(s, Overwritten(s.data, p, w)), 30 + |s.name| + p, w))
  }

  lemma ThisIsAFormat()
    ensures IsFormat(LocalRecord, CentralRecord)
  {
    forall s | FieldsFit(s)
      ensures ReadsAndDamages(LocalRecord, CentralRecord, s)
    {
      RecordsReadAndDamage(s);
    }
    forall s: Stored, p: nat, w: Bytes | p + |w| <= |s.data|
      ensures Damages(LocalRecord, CentralRecord, s, WithData(s, Overwritten(s.data, p, w)), 30 + |s.name| + p, w)
    {
      DamagedRecord(s, p, w);
    }
  }

  lemma EndOfArchive(stored: seq<Stored>)
    requires WithinFields(stored)
    ensures |EndRecord(stored)| == 22
    ensures EndFieldsAre(EndFields(EndRecord(stored)), |stored|, |CentralData(stored)|, |LocalData(stored)|)
  {
    EndRecordFields(|stored|, |CentralData(stored)|, |LocalData(stored)|);
  }

  lemma DamagedInFormat(local: Stored -> Bytes, central: (Stored, nat) -> Bytes, stored: seq<Stored>,
                                           i: nat, p: nat, w: Bytes, end: Bytes, a: Bytes, at: nat)
    requires IsFormat(local, central) && i < |stored| && p + |w| <= |stored[i].data|
    requires a == Assembled(local, central, stored, end)
    requires at == |ArchiveLayout.Locals(local, stored[..i])| + (30 + |stored[i].name| + p)
    requires (forall j | 0 <= j < |stored| :: FieldsFit(stored[j])) && |ArchiveLayout.Locals(local, stored)| <= 0xffff_ffff
    requires |end| == 22 && EndFieldsAre(EndFields(end), |stored|, |ArchiveLayout.Centrals(local, central, stored)|,
                                         |ArchiveLayout.Locals(local, stored)|)
    ensures at + |w| <= |a|
    ensures ReadArchive(Overwritten(a, at, w)) == Some(stored[i := WithData(stored[i], Overwritten(stored[i].data, p, w))])
  {
    var x, k := WithData(stored[i], Overwritten(stored[i].data, p, w)), 30 + |stored[i].name| + p;
    assert FieldsFit(x);
    DamagedDirectory(local, central, stored, i, x, k, w, end, a, at);
  }

  /** Where byte `p` of entry `i`'s data is in the archive. */
  function DataPosition(stored: seq<Stored>, i: nat, p: nat): nat
    requires i < |stored|
  {
    |LocalData(stored[..i])| + (30 + |stored[i].name| + p)
  }

  lemma ArchiveIsAssembled(stored: seq<Stored>, i: nat, p: nat)
    requires i < |stored|
    ensures Archive(stored) == Assembled(LocalRecord, CentralRecord, stored, EndRecord(stored))
    ensures DataPosition(stored, i, p) == |ArchiveLayout.Locals(LocalRecord, stored[..i])| + (30 + |stored[i].name| + p)
  {
  }

  lemma DamagedAt(stored: seq<Stored>, i: nat, p: nat, w: Bytes, a: Bytes, at: nat)
    requires WithinFields(stored) && i < |stored| && p + |w| <= |stored[i].data|
    requires a == Assembled(LocalRecord, CentralRecord, stored, EndRecord(stored))
    requires at == |ArchiveLayout.Locals(LocalRecord, stored[..i])| + (30 + |stored[i].name| + p)
    ensures at + |w| <= |a|
    ensures ReadArchive(Overwritten(a, at, w)) == Some(stored[i := WithData(stored[i], Overwritten(stored[i].data, p, w))])
  {
    ThisIsAFormat();
    EndOfArchive(stored);
    DamagedInFormat(LocalRecord, CentralRecord, stored, i, p, w, EndRecord(stored), a, at);
  }

  /** The damaged archive still parses, to the changed data under the old checksum. */
  lemma DamagedReads(stored: seq<Stored>, i: nat, p: nat, w: Bytes)
    requires WithinFields(stored) && i < |stored| && p + |w| <= |stored[i].data|
    ensures DataPosition(stored, i, p) + |w| <= |Archive(stored)|
    ensures ReadArchive(Overwritten(Archive(stored), DataPosition(stored, i, p), w)) ==
            Some(stored[i := WithData(stored[i], Overwritten(stored[i].data, p, w))])
  {
    ArchiveIsAssembled(stored, i, p);
    DamagedAt(stored, i, p, w, Archive(stored), DataPosition(stored, i, p));
  }

  lemma {:induction false} WrongChecksumRefused(stored: seq<Stored>, i: nat)
    requires i < |stored| && Crc32.Checksum(stored[i].data) != stored[i].checksum
    ensures Verified(stored) == None
    decreases |stored|
  {
    if i < |stored| - 1 {
      WrongChecksumRefused(stored[..|stored| - 1], i);
    }
  }

  lemma DamagedChecksum(data: Bytes, p: nat, w: Bytes)
    requires p + |w| <= |data| && |w| <= 4 && data[p..p + |w|] != w
    requires (forall k | 0 <= k < |data| :: data[k] < 256) && (forall k | 0 <= k < |w| :: w[k] < 256)
    ensures Crc32.Checksum(Overwritten(data, p, w)) != Crc32.Checksum(data)
  {
    assert data == data[..p] + data[p..p + |w|] + data[p + |w|..];
    Crc32.BytesChangeChecksum(data[..p], data[p..p + |w|], w, data[p + |w|..]);
  }

  /**
    Writing up to four other bytes anywhere inside one entry's data is always noticed: the
    archive still parses, and extraction refuses it.
   */
  lemma DamageIsNoticed(nfc: Bytes -> bool, entries: seq<Entry>, i: nat, p: nat, w: Bytes)
    requires NamesAccepted(nfc, entries) && SizesAccepted(entries) && i < |entries|
    requires p + |w| <= |entries[i].data| && |w| <= 4 && entries[i].data[p..p + |w|] != w
    requires (forall k | 0 <= k < |entries[i].data| :: entries[i].data[k] < 256) && (forall k | 0 <= k < |w| :: w[k] < 256)
    ensures var a := Archive(Checksummed(entries));
            var at := DataPosition(Checksummed(entries), i, p);
            && at + |w| <= |a| && ReadArchive(Overwritten(a, at, w)).Some? && Extract(Overwritten(a, at, w)) == None
  {
    var stored := Checksummed(entries);
    ChecksummedAt(entries, i);
    AcceptedIsWithinFields(nfc, entries);
    DamagedChecksum(entries[i].data, p, w);
    DamagedExtract(stored, i, p, w);
  }

  lemma DamagedExtract(stored: seq<Stored>, i: nat, p: nat, w: Bytes)
    requires WithinFields(stored) && i < |stored| && p + |w| <= |stored[i].data|
    requires Crc32.Checksum(Overwritten(stored[i].data, p, w)) != stored[i].checksum
    ensures var at := DataPosition(stored, i, p);
            && at + |w| <= |Archive(stored)|
            && ReadArchive(Overwritten(Archive(stored), at, w)).Some? && Extract(Overwritten(Archive(stored), at, w)) == None
  {
    DamagedReads(stored, i, p, w);
    WrongChecksumRefused(stored[i := WithData(stored[i], Overwritten(stored[i].data, p, w))], i);
  }
}
