/**
 * The writer and both readers together: an archive of `makeZip` that the preflight accepts is read
 * alike by both, unless it has directories; and one archive that marks its name as UTF-8 is
 * accepted and read differently.
 */
module ArchiveReaders {
  import opened Wrappers
  import opened ZipBytes
  import opened StoredZip
  import opened CandidateZip
  import opened CandidatePreflight
  import opened EntryRecords
  import opened EntryArchives
  import opened WrittenArchive
  import SlashPaths
  import Utf8
  import ZipAgreement
  import ZipRoundTrip

  // ---- one archive, two readings -----------------------------------------------------------------

  const MARKED_NAME: string := [Utf8.BOM, 'a']

  /** One file, its name marked with the UTF-8 flag and led by a byte order mark. */
  function MarkedArchive(data: Bytes): Bytes { ArchiveWith(0x800, [File(MARKED_NAME, data)]) }

  lemma {:induction false} MarkedFile(data: Bytes)
    ensures var f := File(MARKED_NAME, data);
            StoredName(f) == MARKED_NAME && NameBytes(f) == [0xEF, 0xBB, 0xBF, 0x61] && Raw(f) == "a"
  {
    var s := MARKED_NAME;
    assert Slashed(s) == s;
    assert s[1..] == ['a'] && s[1..][1..] == [];
    assert Utf8.Encode(s[1..]) == [0x61];
    assert Utf8.Encode(s) == [0xEF, 0xBB, 0xBF, 0x61];
  }

  lemma {:induction false} PlainNameSafe(names: Names)
    requires names.nfc("a") && !names.reserved("a")
    ensures SafePath(names, CANDIDATE_LIMITS, "a") && !IsDirectory("a") && PathOf("a") == "a" && PartsOf("a") == ["a"]
  {
    SlashPaths.SplitWord("a");
    assert "a"[1..] == "";
    assert Utf8.Encode("a") == [0x61];
    assert SafePart(names, "a");
  }

  lemma {:induction false} OneNameAgrees(lower: string -> string)
    requires PathOf("a") == "a" && PartsOf("a") == ["a"]
    ensures NamesAgree(lower, ["a"])
  {
    forall x, y, i: nat, j: nat |
        x in ["a"] && y in ["a"] && 1 <= i <= |PartsOf(x)| && 1 <= j <= |PartsOf(y)|
      ensures Ancestor(x, i) == Ancestor(y, j)
    {
      assert x == "a" && y == "a" && i == 1 && j == 1;
    }
  }

  function MarkedEntry(data: Bytes): Entry { EntryOf(0x800, File(MARKED_NAME, data)) }

  lemma {:induction false} MarkedEntryIs(data: Bytes)
    ensures EntriesOf(0x800, [File(MARKED_NAME, data)]) == [MarkedEntry(data)]
    ensures |MarkedEntry(data).name| == 4 && MarkedEntry(data).stored == data && !Described(MarkedEntry(data))
  {
    hide NameBytes;
    MarkedFile(data);
    FileKind(0x800, File(MARKED_NAME, data));
  }

  lemma {:induction false} MarkedSize(data: Bytes)
    ensures |MarkedArchive(data)| == 106 + |data|
  {
    hide Pack, NameBytes, LocalOfEntry, CentralOfEntry;
    var e := MarkedEntry(data);
    RecordLengths(e, 0);
    MarkedEntryIs(data);
    assert [e][1..] == [];
    assert LocalsFrom([e]) == LocalOfEntry(e) + [] && CentralsFrom([e], 0) == CentralOfEntry(e, 0) + [];
    var fields := EndFields(1, |CentralsFrom([e], 0)|, |LocalsFrom([e])|);
    SizeIsEnd(fields);
    assert FieldStart(fields, 1) == 4;
    assert FieldStart(fields, 2) == 6;
    assert FieldStart(fields, 3) == 8;
    assert FieldStart(fields, 4) == 10;
    assert FieldStart(fields, 5) == 12;
    assert FieldStart(fields, 6) == 16;
    assert FieldStart(fields, 7) == 20;
  }

  /** The preflight accepts the archive and reports its file as `a`. */
  lemma {:induction false} MarkedAccepted(names: Names, data: Bytes)
    requires names.nfc("a") && !names.reserved("a") && |data| <= CANDIDATE_LIMITS.fileBytes
    ensures var b := MarkedArchive(data);
            Accepted(names, CANDIDATE_LIMITS, b, |b| - 22, WrittenRows(0x800, [File(MARKED_NAME, data)]))
  {
    hide Accepted, NamesAgree, NameBytes, Raw, SafePath, WrittenRows, ArchiveWith;
    var f, b := File(MARKED_NAME, data), MarkedArchive(data);
    MarkedFile(data);
    MarkedSize(data);
    PlainNameSafe(names);
    OneNameAgrees(names.lower);
    assert Raws([f]) == ["a"];
    assert TotalInput([f]) == |data| by { assert [f][1..] == []; }
    assert FilePasses(PolicyOf(names, CANDIDATE_LIMITS), CANDIDATE_LIMITS, 0x800, f);
    FlaggedIff(names, CANDIDATE_LIMITS, 0x800, [f], b, |b| - 22, WrittenRows(0x800, [f]));
  }

  lemma {:induction false} MarkedNameSafe(lossy: Bytes -> string)
    ensures SafeName(MARKED_NAME) && Shown(lossy, [0xEF, 0xBB, 0xBF, 0x61]) == MARKED_NAME
  {
    ZipAgreement.MarkIsDropped();
    SlashPaths.SplitWord(MARKED_NAME);
    assert MARKED_NAME[1..][1..] == [];
  }

  /** The one row of the archive, and the bytes it points at. */
  lemma {:induction false} MarkedRow(data: Bytes)
    ensures var f, b := File(MARKED_NAME, data), MarkedArchive(data);
            var rows := WrittenRows(0x800, [f]);
            && |rows| == 1 && rows[0].raw == "a" && rows[0].nameBytes == [0xEF, 0xBB, 0xBF, 0x61]
            && rows[0].c.flags == 0x800 && rows[0].c.compression == 0 && rows[0].c.expanded == |data|
            && ZipAgreement.DataOf(b, rows[0]) == data
  {
    hide Pack, NameBytes, Raw, U16, U32, CentralsFrom;
    var f, b := File(MARKED_NAME, data), MarkedArchive(data);
    var e := MarkedEntry(data);
    MarkedFile(data);
    MarkedSize(data);
    MarkedEntryIs(data);
    RawDecoded(0x800, f);
    RecordLengths(e, 0);
    assert [e][1..] == [];
    var head := Pack(LocalFieldsOf(e)) + e.name;
    assert e.stored + DescriptorOf(e) == data;
    assert LocalsFrom([e]) == LocalOfEntry(e) + [] == head + data;
    assert |head| == 34;
    assert b[34..34 + |data|] == data;
    assert EntryRows([e]) == [RowOf(e, |LocalsFrom([e])|, 0)];
  }

  /** What the walk of the local records makes of one row. */
  lemma {:induction false} OneRowWalk(lossy: Bytes -> string, b: Bytes, row: Row)
    ensures ZipAgreement.SortRows([row]) == [row]
    ensures !HasDescriptor(row.c) && row.c.compression == 0 ==>
              ZipAgreement.TakeAll(ReaderRules(lossy), b, [row], map[])
              == Accept(ReaderRules(lossy), Shown(lossy, row.nameBytes), ZipAgreement.DataOf(b, row), row.c.expanded, map[])
  {
    hide Accept, Shown, ZipAgreement.DataOf, SafeName;
    assert [row][1..] == [];
    assert ZipAgreement.SortRows([]) == [];
  }

  lemma {:induction false} AcceptOne(lossy: Bytes -> string, name: string, data: Bytes)
    requires SafeName(name)
    ensures Accept(ReaderRules(lossy), name, data, |data|, map[]) == Ok(map[name := data])
  {
    hide SafeName;
  }

  /**
   * An archive the preflight accepts, whose only file it calls `a`, while the other reader gives
   * that file back under the name with the mark: whatever the data, the two do not agree.
   */
  lemma {:induction false} ReadDifferently(names: Names, lossy: Bytes -> string, data: Bytes)
    returns (b: Bytes, end: nat, rows: seq<Row>)
    requires names.nfc("a") && !names.reserved("a") && |data| <= CANDIDATE_LIMITS.fileBytes
    ensures b == MarkedArchive(data) && Accepted(names, CANDIDATE_LIMITS, b, end, rows)
    ensures |rows| == 1 && Path(rows[0]) == "a" && rows[0].c.expanded == |data|
    ensures !ZipAgreement.Agrees(lossy, b, rows)
    ensures Parse(lossy, b) == Ok(map[MARKED_NAME := data])
  {
    hide Accepted, ZipAgreement.Agrees, ZipAgreement.DataOf, ZipAgreement.AllAgree, ZipAgreement.SortRows, Parse,
         MarkedArchive, WrittenRows, SafeName, Shown, Accept, ZipAgreement.TakeAll, ReaderRules, PathOf;
    b, rows := MarkedArchive(data), WrittenRows(0x800, [File(MARKED_NAME, data)]);
    MarkedSize(data);
    end := |b| - 22;
    MarkedRow(data);
    PlainNameSafe(names);
    MarkedAccepted(names, data);
    ZipAgreement.MarkedNameDisagrees(names, CANDIDATE_LIMITS, lossy, b, end, rows, 0);
    assert rows == [rows[0]];
    OneRowWalk(lossy, b, rows[0]);
    ZipAgreement.AcceptedAgree(names, CANDIDATE_LIMITS, lossy, b, end, rows);
    ZipAgreement.WalkAccepted(names, CANDIDATE_LIMITS, lossy, b, end, rows);
    MarkedNameSafe(lossy);
    AcceptOne(lossy, MARKED_NAME, data);
  }

  // ---- written archives are read alike -----------------------------------------------------------

  lemma {:induction false} WrittenRow(flags: nat, fs: seq<File>, i: nat)
    requires i < |fs|
    ensures |WrittenRows(flags, fs)| == |fs|
    ensures var row := WrittenRows(flags, fs)[i];
            && row.raw == Raw(fs[i]) && row.nameBytes == NameBytes(fs[i])
            && row.c.flags == flags && row.c.compression == 0 && row.c.compressed == row.c.expanded == |fs[i].data|
  {
    hide NameBytes, Raw, RowsOf, Decoded;
    var es := EntriesOf(flags, fs);
    EntryRow(es, |LocalsFrom(es)|, 0, i);
    RawDecoded(flags, fs[i]);
  }

  lemma {:induction false} EntryRow(es: seq<Entry>, p: nat, local: nat, i: nat)
    requires i < |es|
    ensures var row := RowsOf(es, p, local)[i];
            && row.raw == Decoded(es[i]) && row.nameBytes == es[i].name
            && row.c.flags == es[i].flags && row.c.compression == es[i].method_
            && row.c.compressed == |es[i].stored| && row.c.expanded == es[i].expanded
    decreases i
  {
    hide Decoded, AfterCentral, AfterLocal;
    if i > 0 {
      EntryRow(es[1..], AfterCentral(es[0], p), AfterLocal(es[0], local), i - 1);
    }
  }

  ghost predicate NoDirectories(fs: seq<File>) { forall f :: f in fs ==> !IsDirectory(StoredName(f)) }

  lemma {:induction false} PresentableReadable(names: Names, l: Limits, fs: seq<File>)
    requires StoredZip.Fits(fs) && forall f :: f in fs ==> PlainPasses(names, l, f)
    ensures ZipAgreement.Readable(WrittenRows(0, fs)) <==> NoDirectories(fs)
  {
    hide NameBytes, Raw, PlainPasses, IsDirectory, WrittenRows, StoredName;
    var rows := WrittenRows(0, fs);
    if fs != [] {
      WrittenRow(0, fs, 0);
    } else {
      assert rows == [] by { NoRowsWritten(); }
    }
    forall i | 0 <= i < |fs|
      ensures ZipAgreement.Plain(rows[i]) && rows[i].raw == StoredName(fs[i])
      ensures !ZipAgreement.StartsWithMark(rows[i].nameBytes)
    {
      WrittenRow(0, fs, i);
      assert fs[i] in fs;
      PlainPassesIff(names, l, fs[i]);
      AsciiUnmarked(names, l, fs[i]);
    }
    assert forall f :: f in fs ==> exists i :: 0 <= i < |fs| && fs[i] == f;
  }

  lemma {:induction false} NoRowsWritten()
    ensures WrittenRows(0, []) == []
  {
  }

  lemma {:induction false} AsciiUnmarked(names: Names, l: Limits, f: File)
    requires PlainPasses(names, l, f)
    ensures !ZipAgreement.StartsWithMark(NameBytes(f))
  {
    AsciiString(StoredName(f));
    if NameBytes(f) != [] {
      assert NameBytes(f)[0] in NameBytes(f);
    }
  }

  /**
   * What `makeZip` writes and the preflight accepts is read alike by both readers, exactly when no
   * name is that of a directory.
   */
  lemma {:induction false} WrittenReadAlike(names: Names, l: Limits, lossy: Bytes -> string, fs: seq<File>)
    requires StoredZip.Fits(fs) && (forall f :: f in fs ==> |NameBytes(f)| < TWO16) && Presentable(names, l, fs)
    ensures |Archive(fs)| >= 22 && Accepted(names, l, Archive(fs), |Archive(fs)| - 22, WrittenRows(0, fs))
    ensures ZipAgreement.Agrees(lossy, Archive(fs), WrittenRows(0, fs)) <==> NoDirectories(fs)
  {
    hide ZipAgreement.Agrees, ZipAgreement.Readable, NameBytes, PlainPasses, NamesAgree, Locals, Centrals, Pack,
         WrittenRows, Accepted, TotalInput;
    assert |Archive(fs)| >= 22 by { EndSize(fs); }
    WrittenIff(names, l, fs, |Archive(fs)| - 22, WrittenRows(0, fs));
    ZipAgreement.ReadersAgree(names, l, lossy, Archive(fs), |Archive(fs)| - 22, WrittenRows(0, fs));
    PresentableReadable(names, l, fs);
  }

  lemma {:induction false} EndSize(fs: seq<File>)
    ensures |Archive(fs)| >= 22
  {
    hide Pack;
    ZipRoundTrip.EndLength(EndFields(|fs|, |Centrals(fs)|, |Locals(fs)|), |fs|, |Centrals(fs)|, |Locals(fs)|);
  }
}
