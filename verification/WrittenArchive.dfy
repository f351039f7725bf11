/**
 * The writer in front of the preflight: exactly which archives of `makeZip`, and of a writer that
 * also marks its names as UTF-8, `preflightCandidateZip` accepts, and what it reports of them.
 */
module WrittenArchive {
  import opened Wrappers
  import opened ZipBytes
  import opened StoredZip
  import opened CandidateZip
  import opened CandidatePreflight
  import opened SlashPaths
  import opened EntryRecords
  import opened EntryArchives
  import Crc32
  import Utf8

  // ---- files as entries --------------------------------------------------------------------------

  /** A file as `makeZip` writes it, stored and with no host, but with any general purpose flags. */
  function EntryOf(flags: nat, f: File): Entry
  {
    Entry(NameBytes(f), f.data, |f.data|, Crc32.Crc(f.data), 0, flags, 0, 0)
  }

  function EntriesOf(flags: nat, fs: seq<File>): (es: seq<Entry>)
    ensures |es| == |fs|
  {
    seq(|fs|, i requires 0 <= i < |fs| => EntryOf(flags, fs[i]))
  }

  function ArchiveWith(flags: nat, fs: seq<File>): Bytes { ArchiveOf(EntriesOf(flags, fs)) }

  /** The rows the preflight reports for a written archive. */
  function WrittenRows(flags: nat, fs: seq<File>): seq<Row> { EntryRows(EntriesOf(flags, fs)) }

  /** No flag, or the one that says the name is UTF-8. */
  predicate NameFlags(flags: nat) { flags == 0 || flags == 0x800 }

  /** The name as the strict decoder reports it. */
  function Raw(f: File): string
  {
    if StoredName(f) != [] && StoredName(f)[0] == Utf8.BOM then StoredName(f)[1..] else StoredName(f)
  }

  function Raws(fs: seq<File>): seq<string> { seq(|fs|, i requires 0 <= i < |fs| => Raw(fs[i])) }

  /** The conditions on one file: its name and how the flags announce it, and its size. */
  predicate FilePasses(policy: Policy, l: Limits, flags: nat, f: File)
  {
    && NameBytes(f) != [] && (flags == 0x800 || Ascii(NameBytes(f))) && policy.safe(Raw(f))
    && |f.data| <= l.fileBytes && (IsDirectory(Raw(f)) ==> f.data == [])
  }

  lemma {:induction false} RawDecoded(flags: nat, f: File)
    ensures Utf8.FatalDecode(NameBytes(f)) == Some(Raw(f)) && Decoded(EntryOf(flags, f)) == Raw(f)
  {
    Utf8.DecodeEncoded(StoredName(f));
  }

  lemma {:induction false} Ratio(n: nat, r: nat)
    requires r >= 1
    ensures n <= (if n == 0 then 1 else n) * r
  {
  }

  lemma {:induction false} FilePassesIff(policy: Policy, l: Limits, flags: nat, f: File)
    requires NameFlags(flags) && l.ratio >= 1
    ensures Passes(policy, l, EntryOf(flags, f)) <==> FilePasses(policy, l, flags, f)
  {
    hide NameBytes, Raw, Utf8.FatalDecode, Crc32.Crc, IsDirectory, Ascii, Decoded;
    RawDecoded(flags, f);
    Ratio(|f.data|, l.ratio);
    FileKind(flags, f);
  }

  lemma {:induction false} FileKind(flags: nat, f: File)
    requires NameFlags(flags)
    ensures MethodPasses(EntryOf(flags, f)) && !Described(EntryOf(flags, f))
    ensures forall directory :: KindPasses(EntryOf(flags, f), directory)
    ensures flags / 0x800 % 2 == 1 <==> flags == 0x800
  {
    hide NameBytes, Crc32.Crc;
    assert 0x800 / 8 % 2 == 0 && 0x800 % 0x800 == 0;
  }

  lemma {:induction false} FileRepresentable(flags: nat, f: File)
    requires NameFlags(flags) && |NameBytes(f)| < TWO16 && |f.data| < TWO32
    ensures Representable(EntryOf(flags, f))
  {
    hide NameBytes, Crc32.Crc;
    Crc32.CrcBound(f.data);
  }

  // ---- archives of files -------------------------------------------------------------------------

  /** The conditions on the files of a written archive. */
  ghost predicate Acceptable(names: Names, l: Limits, flags: nat, fs: seq<File>)
  {
    && Tightened(l) && |ArchiveWith(flags, fs)| <= l.archiveBytes
    && 0 < |fs| <= l.entries && (forall f :: f in fs ==> FilePasses(PolicyOf(names, l), l, flags, f))
    && TotalInput(fs) <= l.totalBytes && NamesAgree(names.lower, Raws(fs))
  }

  lemma {:induction false} EntriesFirst(flags: nat, fs: seq<File>)
    requires fs != []
    ensures EntriesOf(flags, fs)[0] == EntryOf(flags, fs[0]) && EntriesOf(flags, fs)[1..] == EntriesOf(flags, fs[1..])
  {
    hide EntryOf;
  }

  lemma {:induction false} TotalOfEntries(flags: nat, fs: seq<File>)
    ensures TotalExpanded(EntriesOf(flags, fs)) == TotalInput(fs)
    decreases |fs|
  {
    hide NameBytes;
    if fs != [] {
      EntriesFirst(flags, fs);
      TotalOfEntries(flags, fs[1..]);
    }
  }

  lemma {:induction false} SmallFiles(flags: nat, fs: seq<File>)
    requires |LocalsFrom(EntriesOf(flags, fs))| < TWO32
    ensures forall f :: f in fs ==> |f.data| < TWO32
    decreases |fs|
  {
    hide LocalOfEntry, NameBytes;
    if fs != [] {
      EntriesFirst(flags, fs);
      RecordLengths(EntryOf(flags, fs[0]), 0);
      assert |fs[0].data| <= |LocalOfEntry(EntryOf(flags, fs[0]))|;
      SmallFiles(flags, fs[1..]);
      assert forall f :: f in fs <==> f == fs[0] || f in fs[1..];
    }
  }

  lemma {:induction false} AcceptableIff(names: Names, l: Limits, flags: nat, fs: seq<File>)
    requires NameFlags(flags)
    ensures Acceptable(names, l, flags, fs) <==> AcceptableEntries(names, l, EntriesOf(flags, fs))
  {
    hide NamesAgree, Passes, FilePasses, Raw, PolicyOf, ArchiveOf, TotalInput, TotalExpanded, EntryOf, Decoded;
    var es := EntriesOf(flags, fs);
    TotalOfEntries(flags, fs);
    forall i | 0 <= i < |fs|
      ensures Decoded(es[i]) == Raw(fs[i])
      ensures l.ratio >= 1 ==> (Passes(PolicyOf(names, l), l, es[i]) <==> FilePasses(PolicyOf(names, l), l, flags, fs[i]))
    {
      RawDecoded(flags, fs[i]);
      if l.ratio >= 1 {
        FilePassesIff(PolicyOf(names, l), l, flags, fs[i]);
      }
    }
    assert NamesOf(es) == Raws(fs);
    if Tightened(l) {
      AllPassIff(PolicyOf(names, l), l, flags, fs);
    }
  }

  lemma {:induction false} AllPassIff(policy: Policy, l: Limits, flags: nat, fs: seq<File>)
    requires NameFlags(flags) && l.ratio >= 1
    ensures AllPass(policy, l, EntriesOf(flags, fs)) <==> forall f :: f in fs ==> FilePasses(policy, l, flags, f)
  {
    hide Passes, FilePasses, EntryOf;
    var es := EntriesOf(flags, fs);
    forall f | f in fs ensures EntryOf(flags, f) in es {
      var i :| 0 <= i < |fs| && fs[i] == f;
      assert es[i] == EntryOf(flags, f);
    }
    forall f | f in fs ensures Passes(policy, l, EntryOf(flags, f)) <==> FilePasses(policy, l, flags, f) {
      FilePassesIff(policy, l, flags, f);
    }
    forall e | e in es ensures exists f :: f in fs && e == EntryOf(flags, f) {
      var i :| 0 <= i < |es| && es[i] == e;
      assert fs[i] in fs;
    }
  }

  /**
   * The preflight accepts a written archive exactly under these conditions on its files, and then
   * reports them as they were written.
   */
  lemma {:induction false} FlaggedIff(
      names: Names, l: Limits, flags: nat, fs: seq<File>, b: Bytes, end: nat, rows: seq<Row>)
    requires b == ArchiveWith(flags, fs) && NameFlags(flags) && |fs| < 0xffff && forall f :: f in fs ==> |NameBytes(f)| < TWO16
    ensures Accepted(names, l, b, end, rows)
            <==> Acceptable(names, l, flags, fs) && end == |b| - 22 && rows == WrittenRows(flags, fs)
  {
    hide Accepted, Acceptable, AcceptableEntries, EntryRows, NameBytes, EntryOf, Representable, NameFlags, Pack, LocalsFrom,
         CentralsFrom;
    var es := EntriesOf(flags, fs);
    AcceptableIff(names, l, flags, fs);
    if |b| < TWO32 {
      assert |LocalsFrom(es)| <= |b|;
      SmallFiles(flags, fs);
      forall e | e in es ensures Representable(e) {
        var i :| 0 <= i < |es| && es[i] == e;
        assert fs[i] in fs;
        FileRepresentable(flags, fs[i]);
      }
      EntryArchives.AcceptedIff(names, l, es, b, end, rows);
    } else {
      TooLong(names, l, flags, fs, b, end, rows);
    }
  }

  lemma {:induction false} TooLong(
      names: Names, l: Limits, flags: nat, fs: seq<File>, b: Bytes, end: nat, rows: seq<Row>)
    requires b == ArchiveWith(flags, fs) && |b| >= TWO32
    ensures !Accepted(names, l, b, end, rows) && !Acceptable(names, l, flags, fs)
  {
    hide ArchiveWith, NamesAgree, FilePasses, EndSound, LastEnd, CandidatePreflight.Listed, ListSound;
  }

  // ---- the archives of makeZip -------------------------------------------------------------------

  lemma {:induction false} SameRecords(f: File, offset: nat)
    ensures ZipLayout().local(f) == LocalOfEntry(EntryOf(0, f))
    ensures ZipLayout().central(f, offset) == CentralOfEntry(EntryOf(0, f), offset)
  {
    hide NameBytes, Crc32.Crc;
    var e := EntryOf(0, f);
    assert LocalFieldsOf(e) == LocalOf(f) && CentralFieldsOf(e, offset) == StoredZip.CentralOf(f, offset);
    assert !Described(e) && e.stored + [] == e.stored;
  }

  lemma {:induction false} SameLocals(fs: seq<File>)
    ensures LocalsIn(ZipLayout(), fs) == LocalsFrom(EntriesOf(0, fs))
    decreases |fs|
  {
    hide ZipLayout, LocalOfEntry, EntryOf;
    if fs != [] {
      EntriesFirst(0, fs);
      SameRecords(fs[0], 0);
      SameLocals(fs[1..]);
    }
  }

  lemma {:induction false} SameCentrals(fs: seq<File>, offset: nat)
    ensures CentralsIn(ZipLayout(), fs, offset) == CentralsFrom(EntriesOf(0, fs), offset)
    decreases |fs|
  {
    hide ZipLayout, LocalOfEntry, CentralOfEntry, EntryOf;
    if fs != [] {
      EntriesFirst(0, fs);
      SameRecords(fs[0], offset);
      SameCentrals(fs[1..], offset + |ZipLayout().local(fs[0])|);
    }
  }

  lemma {:induction false} AsciiChar(c: char)
    ensures Ascii(Utf8.EncodeChar(c)) <==> c as int < 0x80
  {
    var b := Utf8.EncodeChar(c);
    assert b[0] in b;
    assert c as int < 0x80 ==> forall x :: x in b ==> x == b[0];
  }

  predicate AsciiText(s: string) { forall c :: c in s ==> c as int < 0x80 }

  lemma {:induction false} AsciiFirst(s: string)
    requires s != []
    ensures AsciiText(s) <==> s[0] as int < 0x80 && AsciiText(s[1..])
  {
    assert s[0] in s;
    forall c ensures c in s <==> c == s[0] || c in s[1..] {
      assert s == [s[0]] + s[1..];
    }
  }

  lemma {:induction false} AsciiNone()
    ensures Ascii([])
  {
  }

  lemma {:induction false} AsciiAppend(a: Bytes, b: Bytes)
    ensures Ascii(a + b) <==> Ascii(a) && Ascii(b)
  {
    assert forall x :: x in a + b <==> x in a || x in b;
  }

  lemma {:induction false} AsciiString(s: string)
    ensures Ascii(Utf8.Encode(s)) <==> AsciiText(s)
    decreases |s|
  {
    hide Utf8.EncodeChar, Ascii;
    if s == [] {
      AsciiNone();
    } else {
      AsciiChar(s[0]);
      AsciiString(s[1..]);
      AsciiAppend(Utf8.EncodeChar(s[0]), Utf8.Encode(s[1..]));
      AsciiFirst(s);
    }
  }

  /** The conditions on one file of `makeZip`, which sets no flag: an ASCII name that passes, a size within the limit. */
  predicate PlainPasses(names: Names, l: Limits, f: File)
  {
    && AsciiText(StoredName(f)) && SafePath(names, l, StoredName(f))
    && |f.data| <= l.fileBytes && (IsDirectory(StoredName(f)) ==> f.data == [])
  }

  lemma {:induction false} PlainPassesIff(names: Names, l: Limits, f: File)
    ensures FilePasses(PolicyOf(names, l), l, 0, f) <==> PlainPasses(names, l, f)
    ensures PlainPasses(names, l, f) ==> Raw(f) == StoredName(f)
  {
    AsciiString(StoredName(f));
    if StoredName(f) != [] {
      assert StoredName(f)[0] in StoredName(f);
    }
  }

  function StoredNames(fs: seq<File>): seq<string> { seq(|fs|, i requires 0 <= i < |fs| => StoredName(fs[i])) }

  /** The conditions on all files of an archive of `makeZip`. */
  ghost predicate Presentable(names: Names, l: Limits, fs: seq<File>)
  {
    && Tightened(l) && |Archive(fs)| <= l.archiveBytes
    && 0 < |fs| <= l.entries && (forall f :: f in fs ==> PlainPasses(names, l, f))
    && TotalInput(fs) <= l.totalBytes && NamesAgree(names.lower, StoredNames(fs))
  }

  lemma {:induction false} PresentableIff(names: Names, l: Limits, fs: seq<File>)
    ensures Archive(fs) == ArchiveWith(0, fs)
    ensures Presentable(names, l, fs) <==> Acceptable(names, l, 0, fs)
  {
    hide NamesAgree, FilePasses, PlainPasses, Raw, PolicyOf, Pack, ZipLayout, LocalsIn, CentralsIn, LocalsFrom, CentralsFrom, TotalInput,
         StoredName, EntryOf;
    SameLocals(fs);
    SameCentrals(fs, 0);
    forall f | f in fs
      ensures FilePasses(PolicyOf(names, l), l, 0, f) <==> PlainPasses(names, l, f)
      ensures PlainPasses(names, l, f) ==> Raw(f) == StoredName(f)
    {
      PlainPassesIff(names, l, f);
    }
    if forall f :: f in fs ==> PlainPasses(names, l, f) {
      assert Raws(fs) == StoredNames(fs) by {
        assert forall i :: 0 <= i < |fs| ==> fs[i] in fs;
      }
    }
  }

  /**
   * `preflightCandidateZip` accepts an archive of `makeZip` exactly when it is not empty, every name
   * is ASCII and passes, the names agree up to case, and all sizes are within the limits.
   */
  lemma {:induction false} WrittenIff(names: Names, l: Limits, fs: seq<File>, end: nat, rows: seq<Row>)
    requires StoredZip.Fits(fs) && forall f :: f in fs ==> |NameBytes(f)| < TWO16
    ensures Accepted(names, l, Archive(fs), end, rows)
            <==> Presentable(names, l, fs) && end == |Archive(fs)| - 22 && rows == WrittenRows(0, fs)
  {
    hide Accepted, Acceptable, Presentable, Archive, ArchiveWith, NameBytes, WrittenRows, TotalInput;
    PresentableIff(names, l, fs);
    FlaggedIff(names, l, 0, fs, Archive(fs), end, rows);
  }
}
