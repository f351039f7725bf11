/**
 * Reading back what `makeZip` wrote: exactly the files, or exactly the reader's objection to
 * them. The local records are what the reader walks; the central directory and the end record
 * are shown to describe the same members, at the offsets where they were written.
 */
module ZipRoundTrip {
  import opened Wrappers
  import opened ZipBytes
  import opened JsText
  import opened StoredZip
  import Crc32
  import Utf8

  // ---- one record ----------------------------------------------------------------------------

  lemma {:induction false} LocalLength(fs: seq<Field>, crc: nat, size: nat, nameLength: nat)
    requires fs == LocalFields(crc, size, nameLength)
    ensures Size(fs) == 30
  {
    SizeIsEnd(fs);
    assert FieldStart(fs, 1) == 4;
    assert FieldStart(fs, 2) == 6;
    assert FieldStart(fs, 3) == 8;
    assert FieldStart(fs, 4) == 10;
    assert FieldStart(fs, 5) == 12;
    assert FieldStart(fs, 6) == 14;
    assert FieldStart(fs, 7) == 18;
    assert FieldStart(fs, 8) == 22;
    assert FieldStart(fs, 9) == 26;
    assert FieldStart(fs, 10) == 28;
  }

  /** The fields of a local record, where its bytes are. */
  lemma {:induction false} LocalFieldsAt(b: Bytes, i: nat, fs: seq<Field>, crc: nat, size: nat, nameLength: nat)
    requires fs == LocalFields(crc, size, nameLength) && At(b, i, Pack(fs))
    requires crc < TWO32 && size < TWO32 && nameLength < TWO16
    ensures Size(fs) == 30
    ensures i + 30 <= |b| && U32(b, i) == LOCAL_SIGNATURE && U16(b, i + 6) == 0 && U16(b, i + 8) == 0
    ensures U32(b, i + 14) == crc && U32(b, i + 18) == size && U32(b, i + 22) == size
    ensures U16(b, i + 26) == nameLength && U16(b, i + 28) == 0
  {
    LocalLength(fs, crc, size, nameLength);
    assert FieldStart(fs, 1) == 4;
    assert FieldStart(fs, 2) == 6;
    assert FieldStart(fs, 3) == 8;
    assert FieldStart(fs, 4) == 10;
    assert FieldStart(fs, 5) == 12;
    assert FieldStart(fs, 6) == 14;
    assert FieldStart(fs, 7) == 18;
    assert FieldStart(fs, 8) == 22;
    assert FieldStart(fs, 9) == 26;
    assert FieldStart(fs, 10) == 28;
    ReadFieldAt32(b, i, fs, 0, i);
    ReadFieldAt16(b, i, fs, 2, i + 6);
    ReadFieldAt16(b, i, fs, 3, i + 8);
    ReadFieldAt32(b, i, fs, 6, i + 14);
    ReadFieldAt32(b, i, fs, 7, i + 18);
    ReadFieldAt32(b, i, fs, 8, i + 22);
    ReadFieldAt16(b, i, fs, 9, i + 26);
    ReadFieldAt16(b, i, fs, 10, i + 28);
  }

  /** The header of `n` name bytes and `size` bytes of data. */
  function Plain(crc: nat, n: nat, size: nat): Header { Header(0, 0, crc, size, size, n, 0) }

  /** `turn` is what the reader makes of `r` when it goes on at `next`. */
  ghost predicate Continues(turn: Result<Turn, ReadError>, r: Result<Entries, ReadError>, next: nat)
  {
    match r
    case Err(e) => turn == Err(e)
    case Ok(m) => turn.Ok? && turn.value.entries == m && turn.value.next == next
  }

  lemma {:induction false} ReadRecord(rules: Rules, b: Bytes, i: nat, h: Header, name: string, data: Bytes,
                                      entries: Entries, next: nat)
    requires next == i + 30 + |Utf8.Encode(name)| + |data|
    requires h == Plain(h.crc, |Utf8.Encode(name)|, |data|) && i + 30 <= |b|
    requires rules.shown(Utf8.Encode(name)) == name
    requires At(b, i + 30, Utf8.Encode(name)) && At(b, i + 30 + |Utf8.Encode(name)|, data)
    ensures Continues(ReadBody(rules, b, i, h, entries), Accept(rules, name, data, |data|, entries), next)
  {
  }

  lemma {:induction false} WrittenHeader(b: Bytes, i: nat, fs: seq<Field>, n: nat, data: Bytes)
    requires fs == LocalFields(Crc32.Crc(data), |data|, n) && n < TWO16 && |data| < TWO32
    requires At(b, i, Pack(fs))
    ensures Size(fs) == 30 && i + 30 <= |b| && U32(b, i) == LOCAL_SIGNATURE
    ensures HeaderOf(b, i) == Plain(Crc32.Crc(data), n, |data|)
  {
    Crc32.CrcBound(data);
    LocalFieldsAt(b, i, fs, Crc32.Crc(data), |data|, n);
  }

  ghost predicate TakesAt(rules: Rules, b: Bytes, i: nat, entries: Entries, name: string, data: Bytes, next: nat)
  {
    && !LocalsEnd(b, i)
    && Continues(ReadLocal(rules, b, i, entries), Accept(rules, name, data, |data|, entries), next)
  }

  /** Wherever `t` stands, the reader takes `data` under `name` from it. */
  ghost predicate ReadsBack(rules: Rules, t: Bytes, name: string, data: Bytes)
  {
    forall b: Bytes, i: nat, entries: Entries, next: nat :: At(b, i, t) && next == i + |t| ==>
      TakesAt(rules, b, i, entries, name, data, next)
  }

  lemma {:induction false} ReadPacked(rules: Rules, b: Bytes, i: nat, fs: seq<Field>, name: string, data: Bytes,
                                      entries: Entries, next: nat)
    requires fs == LocalFields(Crc32.Crc(data), |data|, |Utf8.Encode(name)|)
    requires |Utf8.Encode(name)| < TWO16 && |data| < TWO32 && rules.shown(Utf8.Encode(name)) == name
    requires At(b, i, Pack(fs) + Utf8.Encode(name) + data) && next == i + 30 + |Utf8.Encode(name)| + |data|
    ensures TakesAt(rules, b, i, entries, name, data, next)
  {
    hide U16, U32, Pack, ReadBody, Accept, At, Utf8.Encode;
    AtSplit(b, i, Pack(fs) + Utf8.Encode(name), data);
    AtSplit(b, i, Pack(fs), Utf8.Encode(name));
    WrittenHeader(b, i, fs, |Utf8.Encode(name)|, data);
    var h := HeaderOf(b, i);
    assert ReadLocal(rules, b, i, entries) == ReadBody(rules, b, i, h, entries);
    ReadRecord(rules, b, i, h, name, data, entries, next);
  }

  lemma {:induction false} PackedReadsBack(rules: Rules, t: Bytes, fs: seq<Field>, name: string, data: Bytes)
    requires fs == LocalFields(Crc32.Crc(data), |data|, |Utf8.Encode(name)|)
    requires |Utf8.Encode(name)| < TWO16 && |data| < TWO32 && rules.shown(Utf8.Encode(name)) == name
    requires t == Pack(fs) + Utf8.Encode(name) + data
    ensures ReadsBack(rules, t, name, data)
  {
    LocalLength(fs, Crc32.Crc(data), |data|, |Utf8.Encode(name)|);
    forall b: Bytes, i: nat, entries: Entries, next: nat | At(b, i, t) && next == i + |t|
      ensures TakesAt(rules, b, i, entries, name, data, next)
    {
      ReadPacked(rules, b, i, fs, name, data, entries, next);
    }
  }

  // ---- the whole archive ---------------------------------------------------------------------

  /** Names and sizes that the two-byte and four-byte fields can hold. */
  ghost predicate Representable(fs: seq<File>)
  {
    forall f :: f in fs ==> |NameBytes(f)| < TWO16 && |f.data| < TWO32
  }

  /** The files as the reader's map, or its first objection. */
  function Collect(rules: Rules, fs: seq<File>, entries: Entries): Result<Entries, ReadError>
    decreases |fs|
  {
    if fs == [] then Ok(entries)
    else
      var more :- Accept(rules, StoredName(fs[0]), fs[0].data, |fs[0].data|, entries);
      Collect(rules, fs[1..], more)
  }

  lemma {:induction false} ParseStep(rules: Rules, b: Bytes, i: nat, entries: Entries, name: string, data: Bytes, next: nat)
    requires TakesAt(rules, b, i, entries, name, data, next)
    ensures ParseFrom(rules, b, i, entries)
            == match Accept(rules, name, data, |data|, entries)
               case Err(e) => Err(e)
               case Ok(more) => ParseFrom(rules, b, next, more)
  {
  }

  lemma {:induction false} StopsAt(rules: Rules, b: Bytes, i: nat, entries: Entries)
    requires LocalsEnd(b, i)
    ensures ParseFrom(rules, b, i, entries) == Ok(entries)
  {
  }

  lemma {:induction false} ParseLocals(rules: Rules, w: Layout, b: Bytes, i: nat, stop: nat, fs: seq<File>, entries: Entries)
    requires forall f :: f in fs ==> ReadsBack(rules, w.local(f), StoredName(f), f.data)
    requires At(b, i, LocalsIn(w, fs)) && stop == i + |LocalsIn(w, fs)| && LocalsEnd(b, stop)
    ensures ParseFrom(rules, b, i, entries) == Collect(rules, fs, entries)
    decreases |fs|
  {
    hide LocalsEnd, At, TakesAt, Accept, ParseFrom;
    if fs == [] {
      StopsAt(rules, b, stop, entries);
    } else {
      var f, next := fs[0], i + |w.local(fs[0])|;
      AtSplit(b, i, w.local(f), LocalsIn(w, fs[1..]));
      assert ReadsBack(rules, w.local(f), StoredName(f), f.data);
      ParseStep(rules, b, i, entries, StoredName(f), f.data, next);
      var r := Accept(rules, StoredName(f), f.data, |f.data|, entries);
      if r.Ok? {
        ParseLocals(rules, w, b, next, stop, fs[1..], r.value);
      }
    }
  }

  lemma {:induction false} PackStarts(fs: seq<Field>, rest: Bytes)
    requires fs != [] && fs[0].W4? && fs[0].v < TWO32
    ensures |Pack(fs) + rest| >= 4 && U32(Pack(fs) + rest, 0) == fs[0].v
  {
    Assoc(Le32(fs[0].v), Pack(fs[1..]), rest);
    ReadBack32(fs[0].v, Pack(fs[1..]) + rest);
  }

  /** The local records are followed by a signature that stops the reader. */
  lemma {:induction false} DirectoryStops(fs: seq<File>)
    ensures LocalsEnd(Directory(fs), 0)
  {
    var end := Pack(EndFields(|fs|, |Centrals(fs)|, |Locals(fs)|));
    if fs == [] {
      PackStarts(EndFields(|fs|, |Centrals(fs)|, |Locals(fs)|), []);
      assert Directory(fs) == end + [];
    } else {
      var w := ZipLayout();
      var more := CentralsIn(w, fs[1..], |w.local(fs[0])|);
      PackStarts(CentralOf(fs[0], 0), NameBytes(fs[0]) + (more + end));
      Assoc(Pack(CentralOf(fs[0], 0)), NameBytes(fs[0]), more);
      Assoc(Pack(CentralOf(fs[0], 0)), NameBytes(fs[0]) + more, end);
      Assoc(NameBytes(fs[0]), more, end);
    }
  }

  /** Reading an archive of representable files back collects the files. */
  lemma {:induction false} ParseArchive(lossy: Bytes -> string, fs: seq<File>)
    requires Representable(fs) && |Archive(fs)| <= MAX_ARCHIVE
    ensures Parse(lossy, Archive(fs)) == Collect(ReaderRules(lossy), fs, map[])
  {
    DirectoryStops(fs);
    forall f | f in fs
      ensures ReadsBack(ReaderRules(lossy), LocalRecord(f), StoredName(f), f.data)
    {
      Utf8.DecodeEncoded(StoredName(f));
      PackedReadsBack(ReaderRules(lossy), LocalRecord(f), LocalOf(f), StoredName(f), f.data);
    }
    if |Directory(fs)| >= 4 {
      Past32(Locals(fs), Directory(fs), 0);
    }
    ParseLocals(ReaderRules(lossy), ZipLayout(), Archive(fs), 0, |Locals(fs)|, fs, map[]);
  }

  // ---- what is collected ---------------------------------------------------------------------

  ghost predicate AllSafe(fs: seq<File>)
  {
    forall f :: f in fs ==> SafeName(StoredName(f))
  }

  ghost predicate DistinctNames(fs: seq<File>)
  {
    forall i, j :: 0 <= i < j < |fs| ==> StoredName(fs[i]) != StoredName(fs[j])
  }

  ghost predicate NewNames(fs: seq<File>, entries: Entries)
  {
    forall f :: f in fs ==> StoredName(f) !in entries
  }

  /** `m` is `entries` and the files, and nothing else. */
  ghost predicate Holds(m: Entries, fs: seq<File>, entries: Entries)
  {
    && (forall f :: f in fs ==> StoredName(f) in m && m[StoredName(f)] == f.data)
    && (forall n :: n in entries && (forall f :: f in fs ==> StoredName(f) != n) ==> n in m && m[n] == entries[n])
    && (forall n :: n in m && n !in entries ==> exists f :: f in fs && StoredName(f) == n)
  }

  lemma {:induction false} CollectAccepts(lossy: Bytes -> string, fs: seq<File>, entries: Entries)
    requires |entries| + |fs| <= MAX_FILES && AllSafe(fs) && DistinctNames(fs) && NewNames(fs, entries)
    ensures Collect(ReaderRules(lossy), fs, entries).Ok? && Holds(Collect(ReaderRules(lossy), fs, entries).value, fs, entries)
    decreases |fs|
  {
    hide SafeName, StoredName;
    if fs != [] {
      var name := StoredName(fs[0]);
      var next := entries[name := fs[0].data];
      assert fs[0] in fs;
      forall f | f in fs[1..]
        ensures StoredName(f) !in next
      {
        var k :| 0 <= k < |fs[1..]| && fs[1..][k] == f;
        assert StoredName(fs[0]) != StoredName(fs[k + 1]);
      }
      CollectAccepts(lossy, fs[1..], next);
      HoldsFirst(Collect(ReaderRules(lossy), fs[1..], next).value, fs, entries);
    }
  }

  lemma {:induction false} HoldsFirst(m: Entries, fs: seq<File>, entries: Entries)
    requires fs != [] && DistinctNames(fs) && Holds(m, fs[1..], entries[StoredName(fs[0]) := fs[0].data])
    ensures Holds(m, fs, entries)
  {
    var name := StoredName(fs[0]);
    forall f | f in fs[1..]
      ensures StoredName(f) != name
    {
      var k :| 0 <= k < |fs[1..]| && fs[1..][k] == f;
      assert StoredName(fs[0]) != StoredName(fs[k + 1]);
    }
    assert forall f :: f in fs ==> f == fs[0] || f in fs[1..];
    assert forall f :: f in fs[1..] ==> f in fs;
    assert fs[0] in fs && name in m && m[name] == fs[0].data;
  }

  lemma {:induction false} CollectRefuses(lossy: Bytes -> string, fs: seq<File>, entries: Entries)
    requires Collect(ReaderRules(lossy), fs, entries).Ok?
    ensures AllSafe(fs) && DistinctNames(fs) && NewNames(fs, entries)
    decreases |fs|
  {
    if fs != [] {
      var name := StoredName(fs[0]);
      CollectRefuses(lossy, fs[1..], entries[name := fs[0].data]);
      forall i, j | 0 <= i < j < |fs|
        ensures StoredName(fs[i]) != StoredName(fs[j])
      {
        assert fs[j] == fs[1..][j - 1];
        if i > 0 {
          assert fs[i] == fs[1..][i - 1];
        }
      }
      assert forall f :: f in fs ==> f == fs[0] || f in fs[1..];
    }
  }

  // ---- safe files always fit -----------------------------------------------------------------

  lemma {:induction false} SafeNameBytes(f: File)
    requires SafeName(StoredName(f))
    ensures 0 < |NameBytes(f)| <= 3072
  {
    Utf8.EncodedLength(StoredName(f));
  }

  lemma {:induction false} LocalSize(f: File)
    ensures |LocalRecord(f)| == 30 + |NameBytes(f)| + |f.data|
  {
    LocalLength(LocalOf(f), Crc32.Crc(f.data), |f.data|, |NameBytes(f)|);
  }

  lemma {:induction false} CentralLength(fs: seq<Field>, crc: nat, size: nat, nameLength: nat, offset: nat)
    requires fs == CentralFields(crc, size, nameLength, offset)
    ensures Size(fs) == 46 && FieldStart(fs, 7) == 16 && FieldStart(fs, 8) == 20 && FieldStart(fs, 9) == 24
    ensures FieldStart(fs, 10) == 28 && FieldStart(fs, 16) == 42
  {
    SizeIsEnd(fs);
    assert FieldStart(fs, 1) == 4;
    assert FieldStart(fs, 2) == 6;
    assert FieldStart(fs, 3) == 8;
    assert FieldStart(fs, 4) == 10;
    assert FieldStart(fs, 5) == 12;
    assert FieldStart(fs, 6) == 14;
    assert FieldStart(fs, 7) == 16;
    assert FieldStart(fs, 8) == 20;
    assert FieldStart(fs, 9) == 24;
    assert FieldStart(fs, 10) == 28;
    assert FieldStart(fs, 11) == 30;
    assert FieldStart(fs, 12) == 32;
    assert FieldStart(fs, 13) == 34;
    assert FieldStart(fs, 14) == 36;
    assert FieldStart(fs, 15) == 38;
    assert FieldStart(fs, 16) == 42;
  }

  lemma {:induction false} EndLength(fs: seq<Field>, count: nat, size: nat, offset: nat)
    requires fs == EndFields(count, size, offset)
    ensures Size(fs) == 22 && FieldStart(fs, 3) == 8 && FieldStart(fs, 4) == 10 && FieldStart(fs, 5) == 12
    ensures FieldStart(fs, 6) == 16 && FieldStart(fs, 7) == 20
  {
    SizeIsEnd(fs);
    assert FieldStart(fs, 1) == 4;
    assert FieldStart(fs, 2) == 6;
    assert FieldStart(fs, 3) == 8;
    assert FieldStart(fs, 4) == 10;
    assert FieldStart(fs, 5) == 12;
    assert FieldStart(fs, 6) == 16;
    assert FieldStart(fs, 7) == 20;
  }

  /** How long the two records of a file are at most. */
  ghost predicate Bounded(w: Layout, fs: seq<File>)
  {
    && (forall f :: f in fs ==> |w.local(f)| <= 3102 + |f.data|)
    && (forall f, offset: nat :: f in fs ==> |w.central(f, offset)| <= 3118)
  }

  lemma {:induction false} RecordsBound(w: Layout, fs: seq<File>, offset: nat)
    requires Bounded(w, fs)
    ensures |LocalsIn(w, fs)| <= 3102 * |fs| + TotalInput(fs)
    ensures |CentralsIn(w, fs, offset)| <= 3118 * |fs|
    decreases |fs|
  {
    if fs != [] {
      RecordsBound(w, fs[1..], offset + |w.local(fs[0])|);
    }
  }

  lemma {:induction false} SafeRecords(fs: seq<File>)
    requires AllSafe(fs)
    ensures Bounded(ZipLayout(), fs)
  {
    forall f | f in fs
      ensures |LocalRecord(f)| <= 3102 + |f.data|
    {
      SafeNameBytes(f);
      LocalSize(f);
    }
    forall f, offset: nat | f in fs
      ensures |CentralRecord(f, offset)| <= 3118
    {
      SafeNameBytes(f);
      CentralLength(CentralOf(f, offset), Crc32.Crc(f.data), |f.data|, |NameBytes(f)|, offset);
    }
  }

  lemma {:induction false} DataWithinTotal(fs: seq<File>, f: File)
    requires f in fs
    ensures |f.data| <= TotalInput(fs)
    decreases |fs|
  {
    if f != fs[0] {
      DataWithinTotal(fs[1..], f);
    }
  }

  /** Files with safe names that the writer accepts leave every field of the archive free of wrap-around. */
  lemma {:induction false} SafeFits(fs: seq<File>)
    requires Fits(fs) && AllSafe(fs)
    ensures Representable(fs)
    ensures |Locals(fs)| < TWO32 && |Centrals(fs)| < TWO32 && |fs| < TWO16
    ensures |Archive(fs)| <= MAX_ARCHIVE
  {
    SafeRecords(fs);
    RecordsBound(ZipLayout(), fs, 0);
    EndLength(EndFields(|fs|, |Centrals(fs)|, |Locals(fs)|), |fs|, |Centrals(fs)|, |Locals(fs)|);
    forall f | f in fs
      ensures |NameBytes(f)| < TWO16 && |f.data| < TWO32
    {
      SafeNameBytes(f);
      DataWithinTotal(fs, f);
    }
  }

  // ---- the round trip ------------------------------------------------------------------------

  /** What `parseStoredZip` must give back for `files`: their names and bytes, and nothing else. */
  ghost predicate IsContentOf(m: Entries, files: seq<File>)
  {
    && (forall f :: f in files ==> StoredName(f) in m && m[StoredName(f)] == f.data)
    && (forall n :: n in m ==> exists f :: f in files && StoredName(f) == n)
  }

  lemma {:induction false} MemberOfPermutation<T>(a: seq<T>, b: seq<T>, x: T)
    requires multiset(a) == multiset(b) && x in a
    ensures x in b
  {
    assert x in multiset(b);
  }

  lemma {:induction false} TwiceInMultiset<T>(a: seq<T>, i: nat, j: nat)
    requires i < j < |a| && a[i] == a[j]
    ensures multiset(a)[a[i]] >= 2
  {
    assert a == a[..j] + [a[j]] + a[j + 1..];
    assert a[i] in a[..j];
  }

  lemma {:induction false} OnceInMultiset<T>(a: seq<T>, i: nat)
    requires i < |a| && forall j :: 0 <= j < |a| && j != i ==> a[j] != a[i]
    ensures multiset(a)[a[i]] == 1
  {
    assert a == a[..i] + [a[i]] + a[i + 1..];
    assert a[i] !in a[..i] && a[i] !in a[i + 1..];
  }

  lemma {:induction false} DistinctPermuted(a: seq<File>, b: seq<File>)
    requires multiset(a) == multiset(b) && DistinctNames(a)
    ensures DistinctNames(b)
  {
    forall i, j | 0 <= i < j < |b|
      ensures StoredName(b[i]) != StoredName(b[j])
    {
      MemberOfPermutation(b, a, b[i]);
      MemberOfPermutation(b, a, b[j]);
      var k :| 0 <= k < |a| && a[k] == b[i];
      var l :| 0 <= l < |a| && a[l] == b[j];
      if b[i] == b[j] {
        TwiceInMultiset(b, i, j);
        OnceInMultiset(a, k);
      }
    }
  }

  lemma {:induction false} SafePermuted(a: seq<File>, b: seq<File>)
    requires multiset(a) == multiset(b)
    ensures AllSafe(a) <==> AllSafe(b)
    ensures DistinctNames(a) <==> DistinctNames(b)
    ensures forall f :: f in a <==> f in b
  {
    forall f
      ensures f in a <==> f in b
    {
      if f in a { MemberOfPermutation(a, b, f); }
      if f in b { MemberOfPermutation(b, a, f); }
    }
    if DistinctNames(a) { DistinctPermuted(a, b); }
    if DistinctNames(b) { DistinctPermuted(b, a); }
  }

  /**
   * Reading back an archive succeeds exactly when the names are safe and distinct, and then
   * gives exactly the files, whatever order the writer sorted them into.
   */
  lemma {:induction false} RoundTrip(lossy: Bytes -> string, files: seq<File>, ordered: seq<File>)
    requires multiset(ordered) == multiset(files) && Fits(ordered)
    requires Representable(ordered) && |Archive(ordered)| <= MAX_ARCHIVE
    ensures Parse(lossy, Archive(ordered)).Ok? <==> AllSafe(files) && DistinctNames(files)
    ensures Parse(lossy, Archive(ordered)).Ok? ==> IsContentOf(Parse(lossy, Archive(ordered)).value, files)
  {
    hide Collect, SafeName, StoredName, Archive;
    ParseArchive(lossy, ordered);
    SafePermuted(ordered, files);
    if AllSafe(files) && DistinctNames(files) {
      CollectAccepts(lossy, ordered, map[]);
    }
    if Parse(lossy, Archive(ordered)).Ok? {
      CollectRefuses(lossy, ordered, map[]);
    }
  }

  /** The round trip for the files the repository promises it for: distinct safe names within the limits. */
  lemma {:induction false} SafeRoundTrip(lossy: Bytes -> string, files: seq<File>, ordered: seq<File>)
    requires multiset(ordered) == multiset(files) && Fits(ordered) && AllSafe(files) && DistinctNames(files)
    ensures Parse(lossy, Archive(ordered)).Ok? && IsContentOf(Parse(lossy, Archive(ordered)).value, files)
  {
    SafePermuted(ordered, files);
    SafeFits(ordered);
    RoundTrip(lossy, files, ordered);
  }

  // ---- the directory describes the records ---------------------------------------------------

  /** The fields of a central record, where its bytes are. */
  lemma {:induction false} CentralStartAt(b: Bytes, p: nat, fs: seq<Field>, crc: nat, size: nat, n: nat, offset: nat)
    requires fs == CentralFields(crc, size, n, offset) && At(b, p, Pack(fs)) && crc < TWO32
    ensures p + 46 <= |b| && U32(b, p) == CENTRAL_SIGNATURE && U32(b, p + 16) == crc
  {
    CentralLength(fs, crc, size, n, offset);
    ReadFieldAt32(b, p, fs, 0, p);
    ReadFieldAt32(b, p, fs, 7, p + 16);
  }

  lemma {:induction false} CentralSizesAt(b: Bytes, p: nat, fs: seq<Field>, crc: nat, size: nat, n: nat, offset: nat)
    requires fs == CentralFields(crc, size, n, offset) && At(b, p, Pack(fs)) && size < TWO32
    ensures p + 46 <= |b| && U32(b, p + 20) == size && U32(b, p + 24) == size
  {
    CentralLength(fs, crc, size, n, offset);
    ReadFieldAt32(b, p, fs, 8, p + 20);
    ReadFieldAt32(b, p, fs, 9, p + 24);
  }

  lemma {:induction false} CentralPlaceAt(b: Bytes, p: nat, fs: seq<Field>, crc: nat, size: nat, n: nat, offset: nat)
    requires fs == CentralFields(crc, size, n, offset) && At(b, p, Pack(fs)) && n < TWO16 && offset < TWO32
    ensures p + 46 <= |b| && U16(b, p + 28) == n && U32(b, p + 42) == offset
  {
    CentralLength(fs, crc, size, n, offset);
    ReadFieldAt16(b, p, fs, 10, p + 28);
    ReadFieldAt32(b, p, fs, 16, p + 42);
  }

  lemma {:induction false} Whole(b: Bytes)
    ensures At(b, 0, b)
  {
    assert b[0..|b|] == b;
  }

  lemma {:induction false} ThreeParts(x: Bytes, y: Bytes, z: Bytes)
    ensures var b := x + (y + z); At(b, 0, x) && At(b, |x|, y) && At(b, |x| + |y|, z)
  {
    Whole(x + (y + z));
    AtSplit(x + (y + z), 0, x, y + z);
    AtSplit(x + (y + z), |x|, y, z);
  }

  /** Where the local record of file `k` stands. */
  lemma {:induction false} LocalAt(w: Layout, b: Bytes, fs: seq<File>, k: nat)
    requires k < |fs| && At(b, 0, LocalsIn(w, fs))
    ensures At(b, |LocalsIn(w, fs[..k])|, w.local(fs[k])) && |LocalsIn(w, fs[..k])| <= |LocalsIn(w, fs)|
  {
    assert fs == fs[..k] + fs[k..] && fs[k..][0] == fs[k];
    LocalsAppend(w, fs[..k], fs[k..]);
    AtSplit(b, 0, LocalsIn(w, fs[..k]), LocalsIn(w, fs[k..]));
    AtSplit(b, |LocalsIn(w, fs[..k])|, w.local(fs[k]), LocalsIn(w, fs[k..][1..]));
  }

  /** Where the central record of file `k` stands. */
  lemma {:induction false} CentralAt(w: Layout, b: Bytes, d: nat, fs: seq<File>, k: nat)
    requires k < |fs| && At(b, d, CentralsIn(w, fs, 0))
    ensures At(b, d + |CentralsIn(w, fs[..k], 0)|, w.central(fs[k], |LocalsIn(w, fs[..k])|))
  {
    var offset := |LocalsIn(w, fs[..k])|;
    assert fs == fs[..k] + fs[k..] && fs[k..][0] == fs[k];
    CentralsAppend(w, fs[..k], fs[k..], 0);
    AtSplit(b, d, CentralsIn(w, fs[..k], 0), CentralsIn(w, fs[k..], offset));
    AtSplit(b, d + |CentralsIn(w, fs[..k], 0)|, w.central(fs[k], offset),
            CentralsIn(w, fs[k..][1..], offset + |w.local(fs[k])|));
  }

  /** A central record at `p` gives the file's checksum, sizes and name length, and `offset`. */
  ghost predicate Describes(b: Bytes, p: nat, crc: nat, size: nat, n: nat, offset: nat)
  {
    && p + 46 <= |b| && U32(b, p) == CENTRAL_SIGNATURE && U32(b, p + 16) == crc
    && U32(b, p + 20) == size && U32(b, p + 24) == size && U16(b, p + 28) == n && U32(b, p + 42) == offset
  }

  lemma {:induction false} PackedCentral(b: Bytes, p: nat, fields: seq<Field>, name: Bytes, crc: nat, size: nat, offset: nat)
    requires fields == CentralFields(crc, size, |name|, offset) && At(b, p, Pack(fields) + name)
    requires crc < TWO32 && size < TWO32 && |name| < TWO16 && offset < TWO32
    ensures Describes(b, p, crc, size, |name|, offset)
  {
    AtSplit(b, p, Pack(fields), name);
    CentralStartAt(b, p, fields, crc, size, |name|, offset);
    CentralSizesAt(b, p, fields, crc, size, |name|, offset);
    CentralPlaceAt(b, p, fields, crc, size, |name|, offset);
  }

  /** Both records of file `k` in an archive with the directory ending in `z`. */
  lemma {:induction false} RecordsAt(w: Layout, b: Bytes, z: Bytes, fs: seq<File>, k: nat, p: nat, offset: nat)
    requires k < |fs| && b == LocalsIn(w, fs) + (CentralsIn(w, fs, 0) + z)
    requires p == |LocalsIn(w, fs)| + |CentralsIn(w, fs[..k], 0)| && offset == |LocalsIn(w, fs[..k])|
    ensures At(b, offset, w.local(fs[k])) && offset <= |LocalsIn(w, fs)|
    ensures At(b, p, w.central(fs[k], offset))
  {
    ThreeParts(LocalsIn(w, fs), CentralsIn(w, fs, 0), z);
    LocalAt(w, b, fs, k);
    CentralAt(w, b, |LocalsIn(w, fs)|, fs, k);
  }

  lemma {:induction false} RecordDescribes(b: Bytes, p: nat, f: File, offset: nat)
    requires At(b, p, CentralRecord(f, offset)) && |f.data| < TWO32 && |NameBytes(f)| < TWO16 && offset < TWO32
    ensures Describes(b, p, Crc32.Crc(f.data), |f.data|, |NameBytes(f)|, offset)
  {
    Crc32.CrcBound(f.data);
    PackedCentral(b, p, CentralOf(f, offset), NameBytes(f), Crc32.Crc(f.data), |f.data|, offset);
  }

  /**
   * The central record `p` bytes into the archive gives its file's checksum and sizes and the
   * place where the file's local record stands.
   */
  lemma {:induction false} CentralDescribes(w: Layout, b: Bytes, fs: seq<File>, k: nat, p: nat, crc: nat, offset: nat)
    requires Fits(fs) && AllSafe(fs) && k < |fs| && w == ZipLayout() && b == Archive(fs)
    requires p == |LocalsIn(w, fs)| + |CentralsIn(w, fs[..k], 0)| && crc == Crc32.Crc(fs[k].data)
    requires offset == |LocalsIn(w, fs[..k])|
    ensures At(b, offset, LocalRecord(fs[k]))
    ensures Describes(b, p, crc, |fs[k].data|, |NameBytes(fs[k])|, offset)
  {
    SafeFits(fs);
    RecordsAt(w, b, Pack(EndFields(|fs|, |Centrals(fs)|, |Locals(fs)|)), fs, k, p, offset);
    RecordDescribes(b, p, fs[k], offset);
  }

  ghost predicate EndsWith(b: Bytes, e: nat, count: nat, size: nat, offset: nat)
  {
    && e + 22 == |b| && U32(b, e) == END_SIGNATURE
    && U16(b, e + 8) == count && U16(b, e + 10) == count
    && U32(b, e + 12) == size && U32(b, e + 16) == offset && U16(b, e + 20) == 0
  }

  lemma {:induction false} EndFieldsAt(b: Bytes, e: nat, fields: seq<Field>, count: nat, size: nat, offset: nat)
    requires fields == EndFields(count, size, offset) && At(b, e, Pack(fields))
    requires count < TWO16 && size < TWO32 && offset < TWO32
    ensures |Pack(fields)| == 22 && U32(b, e) == END_SIGNATURE && U16(b, e + 8) == count && U16(b, e + 10) == count
    ensures U32(b, e + 12) == size && U32(b, e + 16) == offset && U16(b, e + 20) == 0
  {
    EndLength(fields, count, size, offset);
    ReadFieldAt32(b, e, fields, 0, e);
    ReadFieldAt16(b, e, fields, 3, e + 8);
    ReadFieldAt16(b, e, fields, 4, e + 10);
    ReadFieldAt32(b, e, fields, 5, e + 12);
    ReadFieldAt32(b, e, fields, 6, e + 16);
    ReadFieldAt16(b, e, fields, 7, e + 20);
  }

  lemma {:induction false} PackedEnd(x: Bytes, y: Bytes, fields: seq<Field>, count: nat)
    requires fields == EndFields(count, |y|, |x|) && count < TWO16 && |y| < TWO32 && |x| < TWO32
    ensures EndsWith(x + (y + Pack(fields)), |x| + |y|, count, |y|, |x|)
  {
    ThreeParts(x, y, Pack(fields));
    EndFieldsAt(x + (y + Pack(fields)), |x| + |y|, fields, count, |y|, |x|);
  }

  /** The end record counts the files and places the directory. */
  lemma {:induction false} EndDescribes(fs: seq<File>)
    requires Fits(fs) && AllSafe(fs)
    ensures EndsWith(Archive(fs), |Locals(fs)| + |Centrals(fs)|, |fs|, |Centrals(fs)|, |Locals(fs)|)
  {
    SafeFits(fs);
    PackedEnd(Locals(fs), Centrals(fs), EndFields(|fs|, |Centrals(fs)|, |Locals(fs)|), |fs|);
  }
}
