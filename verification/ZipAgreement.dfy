/**
 * Two independent readers of one archive: `parseStoredZip` walks the local records from byte 0,
 * the preflight follows the central directory. Exactly when they report the same content, and
 * the one family of member names on which they differ, those that begin with a byte order mark.
 */
module ZipAgreement {
  import opened Wrappers
  import opened ZipBytes
  import opened StoredZip
  import opened CandidateZip
  import opened CandidatePreflight
  import opened CandidateTiling
  import Utf8
  import SlashPaths
  import ZipRoundTrip

  // ---- the rows in the order of their local records --------------------------------------------

  function SpanOf(row: Row): Span { Span(row.c.local, row.finish) }

  function InsertRow(row: Row, rows: seq<Row>): seq<Row>
  {
    if rows == [] || row.c.local < rows[0].c.local then [row] + rows else [rows[0]] + InsertRow(row, rows[1..])
  }

  function SortRows(rows: seq<Row>): seq<Row>
  {
    if rows == [] then [] else InsertRow(rows[0], SortRows(rows[1..]))
  }

  lemma {:induction false} SpansCons(row: Row, rows: seq<Row>)
    ensures LocalSpans([row] + rows) == [SpanOf(row)] + LocalSpans(rows)
  {
  }

  lemma {:induction false} InsertRowSpans(row: Row, rows: seq<Row>)
    ensures LocalSpans(InsertRow(row, rows)) == Insert(SpanOf(row), LocalSpans(rows))
    ensures multiset(InsertRow(row, rows)) == multiset([row] + rows)
    decreases |rows|
  {
    SpansCons(row, rows);
    if rows != [] && row.c.local >= rows[0].c.local {
      InsertRowSpans(row, rows[1..]);
      SpansCons(rows[0], InsertRow(row, rows[1..]));
      assert LocalSpans(rows)[1..] == LocalSpans(rows[1..]);
      assert rows == [rows[0]] + rows[1..];
    }
  }

  lemma {:induction false} SortRowsSpans(rows: seq<Row>)
    ensures LocalSpans(SortRows(rows)) == Sort(LocalSpans(rows))
    ensures multiset(SortRows(rows)) == multiset(rows)
    decreases |rows|
  {
    if rows != [] {
      SortRowsSpans(rows[1..]);
      InsertRowSpans(rows[0], SortRows(rows[1..]));
      assert LocalSpans(rows)[1..] == LocalSpans(rows[1..]);
      assert rows == [rows[0]] + rows[1..];
    }
  }

  // ---- walking the local records -----------------------------------------------------------------

  /** The compressed bytes of a row, which lie within the buffer of an accepted archive. */
  function DataOf(b: Bytes, row: Row): Bytes
  {
    if row.data + row.c.compressed <= |b| then b[row.data..row.data + row.c.compressed] else []
  }

  /** The local record of `row` agrees with its central record and ends where the preflight says. */
  ghost predicate LocalAgrees(b: Bytes, row: Row)
  {
    && row.c.local + 30 <= |b| && U32(b, row.c.local) == LOCAL_SIGNATURE
    && var h := HeaderOf(b, row.c.local);
    && row.data == row.c.local + 30 + h.nameLength + h.extraLength
    && row.data + row.c.compressed <= row.finish <= |b|
    && h.flags == row.c.flags && h.compression == row.c.compression
    && b[row.c.local + 30..row.c.local + 30 + h.nameLength] == row.nameBytes
    && (!HasDescriptor(row.c) ==>
          h.compressed == row.c.compressed && h.expanded == row.c.expanded && row.finish == row.data + row.c.compressed)
  }

  lemma {:induction false} RowAgrees(names: Names, l: Limits, b: Bytes, end: nat, offset: nat, row: Row)
    requires offset <= end <= |b| && Reader(PolicyOf(names, l), l, b, end, offset)(row.pos) == Some(row)
    ensures LocalAgrees(b, row)
    ensures U32(b, row.pos) == CENTRAL_SIGNATURE
    ensures Utf8.FatalDecode(row.nameBytes) == Some(row.raw) && SafePath(names, l, row.raw)
  {
  }

  /** What the walk makes of one row. */
  function Take(rules: Rules, b: Bytes, row: Row, entries: Entries): Result<Entries, ReadError>
  {
    if HasDescriptor(row.c) then Err(DataDescriptor)
    else if row.c.compression != 0 then Err(UnsupportedMethod(row.c.compression))
    else Accept(rules, rules.shown(row.nameBytes), DataOf(b, row), row.c.expanded, entries)
  }

  ghost predicate AllAgree(b: Bytes, rows: seq<Row>) {
    forall i :: 0 <= i < |rows| ==> LocalAgrees(b, rows[i])
  }

  function TakeAll(rules: Rules, b: Bytes, rows: seq<Row>, entries: Entries): Result<Entries, ReadError>
    decreases |rows|
  {
    if rows == [] then Ok(entries)
    else
      var more :- Take(rules, b, rows[0], entries);
      TakeAll(rules, b, rows[1..], more)
  }

  lemma {:induction false} WalkStep(rules: Rules, b: Bytes, row: Row, entries: Entries)
    requires LocalAgrees(b, row)
    ensures !LocalsEnd(b, row.c.local)
    ensures Take(rules, b, row, entries).Err? ==>
              ParseFrom(rules, b, row.c.local, entries) == Err(Take(rules, b, row, entries).error)
    ensures Take(rules, b, row, entries).Ok? ==>
              ParseFrom(rules, b, row.c.local, entries) == ParseFrom(rules, b, row.finish, Take(rules, b, row, entries).value)
  {
    hide U32, HeaderOf, Accept;
    var i, h := row.c.local, HeaderOf(b, row.c.local);
    assert ReadLocal(rules, b, i, entries) == ReadBody(rules, b, i, h, entries);
  }

  lemma {:induction false} Walk(rules: Rules, b: Bytes, rows: seq<Row>, i: nat, offset: nat, entries: Entries)
    requires AllAgree(b, rows) && Chain(LocalSpans(rows), i, offset) && LocalsEnd(b, offset)
    ensures ParseFrom(rules, b, i, entries) == TakeAll(rules, b, rows, entries)
    decreases |rows|
  {
    hide LocalAgrees, LocalsEnd, Take;
    if rows != [] {
      assert LocalSpans(rows)[1..] == LocalSpans(rows[1..]);
      WalkStep(rules, b, rows[0], entries);
      if Take(rules, b, rows[0], entries).Ok? {
        Walk(rules, b, rows[1..], rows[0].finish, offset, Take(rules, b, rows[0], entries).value);
      }
    } else {
      StopHere(rules, b, i, entries);
    }
  }

  lemma {:induction false} StopHere(rules: Rules, b: Bytes, i: nat, entries: Entries)
    requires LocalsEnd(b, i)
    ensures ParseFrom(rules, b, i, entries) == Ok(entries)
  {
  }

  // ---- what the walk takes -----------------------------------------------------------------------

  /** Rows that the stored-only reader can take at all. */
  predicate Plain(row: Row)
  {
    !HasDescriptor(row.c) && row.c.compression == 0 && row.c.compressed == row.c.expanded
  }

  ghost predicate DistinctShown(rules: Rules, rows: seq<Row>)
  {
    forall i, j :: 0 <= i < j < |rows| ==> rules.shown(rows[i].nameBytes) != rules.shown(rows[j].nameBytes)
  }

  ghost predicate NewShown(rules: Rules, rows: seq<Row>, entries: Entries)
  {
    forall i :: 0 <= i < |rows| ==> rules.shown(rows[i].nameBytes) !in entries
  }

  ghost predicate PlainAndSafe(rules: Rules, rows: seq<Row>)
  {
    forall i :: 0 <= i < |rows| ==> Plain(rows[i]) && rules.safe(rules.shown(rows[i].nameBytes))
  }

  /** `m` is `entries` and the data of each row under its shown name. */
  ghost predicate Shows(m: Entries, rules: Rules, b: Bytes, rows: seq<Row>, entries: Entries)
  {
    && (forall n :: n in entries ==> n in m && m[n] == entries[n])
    && (forall i :: 0 <= i < |rows| ==>
          rules.shown(rows[i].nameBytes) in m && m[rules.shown(rows[i].nameBytes)] == DataOf(b, rows[i]))
    && (forall n :: n in m && n !in entries ==> exists i :: 0 <= i < |rows| && rules.shown(rows[i].nameBytes) == n)
  }

  ghost predicate InBounds(b: Bytes, rows: seq<Row>)
  {
    forall i :: 0 <= i < |rows| ==> rows[i].data + rows[i].c.compressed <= |b|
  }

  lemma {:induction false} TakeOk(rules: Rules, b: Bytes, row: Row, entries: Entries)
    requires row.data + row.c.compressed <= |b|
    ensures var name := rules.shown(row.nameBytes);
            Take(rules, b, row, entries).Ok? <==>
              Plain(row) && rules.safe(name) && |entries| < MAX_FILES && name !in entries
    ensures Take(rules, b, row, entries).Ok? ==>
              Take(rules, b, row, entries).value == entries[rules.shown(row.nameBytes) := DataOf(b, row)]
  {
  }

  lemma {:induction false} TakesAll(rules: Rules, b: Bytes, rows: seq<Row>, entries: Entries)
    requires InBounds(b, rows) && |entries| + |rows| <= MAX_FILES && PlainAndSafe(rules, rows)
    requires DistinctShown(rules, rows) && NewShown(rules, rows, entries)
    ensures TakeAll(rules, b, rows, entries).Ok?
    decreases |rows|
  {
    hide Take, Plain;
    if rows != [] {
      TakeOk(rules, b, rows[0], entries);
      var more := Take(rules, b, rows[0], entries).value;
      assert NewShown(rules, rows[1..], more);
      TakesAll(rules, b, rows[1..], more);
    }
  }

  lemma {:induction false} TakenAll(rules: Rules, b: Bytes, rows: seq<Row>, entries: Entries)
    requires InBounds(b, rows) && TakeAll(rules, b, rows, entries).Ok? && |entries| <= MAX_FILES
    ensures PlainAndSafe(rules, rows) && |entries| + |rows| <= MAX_FILES && NewShown(rules, rows, entries)
    ensures Shows(TakeAll(rules, b, rows, entries).value, rules, b, rows, entries)
    decreases |rows|
  {
    hide Take, Plain, DataOf;
    if rows != [] {
      TakeOk(rules, b, rows[0], entries);
      var more := Take(rules, b, rows[0], entries).value;
      TakenAll(rules, b, rows[1..], more);
      TakenFirst(rules, b, rows, entries, more, TakeAll(rules, b, rows, entries).value);
    }
  }

  lemma {:induction false} TakenFirst(rules: Rules, b: Bytes, rows: seq<Row>, entries: Entries, more: Entries, m: Entries)
    requires rows != [] && more == entries[rules.shown(rows[0].nameBytes) := DataOf(b, rows[0])]
    requires rules.shown(rows[0].nameBytes) !in entries && NewShown(rules, rows[1..], more)
    requires Shows(m, rules, b, rows[1..], more)
    ensures NewShown(rules, rows, entries) && Shows(m, rules, b, rows, entries)
  {
    hide DataOf;
    var name := rules.shown(rows[0].nameBytes);
    assert name in more && more[name] == DataOf(b, rows[0]);
    forall i | 0 <= i < |rows|
      ensures rules.shown(rows[i].nameBytes) !in entries
      ensures rules.shown(rows[i].nameBytes) in m && m[rules.shown(rows[i].nameBytes)] == DataOf(b, rows[i])
    {
      if i > 0 {
        assert rows[i] == rows[1..][i - 1];
      }
    }
    forall n | n in m && n !in entries
      ensures exists i :: 0 <= i < |rows| && rules.shown(rows[i].nameBytes) == n
    {
      if n in more {
        assert rules.shown(rows[0].nameBytes) == n;
      } else {
        var k :| 0 <= k < |rows[1..]| && rules.shown(rows[1..][k].nameBytes) == n;
        assert rules.shown(rows[k + 1].nameBytes) == n;
      }
    }
  }

  // ---- names -------------------------------------------------------------------------------------

  predicate StartsWithMark(b: Bytes) { |b| >= 3 && b[0] == 0xEF && b[1] == 0xBB && b[2] == 0xBF }

  predicate Marked(s: string) { s != [] && s[0] == Utf8.BOM }

  lemma {:induction false} FirstCharMark(b: Bytes)
    requires b != [] && Utf8.DecodeChar(b).Some?
    ensures Utf8.DecodeChar(b).value.c == Utf8.BOM <==> StartsWithMark(b)
  {
  }

  lemma {:induction false} DecodedMark(b: Bytes)
    requires Utf8.Decode(b).Some?
    ensures Marked(Utf8.Decode(b).value) <==> StartsWithMark(b)
  {
    if b != [] {
      FirstCharMark(b);
    }
  }

  lemma {:induction false} LastPart(s: string)
    requires s != [] && s[|s| - 1] == '/'
    ensures var parts := SlashPaths.Split(s); |parts| >= 2 && parts[|parts| - 1] == ""
    decreases |s|
  {
    if |s| > 1 {
      LastPart(s[1..]);
    } else {
      assert SlashPaths.Split(s[1..]) == [[]];
    }
  }

  lemma {:induction false} TrailingSlash(s: string)
    requires s != [] && s[|s| - 1] == '/'
    ensures "" in SlashPaths.Split(s)
  {
    LastPart(s);
    var parts := SlashPaths.Split(s);
    assert parts[|parts| - 1] == "";
  }

  /** A name the preflight lets through is safe for the other reader too, unless it is a directory's. */
  lemma {:induction false} SafeForBoth(names: Names, l: Limits, raw: string)
    requires SafePath(names, l, raw) && Tightened(l)
    ensures SafeName(raw) <==> !IsDirectory(raw)
  {
    Utf8.EncodedLength(raw);
    if IsDirectory(raw) {
      TrailingSlash(raw);
    } else {
      assert '\\' !in raw by { assert ForbiddenChar('\\'); }
    }
  }

  /** How the two readers name a row. */
  ghost predicate NamedBy(names: Names, l: Limits, shown: Bytes -> string, row: Row)
  {
    && SafePath(names, l, row.raw)
    && shown(row.nameBytes) == (if StartsWithMark(row.nameBytes) then [Utf8.BOM] + row.raw else row.raw)
    && (Marked(row.raw) ==> StartsWithMark(row.nameBytes))
  }

  lemma {:induction false} RowNamed(names: Names, l: Limits, lossy: Bytes -> string, row: Row)
    requires Utf8.FatalDecode(row.nameBytes) == Some(row.raw) && SafePath(names, l, row.raw)
    ensures NamedBy(names, l, ReaderRules(lossy).shown, row)
  {
    DecodedMark(row.nameBytes);
    var s := Utf8.Decode(row.nameBytes).value;
    if Marked(s) {
      assert s == [s[0]] + s[1..];
    }
  }

  // ---- agreement ---------------------------------------------------------------------------------

  /** `m` maps exactly the paths of the central directory, each to its data. */
  ghost predicate IsContent(m: Entries, b: Bytes, rows: seq<Row>)
  {
    && (forall i :: 0 <= i < |rows| ==> Path(rows[i]) in m && m[Path(rows[i])] == DataOf(b, rows[i]))
    && (forall n :: n in m ==> exists i :: 0 <= i < |rows| && Path(rows[i]) == n)
  }

  /** Stored regular files of one size, without descriptor or byte order mark, and not too many of them. */
  predicate Readable(rows: seq<Row>)
  {
    && |rows| <= MAX_FILES
    && forall i :: 0 <= i < |rows| ==>
         Plain(rows[i]) && !IsDirectory(rows[i].raw) && !StartsWithMark(rows[i].nameBytes)
  }

  ghost predicate AllNamed(names: Names, l: Limits, shown: Bytes -> string, rows: seq<Row>)
  {
    forall i :: 0 <= i < |rows| ==> NamedBy(names, l, shown, rows[i])
  }

  lemma {:induction false} ReadableTaken(names: Names, l: Limits, rules: Rules, b: Bytes, rows: seq<Row>)
    requires InBounds(b, rows) && AllNamed(names, l, rules.shown, rows) && DistinctKeys(names.lower, rows)
    requires Tightened(l) && (forall s :: rules.safe(s) == SafeName(s)) && Readable(rows)
    ensures TakeAll(rules, b, rows, map[]).Ok? && IsContent(TakeAll(rules, b, rows, map[]).value, b, rows)
  {
    hide SafeName, SafePath, Tightened, IsDirectory, Plain, DataOf;
    forall i | 0 <= i < |rows|
      ensures rules.shown(rows[i].nameBytes) == Path(rows[i]) == rows[i].raw && SafeName(rows[i].raw)
    {
      assert NamedBy(names, l, rules.shown, rows[i]);
      SafeForBoth(names, l, rows[i].raw);
    }
    forall i, j | 0 <= i < j < |rows|
      ensures rules.shown(rows[i].nameBytes) != rules.shown(rows[j].nameBytes)
    {
      assert Key(names.lower, rows[i]) != Key(names.lower, rows[j]);
    }
    TakesAll(rules, b, rows, map[]);
    TakenAll(rules, b, rows, map[]);
  }

  /** The path of the archive under which the walk's name of row `i` is found. */
  lemma {:induction false} ShownIsPath(rules: Rules, b: Bytes, rows: seq<Row>, m: Entries, i: nat) returns (j: nat)
    requires Shows(m, rules, b, rows, map[]) && IsContent(m, b, rows) && i < |rows|
    ensures j < |rows| && Path(rows[j]) == rules.shown(rows[i].nameBytes)
  {
    hide Path, DataOf;
    var shown := rules.shown(rows[i].nameBytes);
    assert shown in m;
    j :| 0 <= j < |rows| && Path(rows[j]) == shown;
  }

  /** A marked row whose shown name is a path of the archive makes that a marked, longer path. */
  lemma {:induction false} LongerMark(names: Names, l: Limits, shown: Bytes -> string, x: Row, y: Row)
    requires NamedBy(names, l, shown, x) && NamedBy(names, l, shown, y)
    requires StartsWithMark(x.nameBytes) && !IsDirectory(y.raw) && Path(y) == shown(x.nameBytes)
    ensures StartsWithMark(y.nameBytes) && |y.raw| > |x.raw|
  {
    hide SafePath;
  }

  lemma {:induction false} NoMark(names: Names, l: Limits, rules: Rules, b: Bytes, rows: seq<Row>, m: Entries, i: nat,
                                  longest: nat)
    requires AllNamed(names, l, rules.shown, rows) && i < |rows|
    requires Shows(m, rules, b, rows, map[]) && IsContent(m, b, rows)
    requires forall j :: 0 <= j < |rows| ==> !IsDirectory(rows[j].raw) && |rows[j].raw| <= longest
    ensures !StartsWithMark(rows[i].nameBytes)
    decreases longest - |rows[i].raw|
  {
    hide Shows, IsContent, NamedBy, IsDirectory, StartsWithMark, Path;
    if StartsWithMark(rows[i].nameBytes) {
      var j := ShownIsPath(rules, b, rows, m, i);
      LongerMark(names, l, rules.shown, rows[i], rows[j]);
      NoMark(names, l, rules, b, rows, m, j, longest);
    }
  }

  function Longest(rows: seq<Row>): (n: nat)
    ensures forall i :: 0 <= i < |rows| ==> |rows[i].raw| <= n
  {
    if rows == [] then 0 else
      var n := Longest(rows[1..]);
      if |rows[0].raw| > n then |rows[0].raw| else n
  }

  lemma {:induction false} TakenReadable(names: Names, l: Limits, rules: Rules, b: Bytes, rows: seq<Row>)
    requires InBounds(b, rows) && AllNamed(names, l, rules.shown, rows)
    requires Tightened(l) && forall s :: rules.safe(s) == SafeName(s)
    requires TakeAll(rules, b, rows, map[]).Ok? && IsContent(TakeAll(rules, b, rows, map[]).value, b, rows)
    ensures Readable(rows)
  {
    hide SafeName, Tightened, SafePath, IsDirectory, Plain, DataOf, Shows, IsContent, StartsWithMark;
    var m := TakeAll(rules, b, rows, map[]).value;
    TakenAll(rules, b, rows, map[]);
    forall i | 0 <= i < |rows|
      ensures !IsDirectory(rows[i].raw)
    {
      assert NamedBy(names, l, rules.shown, rows[i]) && rules.safe(rules.shown(rows[i].nameBytes));
      ShownDirectory(rows[i].raw, rules.shown(rows[i].nameBytes));
    }
    forall i | 0 <= i < |rows|
      ensures !StartsWithMark(rows[i].nameBytes)
    {
      NoMark(names, l, rules, b, rows, m, i, Longest(rows));
    }
  }

  lemma {:induction false} ShownDirectory(raw: string, shown: string)
    requires shown == raw || shown == [Utf8.BOM] + raw
    ensures IsDirectory(raw) ==> !SafeName(shown)
  {
    if IsDirectory(raw) {
      TrailingSlash(shown);
    }
  }

  lemma {:induction false} ContentPermuted(m: Entries, b: Bytes, rows: seq<Row>, ordered: seq<Row>)
    requires multiset(rows) == multiset(ordered) && IsContent(m, b, rows)
    ensures IsContent(m, b, ordered)
  {
    hide DataOf, Path;
    forall i | 0 <= i < |ordered|
      ensures Path(ordered[i]) in m && m[Path(ordered[i])] == DataOf(b, ordered[i])
    {
      var j := Found(ordered, rows, i);
    }
    forall n | n in m
      ensures exists i :: 0 <= i < |ordered| && Path(ordered[i]) == n
    {
      var j :| 0 <= j < |rows| && Path(rows[j]) == n;
      var i := Found(rows, ordered, j);
      assert Path(ordered[i]) == n;
    }
  }

  lemma {:induction false} Found<T>(a: seq<T>, b: seq<T>, i: nat) returns (j: nat)
    requires multiset(a) == multiset(b) && i < |a|
    ensures j < |b| && b[j] == a[i]
  {
    assert a[i] in multiset(b);
    j :| 0 <= j < |b| && b[j] == a[i];
  }

  lemma {:induction false} ReadablePermuted(rows: seq<Row>, ordered: seq<Row>)
    requires multiset(rows) == multiset(ordered) && Readable(rows)
    ensures Readable(ordered)
  {
    hide Plain;
    assert |multiset(rows)| == |rows| && |multiset(ordered)| == |ordered|;
    forall i | 0 <= i < |ordered|
      ensures Plain(ordered[i]) && !IsDirectory(ordered[i].raw) && !StartsWithMark(ordered[i].nameBytes)
    {
      var j := Found(ordered, rows, i);
    }
  }

  lemma {:induction false} KeysPermuted(lower: string -> string, rows: seq<Row>, ordered: seq<Row>)
    requires multiset(rows) == multiset(ordered) && DistinctKeys(lower, rows)
    ensures DistinctKeys(lower, ordered)
  {
    forall i, j | 0 <= i < j < |ordered|
      ensures Key(lower, ordered[i]) != Key(lower, ordered[j])
    {
      var k := Found(ordered, rows, i);
      var n := Found(ordered, rows, j);
      if k == n {
        ZipRoundTrip.TwiceInMultiset(ordered, i, j);
        ZipRoundTrip.OnceInMultiset(rows, k);
      }
    }
  }

  /** What an accepted archive gives both readers to work with. */
  lemma {:induction false} AcceptedAgree(names: Names, l: Limits, lossy: Bytes -> string, b: Bytes, end: nat, rows: seq<Row>)
    requires Accepted(names, l, b, end, rows)
    ensures AllAgree(b, rows) && AllNamed(names, l, ReaderRules(lossy).shown, rows)
    ensures U32(b, end + 16) + 4 <= |b| && LocalsEnd(b, U32(b, end + 16))
  {
    hide U16, U32, Reader, PolicyOf, ListSound, Tightened, EndSound, LastEnd, Listed, LocalAgrees, NamedBy, SafePath;
    var offset := U32(b, end + 16);
    AcceptedRows(names, l, b, end, rows);
    forall i | 0 <= i < |rows|
      ensures LocalAgrees(b, rows[i]) && NamedBy(names, l, ReaderRules(lossy).shown, rows[i])
    {
      assert rows[i] in rows;
      RowAgrees(names, l, b, end, offset, rows[i]);
      RowNamed(names, l, lossy, rows[i]);
    }
    assert rows[0] in rows && CentralSpans(rows)[0].start == offset;
    RowAgrees(names, l, b, end, offset, rows[0]);
    RowForward(names, l, b, end, offset, rows[0]);
  }

  lemma {:induction false} AllPermuted(names: Names, l: Limits, shown: Bytes -> string, b: Bytes, rows: seq<Row>,
                                       ordered: seq<Row>)
    requires multiset(rows) == multiset(ordered) && AllAgree(b, rows) && AllNamed(names, l, shown, rows)
    ensures AllAgree(b, ordered) && AllNamed(names, l, shown, ordered)
  {
    hide LocalAgrees, NamedBy;
    forall i | 0 <= i < |ordered|
      ensures LocalAgrees(b, ordered[i]) && NamedBy(names, l, shown, ordered[i])
    {
      var j := Found(ordered, rows, i);
    }
  }

  lemma {:induction false} AgreeInBounds(b: Bytes, rows: seq<Row>)
    requires AllAgree(b, rows)
    ensures InBounds(b, rows)
  {
    forall i | 0 <= i < |rows|
      ensures rows[i].data + rows[i].c.compressed <= |b|
    {
      assert LocalAgrees(b, rows[i]);
    }
  }

  /** `parseStoredZip` returns exactly what the central directory describes. */
  ghost predicate Agrees(lossy: Bytes -> string, b: Bytes, rows: seq<Row>)
  {
    Parse(lossy, b).Ok? && IsContent(Parse(lossy, b).value, b, rows)
  }

  lemma {:induction false} WalkAccepted(names: Names, l: Limits, lossy: Bytes -> string, b: Bytes, end: nat, rows: seq<Row>)
    requires Accepted(names, l, b, end, rows) && AllAgree(b, SortRows(rows))
    ensures Parse(lossy, b) == TakeAll(ReaderRules(lossy), b, SortRows(rows), map[])
  {
    hide U16, U32, EndSound, LastEnd, Listed, LocalAgrees, TakeAll, LocalsEnd, ReaderRules, SortRows, AllAgree, ParseFrom;
    AcceptedAgree(names, l, lossy, b, end, rows);
    SortRowsSpans(rows);
    Walk(ReaderRules(lossy), b, SortRows(rows), 0, U32(b, end + 16), map[]);
  }

  /**
   * On an archive the preflight accepts, the two readers agree exactly when its entries are at
   * most 10000 stored regular files of equal compressed and expanded size, without data
   * descriptors and without a byte order mark at the start of a name.
   */
  lemma {:induction false} ReadersAgree(names: Names, l: Limits, lossy: Bytes -> string, b: Bytes, end: nat, rows: seq<Row>)
    requires Accepted(names, l, b, end, rows)
    ensures Agrees(lossy, b, rows) <==> Readable(rows)
  {
    hide U16, U32, EndSound, LastEnd, Listed, LocalAgrees, TakeAll, Parse, IsContent, SafeName, NamedBy, SortRows, Chain,
         Sort, DistinctKeys, Tightened, Total, OneCase, AllPrefixes, ParentsAreDirectories, AllAgree, AllNamed, Readable, InBounds;
    var rules, ordered := ReaderRules(lossy), SortRows(rows);
    AcceptedAgree(names, l, lossy, b, end, rows);
    SortRowsSpans(rows);
    AllPermuted(names, l, rules.shown, b, rows, ordered);
    AgreeInBounds(b, ordered);
    WalkAccepted(names, l, lossy, b, end, rows);
    if Readable(rows) {
      ReadablePermuted(rows, ordered);
      KeysPermuted(names.lower, rows, ordered);
      ReadableTaken(names, l, rules, b, ordered);
      ContentPermuted(Parse(lossy, b).value, b, ordered, rows);
    }
    if Agrees(lossy, b, rows) {
      ContentPermuted(Parse(lossy, b).value, b, rows, ordered);
      TakenReadable(names, l, rules, b, ordered);
      ReadablePermuted(ordered, rows);
    }
  }

  /** A byte order mark is dropped by one reader and kept by the other. */
  lemma {:induction false} MarkIsDropped()
    ensures var b: Bytes := [0xEF, 0xBB, 0xBF, 0x61];
            Utf8.FatalDecode(b) == Some("a") && Utf8.Decode(b) == Some([Utf8.BOM, 'a'])
  {
    var s := [Utf8.BOM, 'a'];
    assert s[1..] == ['a'] && s[1..][1..] == [];
    assert Utf8.Encode(s[1..]) == [0x61];
    assert Utf8.Encode(s) == [0xEF, 0xBB, 0xBF, 0x61];
    Utf8.DecodeEncoded(s);
  }

  /** So an accepted archive with such a name is never read alike, even when it is otherwise plain. */
  lemma {:induction false} MarkedNameDisagrees(names: Names, l: Limits, lossy: Bytes -> string, b: Bytes, end: nat,
                                               rows: seq<Row>, i: nat)
    requires Accepted(names, l, b, end, rows) && i < |rows| && StartsWithMark(rows[i].nameBytes)
    ensures !Agrees(lossy, b, rows)
  {
    hide Accepted, Agrees;
    ReadersAgree(names, l, lossy, b, end, rows);
  }
}
