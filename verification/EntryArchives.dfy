/**
 * Archives of entries with any host, flags, method and attributes: exactly which of them
 * `preflightCandidateZip` accepts, and what it reports of them.
 */
module EntryArchives {
  import opened Wrappers
  import opened ZipBytes
  import opened StoredZip
  import opened CandidateZip
  import opened CandidatePreflight
  import opened SlashPaths
  import opened EntryRecords
  import ZipRoundTrip

  // ---- the rows of a written directory -----------------------------------------------------------

  /** Where the central and the local record of `e` end. */
  function AfterCentral(e: Entry, p: nat): nat { p + 46 + |e.name| }

  function AfterLocal(e: Entry, local: nat): nat { local + 30 + |e.name| + |e.stored| + DescriptorSize(e) }

  /** The rows for entries whose central records start at `p` and whose local records start at `local`. */
  function RowsOf(es: seq<Entry>, p: nat, local: nat): (rows: seq<Row>)
    ensures |rows| == |es|
    decreases |es|
  {
    if es == [] then []
    else
      [RowOf(es[0], p, local)] + RowsOf(es[1..], AfterCentral(es[0], p), AfterLocal(es[0], local))
  }

  function LocalsFrom(es: seq<Entry>): Bytes
    decreases |es|
  {
    if es == [] then [] else LocalOfEntry(es[0]) + LocalsFrom(es[1..])
  }

  /** The central records of entries whose local records start at `offset`. */
  function CentralsFrom(es: seq<Entry>, offset: nat): Bytes
    decreases |es|
  {
    if es == [] then [] else CentralOfEntry(es[0], offset) + CentralsFrom(es[1..], offset + |LocalOfEntry(es[0])|)
  }

  function TotalExpanded(es: seq<Entry>): nat
  {
    if es == [] then 0 else es[0].expanded + TotalExpanded(es[1..])
  }

  predicate AllPass(policy: Policy, l: Limits, es: seq<Entry>)
  {
    forall e :: e in es ==> Passes(policy, l, e)
  }

  predicate AllSmall(es: seq<Entry>) { forall e :: e in es ==> Small(e) }

  /** Both record lists from some entry on, where they stand. */
  ghost predicate Stands(b: Bytes, end: nat, offset: nat, es: seq<Entry>, p: nat, local: nat)
  {
    && At(b, p, CentralsFrom(es, local)) && p + |CentralsFrom(es, local)| == end
    && At(b, local, LocalsFrom(es)) && local + |LocalsFrom(es)| == offset
  }

  lemma {:induction false} StandsFirst(
      b: Bytes, end: nat, offset: nat, es: seq<Entry>, p: nat, local: nat, nextP: nat, nextLocal: nat)
    requires es != [] && Stands(b, end, offset, es, p, local)
    requires nextP == AfterCentral(es[0], p) && nextLocal == AfterLocal(es[0], local)
    ensures At(b, local, LocalOfEntry(es[0])) && At(b, p, CentralOfEntry(es[0], local))
    ensures nextP <= end && nextLocal <= offset
    ensures Stands(b, end, offset, es[1..], nextP, nextLocal)
  {
    hide At;
    RecordLengths(es[0], local);
    AtSplit(b, p, CentralOfEntry(es[0], local), CentralsFrom(es[1..], nextLocal));
    AtSplit(b, local, LocalOfEntry(es[0]), LocalsFrom(es[1..]));
  }

  lemma {:induction false} RowsStep(
      es: seq<Entry>, p: nat, local: nat, nextP: nat, nextLocal: nat)
    requires es != []
    requires nextP == AfterCentral(es[0], p) && nextLocal == AfterLocal(es[0], local)
    ensures RowsOf(es, p, local) == [RowOf(es[0], p, local)] + RowsOf(es[1..], nextP, nextLocal)
  {
    hide RowOf, AfterCentral, AfterLocal;
  }

  lemma {:induction false} RowFacts(e: Entry, p: nat, local: nat, nextP: nat, nextLocal: nat)
    requires nextP == AfterCentral(e, p) && nextLocal == AfterLocal(e, local)
    ensures NextPos(RowOf(e, p, local)) == nextP
    ensures RowOf(e, p, local).c.local == local && RowOf(e, p, local).finish == nextLocal
    ensures RowOf(e, p, local).raw == Decoded(e) && RowOf(e, p, local).c.expanded == e.expanded
  {
  }

  lemma {:induction false} AllPassFirst(policy: Policy, l: Limits, es: seq<Entry>)
    requires es != []
    ensures AllPass(policy, l, es) <==> Passes(policy, l, es[0]) && AllPass(policy, l, es[1..])
  {
    hide Passes;
    assert forall g :: g in es <==> g == es[0] || g in es[1..];
  }

  lemma {:induction false} RowsNext(read: RowReader, end: nat, p: nat, count: nat, rest: nat)
    requires count == rest + 1
    ensures read(p).None? ==> Rows(read, end, p, count).None?
    ensures read(p).Some? ==>
              Rows(read, end, p, count) == Prepend([read(p).value], Rows(read, end, NextPos(read(p).value), rest))
  {
  }

  /** The directory lists exactly the entries as written, when each of them passes. */
  lemma {:induction false} RowsIff(
      read: RowReader, policy: Policy, l: Limits, b: Bytes, end: nat, offset: nat, es: seq<Entry>, p: nat,
      local: nat)
    requires offset <= end <= |b| && l.fileBytes < NO_ZIP64 && AllSmall(es) && offset < NO_ZIP64
    requires read == Reader(policy, l, b, end, offset) && Stands(b, end, offset, es, p, local)
    ensures Rows(read, end, p, |es|) == if AllPass(policy, l, es) then Some(RowsOf(es, p, local)) else None
    decreases |es|
  {
    hide Passes, RowOf, RowsOf, Stands, RowSound, RowAt, Small, At, AllPass, NextPos, Rows, LocalOfEntry, CentralOfEntry;
    if es == [] {
      StandsLast(b, end, offset, p, local);
      NoRows(read, policy, l, end, p, local);
    } else {
      var e := es[0];
      var nextP, nextLocal := AfterCentral(e, p), AfterLocal(e, local);
      StandsFirst(b, end, offset, es, p, local, nextP, nextLocal);
      FirstRow(read, policy, l, b, end, offset, e, p, local);
      RowFacts(e, p, local, nextP, nextLocal);
      RowsIff(read, policy, l, b, end, offset, es[1..], nextP, nextLocal);
      AllPassFirst(policy, l, es);
      RowsStep(es, p, local, nextP, nextLocal);
      RowsNext(read, end, p, |es|, |es[1..]|);
    }
  }

  lemma {:induction false} NoRows(read: RowReader, policy: Policy, l: Limits, end: nat, p: nat, local: nat)
    requires p == end
    ensures AllPass(policy, l, []) && Rows(read, end, p, 0) == Some(RowsOf([], p, local))
  {
  }

  lemma {:induction false} FirstRow(
      read: RowReader, policy: Policy, l: Limits, b: Bytes, end: nat, offset: nat, e: Entry, p: nat, local: nat)
    requires offset <= end <= |b| && l.fileBytes < NO_ZIP64 && Small(e) && offset < NO_ZIP64
    requires read == Reader(policy, l, b, end, offset)
    requires At(b, local, LocalOfEntry(e)) && local + 30 + |e.name| + |e.stored| + DescriptorSize(e) <= offset
    requires At(b, p, CentralOfEntry(e, local)) && p + 46 + |e.name| <= end
    ensures read(p) == if Passes(policy, l, e) then Some(RowOf(e, p, local)) else None
  {
    hide Passes, RowOf, RowSound, RowAt, At;
    RowIff(policy, l, b, end, offset, p, e, local);
  }

  lemma {:induction false} StandsLast(b: Bytes, end: nat, offset: nat, p: nat, local: nat)
    requires Stands(b, end, offset, [], p, local)
    ensures p == end && local == offset
  {
  }

  // ---- the ranges --------------------------------------------------------------------------------

  predicate StartsAscend(spans: seq<Span>) { forall i :: 0 <= i < |spans| - 1 ==> spans[i].start < spans[i + 1].start }

  lemma {:induction false} SortedAlready(spans: seq<Span>)
    requires StartsAscend(spans)
    ensures Sort(spans) == spans
    decreases |spans|
  {
    if |spans| > 1 {
      assert forall i :: 0 <= i < |spans[1..]| ==> spans[1..][i] == spans[i + 1];
      SortedAlready(spans[1..]);
    }
  }

  lemma {:induction false} SpansCons(row: Row, rest: seq<Row>)
    ensures LocalSpans([row] + rest) == [Span(row.c.local, row.finish)] + LocalSpans(rest)
  {
  }

  lemma {:induction false} ChainCons(s: Span, spans: seq<Span>, to_: nat)
    requires StartsAscend(spans) && Chain(spans, s.finish, to_) && s.start < s.finish
    ensures StartsAscend([s] + spans) && Chain([s] + spans, s.start, to_)
  {
    assert ([s] + spans)[1..] == spans;
  }

  lemma {:induction false} SpansTile(es: seq<Entry>, p: nat, local: nat, end: nat)
    requires end == local + |LocalsFrom(es)|
    ensures StartsAscend(LocalSpans(RowsOf(es, p, local)))
    ensures Chain(LocalSpans(RowsOf(es, p, local)), local, end)
    decreases |es|
  {
    hide RowOf, LocalSpans, Chain, StartsAscend, RowsOf;
    if es == [] {
      NoSpans(p, local);
    } else {
      var e := es[0];
      var nextP, nextLocal := AfterCentral(e, p), AfterLocal(e, local);
      RecordLengths(e, local);
      SpansTile(es[1..], nextP, nextLocal, end);
      RowsStep(es, p, local, nextP, nextLocal);
      RowFacts(e, p, local, nextP, nextLocal);
      var rest := RowsOf(es[1..], nextP, nextLocal);
      SpansCons(RowOf(e, p, local), rest);
      ChainCons(Span(local, nextLocal), LocalSpans(rest), end);
    }
  }

  lemma {:induction false} NoSpans(p: nat, local: nat)
    ensures StartsAscend(LocalSpans(RowsOf([], p, local)))
    ensures Chain(LocalSpans(RowsOf([], p, local)), local, local)
  {
  }

  lemma {:induction false} RowsDecoded(es: seq<Entry>, p: nat, local: nat)
    ensures forall i :: 0 <= i < |es| ==> RowsOf(es, p, local)[i].raw == Decoded(es[i])
    ensures Total(RowsOf(es, p, local)) == TotalExpanded(es)
    decreases |es|
  {
    hide Decoded, RowOf, RowsOf;
    if es == [] {
      RowsEmpty(p, local);
    } else {
      var e := es[0];
      var nextP, nextLocal := AfterCentral(e, p), AfterLocal(e, local);
      RowsDecoded(es[1..], nextP, nextLocal);
      RowsStep(es, p, local, nextP, nextLocal);
      RowFacts(e, p, local, nextP, nextLocal);
      TotalFront([RowOf(e, p, local)], RowsOf(es[1..], nextP, nextLocal));
      TotalOne(RowOf(e, p, local));
    }
  }

  lemma {:induction false} RowsEmpty(p: nat, local: nat)
    ensures RowsOf([], p, local) == []
  {
  }

  lemma {:induction false} TotalOne(row: Row)
    ensures Total([row]) == row.c.expanded
  {
    assert [row][..0] == [];
  }

  lemma {:induction false} TotalFront(a: seq<Row>, b: seq<Row>)
    ensures Total(a + b) == Total(a) + Total(b)
    decreases |b|
  {
    if b == [] {
      assert a + b == a;
    } else {
      TotalFront(a, b[..|b| - 1]);
      assert (a + b)[..|a + b| - 1] == a + b[..|b| - 1];
    }
  }

  // ---- the names against each other --------------------------------------------------------------

  function PartsOf(raw: string): (parts: seq<string>)
    ensures |parts| >= 1
  {
    Split(PathOf(raw))
  }

  /** The first `i` parts of a path. */
  function Ancestor(raw: string, i: nat): string
    requires i <= |PartsOf(raw)|
  {
    Join(PartsOf(raw)[..i])
  }

  ghost predicate DistinctUpToCase(lower: string -> string, raws: seq<string>)
  {
    forall i, j :: 0 <= i < j < |raws| ==> lower(PathOf(raws[i])) != lower(PathOf(raws[j]))
  }

  /** Paths and their ancestors are spelled in one way only. */
  ghost predicate OneSpelling(lower: string -> string, raws: seq<string>)
  {
    forall x, y, i: nat, j: nat ::
      (x in raws && y in raws && 1 <= i <= |PartsOf(x)| && 1 <= j <= |PartsOf(y)|
       && lower(Ancestor(x, i)) == lower(Ancestor(y, j)))
      ==> Ancestor(x, i) == Ancestor(y, j)
  }

  /** A path that is, up to case, a proper ancestor of another is that directory. */
  ghost predicate AncestorsAreDirectories(lower: string -> string, raws: seq<string>)
  {
    forall x, y, i: nat ::
      x in raws && y in raws && 1 <= i < |PartsOf(x)| && lower(PathOf(y)) == lower(Ancestor(x, i)) ==>
        IsDirectory(y) && PathOf(y) == Ancestor(x, i)
  }

  ghost predicate NamesAgree(lower: string -> string, raws: seq<string>)
  {
    DistinctUpToCase(lower, raws) && OneSpelling(lower, raws) && AncestorsAreDirectories(lower, raws)
  }

  ghost predicate Named(rows: seq<Row>, raws: seq<string>)
  {
    |rows| == |raws| && forall i :: 0 <= i < |rows| ==> rows[i].raw == raws[i]
  }

  lemma {:induction false} KeysIff(lower: string -> string, rows: seq<Row>, raws: seq<string>)
    requires Named(rows, raws)
    ensures DistinctKeys(lower, rows) <==> DistinctUpToCase(lower, raws)
  {
    hide PathOf;
    assert forall i :: 0 <= i < |rows| ==> Key(lower, rows[i]) == lower(PathOf(raws[i]));
  }

  lemma {:induction false} RowNamed(rows: seq<Row>, raws: seq<string>, x: Row)
    requires Named(rows, raws) && x in rows
    ensures x.raw in raws
  {
    var i :| 0 <= i < |rows| && rows[i] == x;
    assert raws[i] == x.raw;
  }

  lemma {:induction false} NamedRow(rows: seq<Row>, raws: seq<string>, raw: string) returns (x: Row)
    requires Named(rows, raws) && raw in raws
    ensures x in rows && x.raw == raw
  {
    var i :| 0 <= i < |raws| && raws[i] == raw;
    x := rows[i];
  }

  lemma {:induction false} SameAncestor(x: Row, i: nat)
    requires i <= |Parts(x)|
    ensures Parts(x) == PartsOf(x.raw) && Prefix(x, i) == Ancestor(x.raw, i)
  {
  }

  lemma {:induction false} SpellingIff(lower: string -> string, rows: seq<Row>, raws: seq<string>)
    requires Named(rows, raws)
    ensures OneCase(lower, AllPrefixes(rows)) <==> OneSpelling(lower, raws)
  {
    hide Named, PartsOf, Ancestor, Parts, Prefix, AllPrefixes;
    if OneSpelling(lower, raws) {
      forall p, q | p in AllPrefixes(rows) && q in AllPrefixes(rows) && lower(p) == lower(q) ensures p == q {
        var x, i := ListedPrefix(rows, p);
        var y, j := ListedPrefix(rows, q);
        RowNamed(rows, raws, x);
        RowNamed(rows, raws, y);
        SameAncestor(x, i);
        SameAncestor(y, j);
      }
    }
    if OneCase(lower, AllPrefixes(rows)) {
      forall x, y, i: nat, j: nat |
          x in raws && y in raws && 1 <= i <= |PartsOf(x)| && 1 <= j <= |PartsOf(y)|
          && lower(Ancestor(x, i)) == lower(Ancestor(y, j))
        ensures Ancestor(x, i) == Ancestor(y, j)
      {
        Listed(rows, raws, x, i);
        Listed(rows, raws, y, j);
      }
    }
  }

  lemma {:induction false} Listed(rows: seq<Row>, raws: seq<string>, raw: string, i: nat)
    requires Named(rows, raws) && raw in raws && 1 <= i <= |PartsOf(raw)|
    ensures Ancestor(raw, i) in AllPrefixes(rows)
  {
    hide AllPrefixes;
    var x := NamedRow(rows, raws, raw);
    SameAncestor(x, i);
    PrefixListed(rows, x, i);
  }

  lemma {:induction false} ParentsIff(lower: string -> string, rows: seq<Row>, raws: seq<string>)
    requires Named(rows, raws)
    ensures ParentsAreDirectories(lower, rows) <==> AncestorsAreDirectories(lower, raws)
  {
    hide Named, PartsOf, Ancestor, Parts, Prefix, PathOf, IsDirectory;
    if AncestorsAreDirectories(lower, raws) {
      forall x, y, i: nat | x in rows && 1 <= i < |Parts(x)| && y in rows && Key(lower, y) == lower(Prefix(x, i))
        ensures IsDirectory(y.raw) && Path(y) == Prefix(x, i)
      {
        RowNamed(rows, raws, x);
        RowNamed(rows, raws, y);
        SameAncestor(x, i);
      }
    }
    if ParentsAreDirectories(lower, rows) {
      forall x, y, i: nat |
          x in raws && y in raws && 1 <= i < |PartsOf(x)| && lower(PathOf(y)) == lower(Ancestor(x, i))
        ensures IsDirectory(y) && PathOf(y) == Ancestor(x, i)
      {
        var s := NamedRow(rows, raws, x);
        var r := NamedRow(rows, raws, y);
        SameAncestor(s, 0);
        SameAncestor(s, i);
        assert ParentsOf(lower, rows, s) && ParentAt(lower, rows, s, i);
      }
    }
  }

  // ---- the whole archive -------------------------------------------------------------------------

  function ArchiveOf(es: seq<Entry>): Bytes
  {
    var locals, centrals := LocalsFrom(es), CentralsFrom(es, 0);
    locals + (centrals + Pack(EndFields(|es|, |centrals|, |locals|)))
  }

  function NamesOf(es: seq<Entry>): seq<string> { seq(|es|, i requires 0 <= i < |es| => Decoded(es[i])) }

  /** The conditions on the entries of a written archive. */
  ghost predicate AcceptableEntries(names: Names, l: Limits, es: seq<Entry>)
  {
    && Tightened(l) && |ArchiveOf(es)| <= l.archiveBytes
    && 0 < |es| <= l.entries && AllPass(PolicyOf(names, l), l, es)
    && TotalExpanded(es) <= l.totalBytes && NamesAgree(names.lower, NamesOf(es))
  }

  /** The rows the preflight reports for a written archive. */
  function EntryRows(es: seq<Entry>): seq<Row> { RowsOf(es, |LocalsFrom(es)|, 0) }

  lemma {:induction false} EndWords(b: Bytes, e: nat, fields: seq<Field>, count: nat, size: nat, offset: nat)
    requires fields == EndFields(count, size, offset) && At(b, e, Pack(fields))
    ensures e + 22 <= |b| && |Pack(fields)| == 22 && U16(b, e + 4) == 0 && U16(b, e + 6) == 0
  {
    hide U16, U32, Pack;
    ZipRoundTrip.EndLength(fields, count, size, offset);
    assert FieldStart(fields, 1) == 4;
    assert FieldStart(fields, 2) == 6;
    ReadFieldAt16(b, e, fields, 1, e + 4);
    ReadFieldAt16(b, e, fields, 2, e + 6);
  }

  lemma {:induction false} EndStands(x: Bytes, y: Bytes, count: nat, b: Bytes, end: nat, l: Limits)
    requires b == x + (y + Pack(EndFields(count, |y|, |x|))) && end == |x| + |y|
    requires count < 0xffff && |x| < NO_ZIP64 && |y| < NO_ZIP64
    ensures end + 22 == |b| && LastEnd(b, |b| - 22) == Some(end)
    ensures U16(b, end + 10) == count && U32(b, end + 16) == |x|
    ensures EndSound(l, b, end) <==> 0 < count <= l.entries
  {
    hide U16, U32, Pack;
    var fields := EndFields(count, |y|, |x|);
    ZipRoundTrip.ThreeParts(x, y, Pack(fields));
    EndWords(b, end, fields, count, |y|, |x|);
    ZipRoundTrip.EndFieldsAt(b, end, fields, count, |y|, |x|);
  }

  lemma {:induction false} DirectoryIff(
      names: Names, l: Limits, es: seq<Entry>, b: Bytes, end: nat, offset: nat)
    requires b == ArchiveOf(es) && AllSmall(es) && l.fileBytes < NO_ZIP64
    requires offset == |LocalsFrom(es)| < NO_ZIP64 && end == |b| - 22 && offset <= end <= |b|
    ensures Rows(Reader(PolicyOf(names, l), l, b, end, offset), end, offset, |es|)
            == if AllPass(PolicyOf(names, l), l, es) then Some(EntryRows(es)) else None
  {
    hide Pack, AllPass, PolicyOf, AllSmall, Rows, At, RowsOf, RowSound, RowAt;
    var locals, centrals := LocalsFrom(es), CentralsFrom(es, 0);
    var fields := EndFields(|es|, |centrals|, |locals|);
    ZipRoundTrip.ThreeParts(locals, centrals, Pack(fields));
    ZipRoundTrip.EndLength(fields, |es|, |centrals|, |locals|);
    RowsIff(Reader(PolicyOf(names, l), l, b, end, offset), PolicyOf(names, l), l, b, end, offset, es, offset, 0);
  }

  lemma {:induction false} ListIff(names: Names, l: Limits, es: seq<Entry>, offset: nat)
    requires offset == |LocalsFrom(es)|
    ensures ListSound(names, l, EntryRows(es), offset)
            <==> TotalExpanded(es) <= l.totalBytes && NamesAgree(names.lower, NamesOf(es))
  {
    hide RowsOf, DistinctKeys, OneCase, ParentsAreDirectories, DistinctUpToCase, OneSpelling,
         AncestorsAreDirectories, Decoded, Chain, Sort, AllPrefixes, Total, TotalExpanded;
    var rows, raws := EntryRows(es), NamesOf(es);
    RowsDecoded(es, offset, 0);
    SpansTile(es, offset, 0, offset);
    SortedAlready(LocalSpans(rows));
    assert Named(rows, raws);
    KeysIff(names.lower, rows, raws);
    SpellingIff(names.lower, rows, raws);
    ParentsIff(names.lower, rows, raws);
  }

  /**
   * The preflight accepts an archive of entries with any hosts, flags, methods and attributes exactly
   * under these conditions on their numbers, and then reports them as they were written.
   */
  lemma {:induction false} AcceptedIff(
      names: Names, l: Limits, es: seq<Entry>, b: Bytes, end: nat, rows: seq<Row>)
    requires b == ArchiveOf(es) && |es| < 0xffff && forall e :: e in es ==> Representable(e)
    ensures Accepted(names, l, b, end, rows)
            <==> AcceptableEntries(names, l, es) && end == |b| - 22 && rows == EntryRows(es)
  {
    hide Pack, AllPass, NamesAgree, ListSound, EntryRows, Rows, EndSound, LastEnd, PolicyOf,
         U16, U32, EndFields, LocalsFrom, CentralsFrom, TotalExpanded;
    if Tightened(l) && |b| <= l.archiveBytes {
      var locals, centrals := LocalsFrom(es), CentralsFrom(es, 0);
      var last := |locals| + |centrals|;
      EndStands(locals, centrals, |es|, b, last, l);
      DataFits(es);
      DirectoryIff(names, l, es, b, last, |locals|);
      ListIff(names, l, es, |locals|);
    }
  }

  /** Data that is in an archive below 4 GiB fits its field. */
  lemma {:induction false} DataFits(es: seq<Entry>)
    requires |LocalsFrom(es)| < NO_ZIP64 && forall e :: e in es ==> Representable(e)
    ensures AllSmall(es)
    decreases |es|
  {
    hide Representable;
    if es != [] {
      assert es[0] in es;
      RecordLengths(es[0], 0);
      DataFits(es[1..]);
      assert forall e :: e in es <==> e == es[0] || e in es[1..];
    }
  }
}
