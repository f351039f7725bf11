/**
 * The loops of `preflightCandidateZip` over all entries of a candidate archive: the central
 * directory, the record ranges, the names and their prefixes, and the totals; and exactly which
 * buffers they accept.
 */
module CandidatePreflight {
  import opened Wrappers
  import opened ZipBytes
  import opened CandidateZip
  import opened SlashPaths

  // ---- the central directory -----------------------------------------------------------------

  /** What reading one entry at a position gives. */
  type RowReader = nat -> Option<Row>

  function Reader(policy: Policy, l: Limits, b: Bytes, end: nat, offset: nat): RowReader
    requires offset <= end <= |b|
  {
    (p: nat) => if RowSound(policy, l, b, end, offset, p) then Some(RowAt(policy, l, b, end, offset, p)) else None
  }

  /** The `count` entries from `p` on, when they are sound and end at `end`. */
  function Rows(read: RowReader, end: nat, p: nat, count: nat): Option<seq<Row>>
    decreases count
  {
    if count == 0 then if p == end then Some([]) else None
    else match read(p)
      case None => None
      case Some(row) => Prepend([row], Rows(read, end, NextPos(row), count - 1))
  }

  function Prepend(done: seq<Row>, rest: Option<seq<Row>>): Option<seq<Row>>
  {
    if rest.None? then None else Some(done + rest.value)
  }

  function Total(rows: seq<Row>): nat
  {
    if rows == [] then 0 else Total(rows[..|rows| - 1]) + rows[|rows| - 1].c.expanded
  }

  function Key(lower: string -> string, row: Row): string { lower(Path(row)) }

  ghost predicate DistinctKeys(lower: string -> string, rows: seq<Row>)
  {
    forall i, j :: 0 <= i < j < |rows| ==> Key(lower, rows[i]) != Key(lower, rows[j])
  }

  /** `seen` finds each of `rows` under its key, and nothing else. */
  ghost predicate Indexes(seen: map<string, Row>, lower: string -> string, rows: seq<Row>)
  {
    && (forall row :: row in rows ==> Key(lower, row) in seen && seen[Key(lower, row)] == row)
    && (forall key :: key in seen ==> seen[key] in rows && Key(lower, seen[key]) == key)
  }

  lemma {:induction false} PrependStep(done: seq<Row>, row: Row, rest: Option<seq<Row>>)
    ensures Prepend(done, Prepend([row], rest)) == Prepend(done + [row], rest)
  {
    if rest.Some? {
      assert done + ([row] + rest.value) == (done + [row]) + rest.value;
    }
  }

  lemma {:induction false} TotalGrows(done: seq<Row>, rest: seq<Row>)
    ensures Total(done) <= Total(done + rest)
    decreases |rest|
  {
    if rest == [] {
      assert done + rest == done;
    } else {
      TotalGrows(done, rest[..|rest| - 1]);
      assert (done + rest)[..|done + rest| - 1] == done + rest[..|rest| - 1];
    }
  }

  /** Adding an entry whose key is new. */
  lemma {:induction false} IndexNew(seen: map<string, Row>, lower: string -> string, rows: seq<Row>, row: Row)
    requires Indexes(seen, lower, rows) && DistinctKeys(lower, rows)
    ensures Key(lower, row) !in seen ==>
              Indexes(seen[Key(lower, row) := row], lower, rows + [row]) && DistinctKeys(lower, rows + [row])
    ensures Key(lower, row) in seen ==> forall rest :: !DistinctKeys(lower, rows + [row] + rest)
  {
    var key := Key(lower, row);
    if key in seen {
      var i :| 0 <= i < |rows| && rows[i] == seen[key];
      forall rest
        ensures !DistinctKeys(lower, rows + [row] + rest)
      {
        var all := rows + [row] + rest;
        assert all[i] == rows[i] && all[|rows|] == row;
      }
    } else {
      forall i | 0 <= i < |rows|
        ensures Key(lower, rows[i]) != key
      {
        assert rows[i] in rows;
      }
    }
  }

  /** What the first loop leaves behind. */
  datatype Directory = Directory(rows: seq<Row>, seen: map<string, Row>, total: nat)

  ghost predicate DirectorySound(read: RowReader, l: Limits, lower: string -> string, end: nat, p: nat, count: nat)
  {
    && Rows(read, end, p, count).Some?
    && DistinctKeys(lower, Rows(read, end, p, count).value)
    && Total(Rows(read, end, p, count).value) <= l.totalBytes
  }

  /** The loop's state `d` at position `pos` with `left` entries to go. */
  ghost predicate Reading(read: RowReader, l: Limits, lower: string -> string, end: nat, p: nat, count: nat,
                          d: Directory, pos: nat, left: nat)
  {
    && d.total == Total(d.rows) <= l.totalBytes
    && Indexes(d.seen, lower, d.rows) && DistinctKeys(lower, d.rows)
    && Rows(read, end, p, count) == Prepend(d.rows, Rows(read, end, pos, left))
  }

  lemma {:induction false} ReadNothing(read: RowReader, l: Limits, lower: string -> string, end: nat, p: nat, count: nat,
                                       d: Directory, pos: nat, left: nat)
    requires Reading(read, l, lower, end, p, count, d, pos, left)
    requires if left == 0 then pos != end else read(pos).None?
    ensures !DirectorySound(read, l, lower, end, p, count)
  {
  }

  lemma {:induction false} ReadOne(read: RowReader, l: Limits, lower: string -> string, end: nat, p: nat, count: nat,
                                   d: Directory, pos: nat, left: nat, row: Row)
    requires Reading(read, l, lower, end, p, count, d, pos, left) && left > 0 && read(pos) == Some(row)
    ensures if Key(lower, row) in d.seen || d.total + row.c.expanded > l.totalBytes
            then !DirectorySound(read, l, lower, end, p, count)
            else Reading(read, l, lower, end, p, count,
                         Directory(d.rows + [row], d.seen[Key(lower, row) := row], d.total + row.c.expanded),
                         NextPos(row), left - 1)
  {
    var rest := Rows(read, end, NextPos(row), left - 1);
    PrependStep(d.rows, row, rest);
    IndexNew(d.seen, lower, d.rows, row);
    assert (d.rows + [row])[..|d.rows|] == d.rows;
    if rest.Some? {
      TotalGrows(d.rows + [row], rest.value);
    }
  }

  lemma {:induction false} ReadAll(read: RowReader, l: Limits, lower: string -> string, end: nat, p: nat, count: nat,
                                   d: Directory)
    requires Reading(read, l, lower, end, p, count, d, end, 0)
    ensures DirectorySound(read, l, lower, end, p, count) && Some(d.rows) == Rows(read, end, p, count)
  {
    assert d.rows + [] == d.rows;
  }

  lemma {:induction false} StartReading(read: RowReader, l: Limits, lower: string -> string, end: nat, p: nat, count: nat)
    ensures Reading(read, l, lower, end, p, count, Directory([], map[], 0), p, count)
  {
    var rest := Rows(read, end, p, count);
    assert rest.Some? ==> [] + rest.value == rest.value;
  }

  method ReadAt(ghost read: RowReader, policy: Policy, l: Limits, b: Bytes, end: nat, offset: nat, p: nat)
    returns (r: Option<Row>)
    requires offset <= end <= |b| && read == Reader(policy, l, b, end, offset)
    ensures r == read(p)
  {
    r := ReadRow(policy, l, b, end, offset, p);
  }

  /** The loop over the central directory. */
  method ReadDirectory(ghost read: RowReader, policy: Policy, l: Limits, b: Bytes, end: nat, offset: nat, count: nat)
    returns (r: Option<Directory>)
    requires offset <= end <= |b| && read == Reader(policy, l, b, end, offset)
    ensures r.Some? <==> DirectorySound(read, l, policy.lower, end, offset, count)
    ensures r.Some? ==> Some(r.value.rows) == Rows(read, end, offset, count)
    ensures r.Some? ==> r.value.total == Total(r.value.rows) && Indexes(r.value.seen, policy.lower, r.value.rows)
  {
    hide RowSound, RowAt, Indexes, DistinctKeys, Rows, DirectorySound, Total;
    var pos, d := offset, Directory([], map[], 0);
    StartReading(read, l, policy.lower, end, offset, count);
    var i := 0;
    ghost var left := count;
    while i < count
      invariant i + left == count
      invariant Reading(read, l, policy.lower, end, offset, count, d, pos, left)
    {
      var row := ReadAt(read, policy, l, b, end, offset, pos);
      if row.None? {
        ReadNothing(read, l, policy.lower, end, offset, count, d, pos, left);
        return None;
      }
      var key := policy.lower(Path(row.value));
      ReadOne(read, l, policy.lower, end, offset, count, d, pos, left, row.value);
      if key in d.seen || d.total + row.value.c.expanded > l.totalBytes {
        return None;
      }
      d := Directory(d.rows + [row.value], d.seen[key := row.value], d.total + row.value.c.expanded);
      pos, i, left := NextPos(row.value), i + 1, left - 1;
    }
    if pos != end {
      ReadNothing(read, l, policy.lower, end, offset, count, d, pos, left);
      return None;
    }
    ReadAll(read, l, policy.lower, end, offset, count, d);
    return Some(d);
  }

  // ---- byte ranges ---------------------------------------------------------------------------

  /** The bytes `[start, finish)` of one record. */
  datatype Span = Span(start: nat, finish: nat)

  function LocalSpans(rows: seq<Row>): (spans: seq<Span>)
    ensures |spans| == |rows|
  {
    seq(|rows|, i requires 0 <= i < |rows| => Span(rows[i].c.local, rows[i].finish))
  }

  function Insert(x: Span, spans: seq<Span>): (r: seq<Span>)
  {
    if spans == [] || x.start < spans[0].start then [x] + spans else [spans[0]] + Insert(x, spans[1..])
  }

  /** `ranges.sort((a, b) => a[0] - b[0])`. */
  function Sort(spans: seq<Span>): seq<Span>
  {
    if spans == [] then [] else Insert(spans[0], Sort(spans[1..]))
  }

  /** Each span starts where the one before it ends, from `from` to `to`. */
  predicate Chain(spans: seq<Span>, from: nat, to: nat)
    decreases |spans|
  {
    if spans == [] then from == to else spans[0].start == from && Chain(spans[1..], spans[0].finish, to)
  }

  /** The loop over the sorted ranges. */
  method CheckRanges(spans: seq<Span>, offset: nat) returns (ok: bool)
    ensures ok <==> Chain(Sort(spans), 0, offset)
  {
    var sorted, previous, i := Sort(spans), 0, 0;
    assert sorted[0..] == sorted;
    while i < |sorted|
      invariant 0 <= i <= |sorted|
      invariant Chain(sorted, 0, offset) == Chain(sorted[i..], previous, offset)
    {
      assert sorted[i..][1..] == sorted[i + 1..];
      if sorted[i].start != previous {
        return false;
      }
      previous, i := sorted[i].finish, i + 1;
    }
    return previous == offset;
  }

  // ---- shared prefixes -----------------------------------------------------------------------

  function Parts(row: Row): (parts: seq<string>)
    ensures |parts| >= 1
  {
    Split(Path(row))
  }

  /** `parts.slice(0, i).join('/')`. */
  function Prefix(row: Row, i: nat): string
    requires i <= |Parts(row)|
  {
    Join(Parts(row)[..i])
  }

  /** The first `n` prefixes of a path: its implied directories, and the path itself last. */
  ghost function Prefixes(row: Row, n: nat): set<string>
    requires n <= |Parts(row)|
  {
    set i: nat | 1 <= i <= n :: Prefix(row, i)
  }

  ghost function AllPrefixes(rows: seq<Row>): set<string>
  {
    if rows == [] then {}
    else AllPrefixes(rows[..|rows| - 1]) + Prefixes(rows[|rows| - 1], |Parts(rows[|rows| - 1])|)
  }

  lemma {:induction false} PrefixListed(rows: seq<Row>, x: Row, i: nat)
    requires x in rows && 1 <= i <= |Parts(x)|
    ensures Prefix(x, i) in AllPrefixes(rows)
    decreases |rows|
  {
    var last := |rows| - 1;
    if rows[last] == x {
      assert Prefix(x, i) in Prefixes(x, |Parts(x)|);
    } else {
      assert x in rows[..last];
      PrefixListed(rows[..last], x, i);
    }
  }

  lemma {:induction false} ListedPrefix(rows: seq<Row>, p: string) returns (x: Row, i: nat)
    requires p in AllPrefixes(rows)
    ensures x in rows && 1 <= i <= |Parts(x)| && p == Prefix(x, i)
    decreases |rows|
  {
    var last := |rows| - 1;
    if p in AllPrefixes(rows[..last]) {
      x, i := ListedPrefix(rows[..last], p);
      assert x in rows[..last];
    } else {
      x := rows[last];
      i :| 1 <= i <= |Parts(x)| && p == Prefix(x, i);
    }
  }

  /** Paths that differ at most in case are the same. */
  ghost predicate OneCase(lower: string -> string, paths: set<string>)
  {
    forall p, q :: p in paths && q in paths && lower(p) == lower(q) ==> p == q
  }

  /** An entry in `rows` at the `i`th parent of `row`, up to case, is that directory. */
  ghost predicate ParentAt(lower: string -> string, rows: seq<Row>, row: Row, i: nat)
    requires i <= |Parts(row)|
  {
    forall y :: y in rows && Key(lower, y) == lower(Prefix(row, i)) ==> IsDirectory(y.raw) && Path(y) == Prefix(row, i)
  }

  ghost predicate ParentsOf(lower: string -> string, rows: seq<Row>, row: Row)
  {
    forall i: nat :: 1 <= i < |Parts(row)| ==> ParentAt(lower, rows, row, i)
  }

  ghost predicate ParentsAreDirectories(lower: string -> string, rows: seq<Row>)
  {
    forall x :: x in rows ==> ParentsOf(lower, rows, x)
  }

  /** `cases` finds each of `paths` under its lower case, and nothing else. */
  ghost predicate Cases(cases: map<string, string>, lower: string -> string, paths: set<string>)
  {
    && (forall p :: p in paths ==> lower(p) in cases && cases[lower(p)] == p)
    && (forall key :: key in cases ==> cases[key] in paths && lower(cases[key]) == key)
  }

  lemma {:induction false} CasesGrow(cases: map<string, string>, lower: string -> string, paths: set<string>, p: string,
                                     all: set<string>)
    requires Cases(cases, lower, paths) && paths + {p} <= all
    ensures if lower(p) in cases && cases[lower(p)] != p then !OneCase(lower, all)
            else Cases(cases[lower(p) := p], lower, paths + {p})
  {
  }

  lemma {:induction false} PrefixesStep(row: Row, i: nat)
    requires 1 <= i <= |Parts(row)|
    ensures Prefixes(row, i) == Prefixes(row, i - 1) + {Prefix(row, i)}
    ensures Prefixes(row, i) <= Prefixes(row, |Parts(row)|)
  {
    forall p
      ensures p in Prefixes(row, i) <==> p in Prefixes(row, i - 1) + {Prefix(row, i)}
    {
    }
    forall p | p in Prefixes(row, i)
      ensures p in Prefixes(row, |Parts(row)|)
    {
    }
  }

  /** The first inner loop: every prefix of one entry against all prefixes so far. */
  method CheckPrefixes(lower: string -> string, row: Row, cases: map<string, string>, ghost paths: set<string>,
                       ghost all: set<string>) returns (r: Option<map<string, string>>)
    requires Cases(cases, lower, paths) && paths + Prefixes(row, |Parts(row)|) <= all
    ensures r.None? ==> !OneCase(lower, all)
    ensures r.Some? ==> Cases(r.value, lower, paths + Prefixes(row, |Parts(row)|))
  {
    hide Cases, OneCase, Parts;
    var parts, found, i := Parts(row), cases, 1;
    assert paths + Prefixes(row, 0) == paths;
    while i <= |parts|
      invariant 1 <= i <= |parts| + 1
      invariant Cases(found, lower, paths + Prefixes(row, i - 1))
    {
      var prefix := Join(parts[..i]);
      PrefixesStep(row, i);
      assert paths + Prefixes(row, i) == (paths + Prefixes(row, i - 1)) + {prefix};
      CasesGrow(found, lower, paths + Prefixes(row, i - 1), prefix, all);
      var key := lower(prefix);
      if key in found && found[key] != prefix {
        return None;
      }
      found, i := found[key := prefix], i + 1;
    }
    return Some(found);
  }

  lemma {:induction false} ParentFound(lower: string -> string, rows: seq<Row>, seen: map<string, Row>, row: Row, i: nat)
    requires Indexes(seen, lower, rows) && i <= |Parts(row)|
    ensures ParentAt(lower, rows, row, i) <==>
            (lower(Prefix(row, i)) in seen ==>
               IsDirectory(seen[lower(Prefix(row, i))].raw) && Path(seen[lower(Prefix(row, i))]) == Prefix(row, i))
  {
  }

  /** The second inner loop: every parent of one entry against the entries of the archive. */
  method CheckParents(lower: string -> string, row: Row, seen: map<string, Row>, ghost rows: seq<Row>) returns (ok: bool)
    requires Indexes(seen, lower, rows)
    ensures ok <==> ParentsOf(lower, rows, row)
  {
    hide ParentAt, Indexes, Prefix;
    var parts, i := Parts(row), 1;
    while i < |parts|
      invariant 1 <= i <= |parts|
      invariant forall k: nat :: 1 <= k < i ==> ParentAt(lower, rows, row, k)
    {
      var parent := Prefix(row, i);
      ParentFound(lower, rows, seen, row, i);
      var key := lower(parent);
      if key in seen && (!IsDirectory(seen[key].raw) || Path(seen[key]) != parent) {
        return false;
      }
      i := i + 1;
    }
    return true;
  }

  lemma {:induction false} PrefixesWithin(rows: seq<Row>, n: nat)
    requires n <= |rows|
    ensures AllPrefixes(rows[..n]) <= AllPrefixes(rows)
    decreases |rows| - n
  {
    if n < |rows| {
      PrefixesWithin(rows, n + 1);
      assert rows[..n + 1][..n] == rows[..n];
    } else {
      assert rows[..n] == rows;
    }
  }

  lemma {:induction false} CasesAreOne(cases: map<string, string>, lower: string -> string, paths: set<string>)
    requires Cases(cases, lower, paths)
    ensures OneCase(lower, paths)
  {
  }

  lemma {:induction false} NoCases(lower: string -> string)
    ensures Cases(map[], lower, {})
  {
  }

  /** The loop over all entries for implied directories. */
  method CheckPaths(lower: string -> string, rows: seq<Row>, seen: map<string, Row>) returns (ok: bool)
    requires Indexes(seen, lower, rows)
    ensures ok <==> OneCase(lower, AllPrefixes(rows)) && ParentsAreDirectories(lower, rows)
  {
    hide Cases, OneCase, ParentsOf, Indexes, Prefixes, Parts;
    var cases: map<string, string>, i := map[], 0;
    NoCases(lower);
    while i < |rows|
      invariant 0 <= i <= |rows|
      invariant Cases(cases, lower, AllPrefixes(rows[..i]))
      invariant forall k :: 0 <= k < i ==> ParentsOf(lower, rows, rows[k])
    {
      assert rows[..i + 1][..i] == rows[..i];
      PrefixesWithin(rows, i + 1);
      var found := CheckPrefixes(lower, rows[i], cases, AllPrefixes(rows[..i]), AllPrefixes(rows));
      if found.None? {
        return false;
      }
      var parents := CheckParents(lower, rows[i], seen, rows);
      if !parents {
        assert rows[i] in rows;
        return false;
      }
      cases, i := found.value, i + 1;
    }
    assert rows[..i] == rows;
    CasesAreOne(cases, lower, AllPrefixes(rows));
    return true;
  }

  // ---- the whole preflight -------------------------------------------------------------------

  /** `preflightCandidateZip`'s report. */
  datatype Inspection = Inspection(rows: seq<Row>, totalExpandedBytes: nat, archiveBytes: nat)

  /** The entries of a buffer with a sound end record at `end`. */
  function Listed(names: Names, l: Limits, b: Bytes, end: nat): Option<seq<Row>>
    requires end + 22 <= |b| && EndSound(l, b, end)
  {
    var offset := U32(b, end + 16);
    Rows(Reader(PolicyOf(names, l), l, b, end, offset), end, offset, U16(b, end + 10))
  }

  ghost predicate ListSound(names: Names, l: Limits, rows: seq<Row>, offset: nat)
  {
    && DistinctKeys(names.lower, rows) && Total(rows) <= l.totalBytes
    && Chain(Sort(LocalSpans(rows)), 0, offset)
    && OneCase(names.lower, AllPrefixes(rows)) && ParentsAreDirectories(names.lower, rows)
  }

  /** The buffer ends in one archive of entries `rows` that meets every condition of the preflight. */
  ghost predicate Accepted(names: Names, l: Limits, b: Bytes, end: nat, rows: seq<Row>)
  {
    && Tightened(l) && 22 <= |b| <= l.archiveBytes
    && LastEnd(b, |b| - 22) == Some(end) && EndSound(l, b, end)
    && Listed(names, l, b, end) == Some(rows)
    && ListSound(names, l, rows, U32(b, end + 16))
  }

  method CheckList(names: Names, l: Limits, b: Bytes, end: nat) returns (r: Option<Directory>)
    requires end + 22 <= |b| && EndSound(l, b, end)
    ensures r.Some? <==> Listed(names, l, b, end).Some? && ListSound(names, l, Listed(names, l, b, end).value, U32(b, end + 16))
    ensures r.Some? ==> Listed(names, l, b, end) == Some(r.value.rows) && r.value.total == Total(r.value.rows)
  {
    var count, offset := U16(b, end + 10), U32(b, end + 16);
    var policy := PolicyOf(names, l);
    hide OneCase, DistinctKeys, ParentsAreDirectories, Chain, Sort, Indexes, RowSound;
    var d := ReadDirectory(Reader(policy, l, b, end, offset), policy, l, b, end, offset, count);
    if d.None? {
      return None;
    }
    var tiled := CheckRanges(LocalSpans(d.value.rows), offset);
    if !tiled {
      return None;
    }
    var paths := CheckPaths(names.lower, d.value.rows, d.value.seen);
    return if paths then d else None;
  }

  /** `preflightCandidateZip` returns exactly for the accepted buffers; otherwise it throws. */
  method Preflight(names: Names, l: Limits, b: Bytes) returns (r: Option<Inspection>)
    ensures r.Some? ==> r.value.archiveBytes == |b| && r.value.totalExpandedBytes == Total(r.value.rows)
    ensures r.Some? ==> exists end: nat :: Accepted(names, l, b, end, r.value.rows)
    ensures r.None? ==> forall end: nat, rows :: !Accepted(names, l, b, end, rows)
  {
    hide LastEnd, U16, U32, EndSound, ListSound, Listed;
    if !Tightened(l) || |b| < 22 || |b| > l.archiveBytes {
      return None;
    }
    var end := FindEnd(b);
    if end.None? || !EndSound(l, b, end.value) {
      return None;
    }
    var d := CheckList(names, l, b, end.value);
    if d.None? {
      return None;
    }
    assert Accepted(names, l, b, end.value, d.value.rows);
    return Some(Inspection(d.value.rows, d.value.total, |b|));
  }
}
