/**
 * What the range checks of the preflight mean: the local records, the central records and the
 * end record of an accepted archive lie one behind the other from its first byte to its last, so
 * every byte belongs to exactly one record.
 */
module CandidateTiling {
  import opened Wrappers
  import opened ZipBytes
  import opened CandidateZip
  import opened CandidatePreflight

  predicate Inside(x: nat, span: Span) { span.start <= x < span.finish }

  /** How many of the spans contain `x`. */
  function Count(spans: seq<Span>, x: nat): nat
  {
    if spans == [] then 0 else (if Inside(x, spans[0]) then 1 else 0) + Count(spans[1..], x)
  }

  /** `spans` contain every byte of `[from, to)` once, and no other byte. */
  ghost predicate Tile(spans: seq<Span>, from: nat, to: nat)
  {
    forall x: nat :: Count(spans, x) == if from <= x < to then 1 else 0
  }

  ghost predicate Forward(spans: seq<Span>) {
    forall s :: s in spans ==> s.start < s.finish
  }

  ghost predicate Sorted(spans: seq<Span>) {
    forall i, j :: 0 <= i < j < |spans| ==> spans[i].start <= spans[j].start
  }

  // ---- sorting -------------------------------------------------------------------------------

  lemma {:induction false} InsertKeeps(x: Span, spans: seq<Span>)
    ensures multiset(Insert(x, spans)) == multiset([x] + spans)
    ensures Sorted(spans) ==> Sorted(Insert(x, spans))
    decreases |spans|
  {
    if spans != [] && x.start >= spans[0].start {
      InsertKeeps(x, spans[1..]);
      assert spans == [spans[0]] + spans[1..];
      InsertedAfter(x, spans);
    }
  }

  lemma {:induction false} InsertedAfter(x: Span, spans: seq<Span>)
    requires spans != [] && x.start >= spans[0].start && multiset(Insert(x, spans[1..])) == multiset([x] + spans[1..])
    requires Sorted(spans) ==> Sorted(Insert(x, spans[1..]))
    ensures Sorted(spans) ==> Sorted([spans[0]] + Insert(x, spans[1..]))
  {
    if Sorted(spans) {
      var more := Insert(x, spans[1..]);
      forall j | 0 <= j < |more|
        ensures spans[0].start <= more[j].start
      {
        assert more[j] in multiset([x] + spans[1..]);
        assert more[j] in [x] + spans[1..];
      }
    }
  }

  lemma {:induction false} SortKeeps(spans: seq<Span>)
    ensures multiset(Sort(spans)) == multiset(spans) && Sorted(Sort(spans))
    decreases |spans|
  {
    if spans != [] {
      SortKeeps(spans[1..]);
      InsertKeeps(spans[0], Sort(spans[1..]));
      assert spans == [spans[0]] + spans[1..];
    }
  }

  lemma {:induction false} CountAppend(a: seq<Span>, b: seq<Span>, x: nat)
    ensures Count(a + b, x) == Count(a, x) + Count(b, x)
    decreases |a|
  {
    if a == [] {
      assert a + b == b;
    } else {
      assert (a + b)[1..] == a[1..] + b;
      CountAppend(a[1..], b, x);
    }
  }

  lemma {:induction false} CountInsert(y: Span, spans: seq<Span>, x: nat)
    ensures Count(Insert(y, spans), x) == Count([y] + spans, x)
    decreases |spans|
  {
    assert ([y] + spans)[1..] == spans;
    if spans != [] && y.start >= spans[0].start {
      CountInsert(y, spans[1..], x);
      assert ([y] + spans[1..])[1..] == spans[1..];
      assert ([spans[0]] + Insert(y, spans[1..]))[1..] == Insert(y, spans[1..]);
    }
  }

  /** Sorting does not change what is covered. */
  lemma {:induction false} CountSort(spans: seq<Span>, x: nat)
    ensures Count(Sort(spans), x) == Count(spans, x)
    decreases |spans|
  {
    if spans != [] {
      CountSort(spans[1..], x);
      CountInsert(spans[0], Sort(spans[1..]), x);
      assert ([spans[0]] + Sort(spans[1..]))[1..] == Sort(spans[1..]);
    }
  }

  // ---- a chain is a tiling -------------------------------------------------------------------

  lemma {:induction false} ChainTiles(spans: seq<Span>, from: nat, to: nat)
    requires Chain(spans, from, to) && Forward(spans)
    ensures from <= to && Tile(spans, from, to)
    decreases |spans|
  {
    if spans != [] {
      assert spans[0] in spans;
      ChainTiles(spans[1..], spans[0].finish, to);
    }
  }

  lemma {:induction false} CountPositive(spans: seq<Span>, x: nat) returns (i: nat)
    requires Count(spans, x) > 0
    ensures i < |spans| && Inside(x, spans[i])
    decreases |spans|
  {
    if Inside(x, spans[0]) {
      return 0;
    }
    var k := CountPositive(spans[1..], x);
    return k + 1;
  }

  lemma {:induction false} TilesChain(spans: seq<Span>, from: nat, to: nat)
    requires Tile(spans, from, to) && Forward(spans) && Sorted(spans) && from <= to
    ensures Chain(spans, from, to)
    decreases |spans|
  {
    if spans == [] {
      assert Count(spans, from) == 0;
    } else {
      var s := spans[0];
      assert s in spans;
      assert Count(spans, s.start) > 0;
      var i := CountPositive(spans, from);
      assert s.start == from;
      assert Count(spans, s.finish - 1) > 0;
      forall x: nat
        ensures Count(spans[1..], x) == if s.finish <= x < to then 1 else 0
      {
        assert Count(spans, x) == if from <= x < to then 1 else 0;
      }
      TilesChain(spans[1..], s.finish, to);
    }
  }

  /** The loop over the sorted ranges accepts exactly the ranges that cover every byte once. */
  lemma {:induction false} RangesTile(spans: seq<Span>, offset: nat)
    requires Forward(spans)
    ensures Chain(Sort(spans), 0, offset) <==> Tile(spans, 0, offset)
  {
    SortKeeps(spans);
    forall s | s in Sort(spans)
      ensures s.start < s.finish
    {
      assert s in multiset(Sort(spans));
      assert s in spans;
    }
    forall x: nat
      ensures Count(Sort(spans), x) == Count(spans, x)
    {
      CountSort(spans, x);
    }
    if Chain(Sort(spans), 0, offset) {
      ChainTiles(Sort(spans), 0, offset);
      assert forall x: nat :: Count(Sort(spans), x) == Count(spans, x);
    }
    if Tile(spans, 0, offset) {
      assert Tile(Sort(spans), 0, offset);
      TilesChain(Sort(spans), 0, offset);
    }
  }

  // ---- the whole archive ---------------------------------------------------------------------

  function CentralSpans(rows: seq<Row>): seq<Span>
  {
    seq(|rows|, i requires 0 <= i < |rows| => Span(rows[i].pos, NextPos(rows[i])))
  }

  /** All records of an archive: the local ones, the central ones and the end record with its comment. */
  function Records(rows: seq<Row>, end: nat, size: nat): seq<Span>
  {
    LocalSpans(rows) + CentralSpans(rows) + [Span(end, size)]
  }

  ghost predicate RowsFrom(read: RowReader, rows: seq<Row>)
  {
    forall row :: row in rows ==> read(row.pos) == Some(row)
  }

  lemma {:induction false} RowsAreRead(read: RowReader, end: nat, p: nat, count: nat)
    requires Rows(read, end, p, count).Some? && forall q: nat :: read(q).Some? ==> read(q).value.pos == q
    ensures |Rows(read, end, p, count).value| == count
    ensures RowsFrom(read, Rows(read, end, p, count).value)
    ensures Chain(CentralSpans(Rows(read, end, p, count).value), p, end)
    decreases count
  {
    if count > 0 {
      var row := read(p).value;
      RowsAreRead(read, end, NextPos(row), count - 1);
      var rest := Rows(read, end, NextPos(row), count - 1).value;
      assert CentralSpans([row] + rest)[1..] == CentralSpans(rest);
    }
  }

  /** Each row of an accepted archive is a sound reading of its position. */
  lemma {:induction false} AcceptedRows(names: Names, l: Limits, b: Bytes, end: nat, rows: seq<Row>)
    requires Accepted(names, l, b, end, rows)
    ensures U32(b, end + 16) <= end <= |b| && 0 < |rows| == U16(b, end + 10) <= l.entries
    ensures RowsFrom(Reader(PolicyOf(names, l), l, b, end, U32(b, end + 16)), rows)
    ensures Chain(CentralSpans(rows), U32(b, end + 16), end)
  {
    hide U16, U32, RowSound, RowAt, PolicyOf, ListSound, Tightened, LastEnd;
    var offset := U32(b, end + 16);
    RowsAreRead(Reader(PolicyOf(names, l), l, b, end, offset), end, offset, U16(b, end + 10));
  }

  lemma {:induction false} RowForward(names: Names, l: Limits, b: Bytes, end: nat, offset: nat, row: Row)
    requires offset <= end <= |b| && Reader(PolicyOf(names, l), l, b, end, offset)(row.pos) == Some(row)
    ensures row.c.local + 30 <= row.data <= row.data + row.c.compressed <= row.finish <= offset
    ensures row.pos + 46 <= NextPos(row)
  {
  }

  /** Every byte of an accepted archive lies in exactly one of its records. */
  lemma {:induction false} EveryByteInOneRecord(names: Names, l: Limits, b: Bytes, end: nat, rows: seq<Row>)
    requires Accepted(names, l, b, end, rows)
    ensures Tile(LocalSpans(rows), 0, U32(b, end + 16))
    ensures Tile(CentralSpans(rows), U32(b, end + 16), end)
    ensures Tile(Records(rows, end, |b|), 0, |b|)
  {
    hide U16, U32, Reader, PolicyOf, Tightened, EndSound, LastEnd, Listed;
    var offset := U32(b, end + 16);
    AcceptedRows(names, l, b, end, rows);
    forall row | row in rows
      ensures row.c.local < row.finish && row.pos < NextPos(row)
    {
      RowForward(names, l, b, end, offset, row);
    }
    RangesTile(LocalSpans(rows), offset);
    ChainTiles(CentralSpans(rows), offset, end);
    EndTiles(b, end, l);
    forall x: nat
      ensures Count(Records(rows, end, |b|), x) == if 0 <= x < |b| then 1 else 0
    {
      CountAppend(LocalSpans(rows) + CentralSpans(rows), [Span(end, |b|)], x);
      CountAppend(LocalSpans(rows), CentralSpans(rows), x);
      assert [Span(end, |b|)][1..] == [];
    }
  }

  lemma {:induction false} EndTiles(b: Bytes, end: nat, l: Limits)
    requires |b| >= 22 && LastEnd(b, |b| - 22) == Some(end)
    ensures end + 22 <= |b|
  {
  }
}
