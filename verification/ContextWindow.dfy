/**
 * `bestWindow`: the sliding window over a file's lines that covers the most distinct query
 * tokens, with running counts, against choosing it by trying every start.
 */
module ContextWindow {

  /** `line.toLowerCase().includes(token)`, of which nothing is assumed. */
  type Hit = (string, string) -> bool

  ghost predicate Distinct(tokens: seq<string>)
  {
    forall i, j :: 0 <= i < j < |tokens| ==> tokens[i] != tokens[j]
  }

  // ---- counting again from scratch -------------------------------------------------------------

  /** How many of the lines `[from, to)` contain `token`. */
  function Count(hit: Hit, lines: seq<string>, token: string, from: nat, end: nat): (n: nat)
    requires from <= end <= |lines|
    decreases end - from
  {
    if from == end then 0 else Bit(hit(lines[from], token)) + Count(hit, lines, token, from + 1, end)
  }

  function Bit(b: bool): nat { if b then 1 else 0 }

  function Min(a: nat, b: nat): nat { if a < b then a else b }

  ghost predicate Occurs(hit: Hit, lines: seq<string>, token: string, from: nat, end: nat)
    requires from <= end <= |lines|
  {
    exists i :: from <= i < end && hit(lines[i], token)
  }

  /** The tokens that occur in the lines `[from, to)`. */
  ghost function Covered(hit: Hit, lines: seq<string>, tokens: seq<string>, from: nat, end: nat): set<string>
    requires from <= end <= |lines|
  {
    set t | t in tokens && Occurs(hit, lines, t, from, end) :: t
  }

  /** The window of `rest` lines from `start`, cut off at the end of the file. */
  ghost function Coverage(hit: Hit, lines: seq<string>, tokens: seq<string>, start: nat, rest: nat): nat
    requires start <= |lines|
  {
    |Covered(hit, lines, tokens, start, Min(|lines|, start + rest))|
  }

  lemma {:induction false} CountPositive(hit: Hit, lines: seq<string>, token: string, from: nat, end: nat)
    requires from <= end <= |lines|
    ensures Count(hit, lines, token, from, end) > 0 <==> Occurs(hit, lines, token, from, end)
    decreases end - from
  {
    if from < end {
      CountPositive(hit, lines, token, from + 1, end);
    }
  }

  lemma {:induction false} CountLast(hit: Hit, lines: seq<string>, token: string, from: nat, end: nat)
    requires from <= end < |lines|
    ensures Count(hit, lines, token, from, end + 1) == Count(hit, lines, token, from, end) + Bit(hit(lines[end], token))
    decreases end - from
  {
    if from < end {
      CountLast(hit, lines, token, from + 1, end);
    }
  }

  // ---- the running counts ------------------------------------------------------------------------

  /** `counts` are the counts of the lines `[from, to)`. */
  ghost predicate Counts(hit: Hit, lines: seq<string>, tokens: seq<string>, counts: seq<int>, from: nat, end: nat)
  {
    && from <= end <= |lines| && |counts| == |tokens|
    && forall j :: 0 <= j < |tokens| ==> counts[j] == Count(hit, lines, tokens[j], from, end)
  }

  /** `add(idx, delta)` for a line of the file. */
  method Add(hit: Hit, tokens: seq<string>, line: string, delta: int, counts: array<int>)
    requires counts.Length == |tokens|
    modifies counts
    ensures forall j :: 0 <= j < |tokens| ==> counts[j] == old(counts[j]) + Bit(hit(line, tokens[j])) * delta
  {
    for j := 0 to |tokens|
      invariant forall k :: 0 <= k < j ==> counts[k] == old(counts[k]) + Bit(hit(line, tokens[k])) * delta
      invariant forall k :: j <= k < |tokens| ==> counts[k] == old(counts[k])
    {
      counts[j] := counts[j] + (if hit(line, tokens[j]) then delta else 0);
    }
  }

  function Positives(counts: seq<int>): nat
  {
    if counts == [] then 0 else Positives(counts[..|counts| - 1]) + Bit(counts[|counts| - 1] > 0)
  }

  /** `counts.reduce((s, n) => s + (n > 0 ? 1 : 0), 0)`. */
  method Score(counts: array<int>) returns (score: nat)
    ensures score == Positives(counts[..])
  {
    score := 0;
    for j := 0 to counts.Length
      invariant score == Positives(counts[..j])
    {
      assert counts[..j + 1][..j] == counts[..j];
      score := score + Bit(counts[j] > 0);
    }
    assert counts[..counts.Length] == counts[..];
  }

  /** The score of the running counts is the number of distinct tokens covered. */
  lemma {:induction false} ScoreIsCoverage(hit: Hit, lines: seq<string>, tokens: seq<string>, counts: seq<int>, from: nat,
                                           end: nat)
    requires Counts(hit, lines, tokens, counts, from, end) && Distinct(tokens)
    ensures Positives(counts) == |Covered(hit, lines, tokens, from, end)|
    decreases |tokens|
  {
    if tokens == [] {
      assert Covered(hit, lines, tokens, from, end) == {};
    } else {
      var n := |tokens| - 1;
      var t, fewer := tokens[n], tokens[..n];
      ScoreIsCoverage(hit, lines, fewer, counts[..n], from, end);
      CountPositive(hit, lines, t, from, end);
      CoveredSplit(hit, lines, tokens, from, end);
    }
  }

  lemma {:induction false} CoveredSplit(hit: Hit, lines: seq<string>, tokens: seq<string>, from: nat, end: nat)
    requires from <= end <= |lines| && tokens != [] && Distinct(tokens)
    ensures var n := |tokens| - 1;
            var before := Covered(hit, lines, tokens[..n], from, end);
            && tokens[n] !in before
            && Covered(hit, lines, tokens, from, end)
               == if Occurs(hit, lines, tokens[n], from, end) then before + {tokens[n]} else before
  {
    var n := |tokens| - 1;
    assert tokens == tokens[..n] + [tokens[n]];
    forall t
      ensures t in tokens <==> t in tokens[..n] || t == tokens[n]
    {
    }
  }

  lemma {:induction false} LeftLine(hit: Hit, lines: seq<string>, tokens: seq<string>, before: seq<int>, after: seq<int>,
                                    from: nat, end: nat)
    requires Counts(hit, lines, tokens, before, from, end) && from < end && |after| == |tokens|
    requires forall j :: 0 <= j < |tokens| ==> after[j] == before[j] + Bit(hit(lines[from], tokens[j])) * -1
    ensures Counts(hit, lines, tokens, after, from + 1, end)
  {
  }

  lemma {:induction false} EnteredLine(hit: Hit, lines: seq<string>, tokens: seq<string>, before: seq<int>, after: seq<int>,
                                       from: nat, end: nat)
    requires Counts(hit, lines, tokens, before, from, end) && end < |lines| && |after| == |tokens|
    requires forall j :: 0 <= j < |tokens| ==> after[j] == before[j] + Bit(hit(lines[end], tokens[j])) * 1
    ensures Counts(hit, lines, tokens, after, from, end + 1)
  {
    forall j | 0 <= j < |tokens|
      ensures after[j] == Count(hit, lines, tokens[j], from, end + 1)
    {
      CountLast(hit, lines, tokens[j], from, end);
    }
  }

  // ---- the best start ------------------------------------------------------------------------------

  /** The leftmost start in `[head, upTo)` whose window covers the most distinct tokens. */
  ghost predicate Leftmost(hit: Hit, lines: seq<string>, tokens: seq<string>, head: nat, upTo: nat, rest: nat, best: nat)
    requires upTo <= |lines|
  {
    && head <= best < upTo
    && (forall s :: head <= s < upTo ==>
          Coverage(hit, lines, tokens, s, rest) <= Coverage(hit, lines, tokens, best, rest))
    && (forall s :: head <= s < best ==>
          Coverage(hit, lines, tokens, s, rest) < Coverage(hit, lines, tokens, best, rest))
  }

  /** The counts of the first window. */
  method FirstCounts(hit: Hit, lines: seq<string>, tokens: seq<string>, head: nat, end: nat) returns (counts: array<int>)
    requires head <= end <= |lines|
    ensures fresh(counts) && Counts(hit, lines, tokens, counts[..], head, end)
  {
    counts := new int[|tokens|](_ => 0);
    for i := head to end
      invariant fresh(counts) && counts.Length == |tokens| && Counts(hit, lines, tokens, counts[..], head, i)
    {
      ghost var before := counts[..];
      Add(hit, tokens, lines[i], 1, counts);
      EnteredLine(hit, lines, tokens, before, counts[..], head, i);
    }
  }

  /** One step of the window to `start`: the line before it leaves, the line at its end enters. */
  method Slide(hit: Hit, lines: seq<string>, tokens: seq<string>, counts: array<int>, start: nat, rest: nat)
    requires rest > 0 && 0 < start < |lines|
    requires Counts(hit, lines, tokens, counts[..], start - 1, Min(|lines|, start - 1 + rest))
    modifies counts
    ensures Counts(hit, lines, tokens, counts[..], start, Min(|lines|, start + rest))
  {
    ghost var before := counts[..];
    var end := Min(|lines|, start - 1 + rest);
    Add(hit, tokens, lines[start - 1], -1, counts);
    LeftLine(hit, lines, tokens, before, counts[..], start - 1, end);
    var addIndex := start + rest - 1;
    if addIndex < |lines| {
      ghost var between := counts[..];
      Add(hit, tokens, lines[addIndex], 1, counts);
      EnteredLine(hit, lines, tokens, between, counts[..], start, addIndex);
    }
  }

  method BestStart(hit: Hit, lines: seq<string>, tokens: seq<string>, head: nat, rest: nat) returns (bestStart: nat)
    requires Distinct(tokens) && rest > 0 && head < |lines|
    ensures Leftmost(hit, lines, tokens, head, |lines|, rest, bestStart)
  {
    hide Counts, Covered;
    var counts := FirstCounts(hit, lines, tokens, head, Min(|lines|, head + rest));
    var best := Score(counts);
    ScoreIsCoverage(hit, lines, tokens, counts[..], head, Min(|lines|, head + rest));
    bestStart := head;
    for start := head + 1 to |lines|
      invariant Counts(hit, lines, tokens, counts[..], start - 1, Min(|lines|, start - 1 + rest))
      invariant Leftmost(hit, lines, tokens, head, start, rest, bestStart)
      invariant best == Coverage(hit, lines, tokens, bestStart, rest) && fresh(counts)
    {
      Slide(hit, lines, tokens, counts, start, rest);
      var score := Score(counts);
      ScoreIsCoverage(hit, lines, tokens, counts[..], start, Min(|lines|, start + rest));
      if score > best {
        best, bestStart := score, start;
      }
    }
  }

  // ---- the ranges ----------------------------------------------------------------------------------

  /** Lines `first` to `last`, counted from 1. */
  datatype Range = Range(first: nat, last: nat)

  function Lines(ranges: seq<Range>): int
  {
    if ranges == [] then 0 else ranges[0].last - ranges[0].first + 1 + Lines(ranges[1..])
  }

  /** Ordered, disjoint, within the file and of at most `maxLines` lines. */
  ghost predicate GoodRanges(ranges: seq<Range>, n: nat, maxLines: nat)
  {
    && (forall i :: 0 <= i < |ranges| ==> 1 <= ranges[i].first <= ranges[i].last + 1 && ranges[i].last <= n)
    && (forall i, j :: 0 <= i < j < |ranges| ==> ranges[i].last < ranges[j].first)
    && Lines(ranges) <= maxLines
  }

  /** A fifth of the lines, at least 10 and at most 30. */
  function Head(maxLines: nat): (h: nat)
    ensures maxLines < 50 ==> h == 10
    ensures 50 <= maxLines < 150 ==> 5 * h <= maxLines < 5 * (h + 1)
    ensures 150 <= maxLines ==> h == 30
  {
    var fifth := maxLines / 5;
    if fifth < 10 then 10 else Min(30, fifth)
  }

  /** `[...new Set(tokens)]`. */
  function Unique(tokens: seq<string>): (r: seq<string>)
    ensures Distinct(r) && forall t :: t in r <==> t in tokens
  {
    if tokens == [] then []
    else
      var before := Unique(tokens[..|tokens| - 1]);
      var last := tokens[|tokens| - 1];
      assert tokens == tokens[..|tokens| - 1] + [last];
      if last in before then before else before + [last]
  }

  lemma {:induction false} LinesOf(x: Range, y: Range)
    ensures Lines([x]) == x.last - x.first + 1
    ensures Lines([x, y]) == Lines([x]) + (y.last - y.first + 1)
  {
    assert [x][1..] == [] && [x, y][1..] == [y] && [y][1..] == [];
  }

  /** `bestWindow`: the head of the file, and the window after it that covers the most query tokens. */
  method BestWindow(hit: Hit, lines: seq<string>, queryTokens: seq<string>, maxLines: nat)
    returns (ranges: seq<Range>, ghost b: nat)
    ensures GoodRanges(ranges, |lines|, maxLines)
    ensures |lines| <= maxLines ==> ranges == [Range(1, |lines|)]
    ensures |lines| > maxLines && (maxLines <= Head(maxLines) || queryTokens == []) ==> ranges == [Range(1, maxLines)]
    ensures |lines| > maxLines > Head(maxLines) && queryTokens != [] ==>
              Leftmost(hit, lines, Unique(queryTokens), Head(maxLines), |lines|, maxLines - Head(maxLines), b)
    ensures |lines| > maxLines > Head(maxLines) && queryTokens != [] ==>
              ranges == if b == Head(maxLines) then [Range(1, maxLines)]
                        else [Range(1, Head(maxLines)), Range(b + 1, Min(|lines|, b + maxLines - Head(maxLines)))]
  {
    hide Leftmost;
    b := 0;
    LinesOf(Range(1, Min(|lines|, maxLines)), Range(1, 0));
    if |lines| <= maxLines {
      return [Range(1, |lines|)], b;
    }
    var head := Head(maxLines);
    var tokens := Unique(queryTokens);
    if maxLines <= head || tokens == [] {
      assert queryTokens != [] ==> queryTokens[0] in tokens;
      return [Range(1, maxLines)], b;
    }
    var rest := maxLines - head;
    var start := BestStart(hit, lines, tokens, head, rest);
    LeftmostBounds(hit, lines, tokens, head, |lines|, rest, start);
    b := start;
    if start == head {
      return [Range(1, maxLines)], b;
    }
    ranges := [Range(1, head), Range(start + 1, Min(|lines|, start + rest))];
    LinesOf(ranges[0], ranges[1]);
  }

  lemma {:induction false} LeftmostBounds(hit: Hit, lines: seq<string>, tokens: seq<string>, head: nat, upTo: nat, rest: nat,
                                          b: nat)
    requires upTo <= |lines| && Leftmost(hit, lines, tokens, head, upTo, rest, b)
    ensures head <= b < upTo
  {
  }
}
