/**
 * The re-entrant JSON framer of the stdio gate: a string-aware bracket scanner
 * and the loop that cuts a buffer into fragments.
 */
module JsonFraming {
  import opened Wrappers
  import opened JsText

  // ---- the bracket scanner -------------------------------------------------

  /** Loop state of the scanner: expected closers (innermost last) and string mode. */
  datatype Scan = Scan(stack: Text, inString: bool, escaped: bool)

  datatype Next = Continue(scan: Scan) | Stop(malformed: bool)

  /** Where scanning stopped, as a number of units read, and whether on a wrong closer. */
  datatype End = End(len: nat, malformed: bool)

  function Opened(open: unit): Scan
  {
    Scan([CloserOf(open)], false, false)
  }

  function Step(s: Scan, c: unit): (n: Next)
    requires s.stack != []
    ensures n.Continue? ==> n.scan.stack != []
  {
    if s.inString then
      if s.escaped then Continue(s.(escaped := false))
      else if c == BACKSLASH then Continue(s.(escaped := true))
      else Continue(s.(inString := c != QUOTE))
    else if c == QUOTE then Continue(s.(inString := true))
    else if IsOpener(c) then Continue(s.(stack := s.stack + [CloserOf(c)]))
    else if IsCloser(c) then
      if c != s.stack[|s.stack| - 1] then Stop(true)
      else if |s.stack| == 1 then Stop(false)
      else Continue(s.(stack := s.stack[..|s.stack| - 1]))
    else Continue(s)
  }

  function FindEnd(s: Scan, t: Text): (r: Option<End>)
    requires s.stack != []
    ensures r.Some? ==> 1 <= r.value.len <= |t|
    decreases |t|
  {
    if t == [] then None
    else match Step(s, t[0])
      case Stop(malformed) => Some(End(1, malformed))
      case Continue(s') =>
        match FindEnd(s', t[1..])
        case None => None
        case Some(e) => Some(End(e.len + 1, e.malformed))
  }

  /** The scanner, started at `start`, stops just before `end`; -1 when it never stops. */
  ghost predicate EndsAt(text: Text, start: nat, end: int, malformed: bool)
    requires start < |text|
  {
    match FindEnd(Opened(text[start]), text[start + 1..])
    case None => end == -1 && !malformed
    case Some(e) => end == start + 1 + e.len && malformed == e.malformed
  }

  /** `findJsonEnd`: the source's loop, equal to the recursive scanner. */
  method FindJsonEnd(text: Text, start: nat) returns (end: int, malformed: bool)
    requires start < |text| && IsOpener(text[start])
    ensures EndsAt(text, start, end, malformed)
  {
    var stack := [CloserOf(text[start])];
    var inString, escaped := false, false;
    var i := start + 1;
    ghost var whole := FindEnd(Opened(text[start]), text[start + 1..]);
    while i < |text|
      invariant start + 1 <= i <= |text| && stack != []
      invariant whole == match FindEnd(Scan(stack, inString, escaped), text[i..])
                         case None => None
                         case Some(e) => Some(End(e.len + (i - start - 1), e.malformed))
    {
      var ch := text[i];
      assert text[i..][0] == ch && text[i..][1..] == text[i + 1..];
      ghost var next := Step(Scan(stack, inString, escaped), ch);
      if inString {
        if escaped {
          escaped := false;
        } else if ch == BACKSLASH {
          escaped := true;
        } else if ch == QUOTE {
          inString := false;
        }
      } else if ch == QUOTE {
        inString := true;
      } else if IsOpener(ch) {
        stack := stack + [CloserOf(ch)];
      } else if IsCloser(ch) {
        if ch != stack[|stack| - 1] {
          return i + 1, true;
        }
        stack := stack[..|stack| - 1];
        if |stack| == 0 {
          return i + 1, false;
        }
      }
      assert next == Continue(Scan(stack, inString, escaped));
      i := i + 1;
    }
    return -1, false;
  }

  /** An end found in a prefix is the same end in every extension. */
  lemma {:induction false} FindEndExtends(s: Scan, t: Text, u: Text)
    requires s.stack != []
    requires FindEnd(s, t).Some?
    ensures FindEnd(s, t + u) == FindEnd(s, t)
    decreases |t|
  {
    assert (t + u)[1..] == t[1..] + u;
    if Step(s, t[0]).Continue? {
      FindEndExtends(Step(s, t[0]).scan, t[1..], u);
    }
  }

  // ---- cutting a buffer into fragments --------------------------------------

  datatype Fragment = Noise(raw: Text) | Json(raw: Text) | Malformed(raw: Text)

  datatype Extracted = Extracted(fragments: seq<Fragment>, remaining: Text)

  function IndexOf(t: Text, c: unit, from: nat): (r: int)
    requires from <= |t|
    ensures r == -1 || from <= r < |t|
    ensures forall i :: from <= i < (if r < 0 then |t| else r) ==> t[i] != c
    ensures r >= 0 ==> t[r] == c
    decreases |t| - from
  {
    if from == |t| then -1
    else if t[from] == c then from
    else IndexOf(t, c, from + 1)
  }

  predicate NoOpener(t: Text, from: nat, to: nat)
    requires from <= to <= |t|
  {
    forall i :: from <= i < to ==> !IsOpener(t[i])
  }

  /** `findNextJsonStart`: the nearer of the next `{` and the next `[`, or -1. */
  function FindNextJsonStart(t: Text, from: nat): (r: int)
    requires from <= |t|
    ensures r == -1 || from <= r < |t|
    ensures r == -1 ==> NoOpener(t, from, |t|)
    ensures r >= 0 ==> IsOpener(t[r]) && NoOpener(t, from, r)
  {
    var obj := IndexOf(t, OPEN_BRACE, from);
    var arr := IndexOf(t, OPEN_BRACKET, from);
    if obj < 0 then arr
    else if arr < 0 then obj
    else if obj < arr then obj else arr
  }

  /** `Math.max(rest.lastIndexOf('\n'), rest.lastIndexOf('\r'))`. */
  function LastNewline(t: Text): (r: int)
    ensures -1 <= r < |t|
    ensures r >= 0 ==> IsNewline(t[r])
    ensures forall i :: r < i < |t| ==> !IsNewline(t[i])
  {
    if t == [] then -1
    else if IsNewline(t[|t| - 1]) then |t| - 1
    else LastNewline(t[..|t| - 1])
  }

  function Classify(valid: Text -> bool, raw: Text, malformed: bool): Fragment
  {
    if malformed || !valid(raw) then Malformed(raw) else Json(raw)
  }

  function Prepend(f: Fragment, e: Extracted): Extracted
  {
    e.(fragments := [f] + e.fragments)
  }

  /** What the framer makes of a buffer; `valid` is `JSON.parse` accepting a text. */
  function Extract(valid: Text -> bool, t: Text): Extracted
    decreases |t|
  {
    if t == [] then Extracted([], [])
    else
      var start := FindNextJsonStart(t, 0);
      if start < 0 then
        var nl := LastNewline(t);
        if nl >= 0 then Extracted([Noise(t[..nl + 1])], t[nl + 1..]) else Extracted([], t)
      else if start > 0 then
        Prepend(Noise(t[..start]), Extract(valid, t[start..]))
      else
        match FindEnd(Opened(t[0]), t[1..])
        case None => Extracted([], t)
        case Some(e) =>
          Prepend(Classify(valid, t[..e.len + 1], e.malformed), Extract(valid, t[e.len + 1..]))
  }

  /** `extractJsonFragments`: the source's position-advancing loop. */
  method ExtractJsonFragments(valid: Text -> bool, buffer: Text) returns (fragments: seq<Fragment>, remaining: Text)
    ensures Extracted(fragments, remaining) == Extract(valid, buffer)
  {
    fragments := [];
    var pos := 0;
    ghost var todo := Extract(valid, buffer);
    assert buffer[0..] == buffer;
    while pos < |buffer|
      invariant 0 <= pos <= |buffer|
      invariant todo == Extract(valid, buffer[pos..])
      invariant Extract(valid, buffer) == Extracted(fragments + todo.fragments, todo.remaining)
    {
      var start := FindNextJsonStart(buffer, pos);
      if start < 0 {
        var rest := buffer[pos..];
        var lastNewline := LastNewline(rest);
        ShiftedStart(buffer, pos);
        ExtractOfNoise(valid, rest);
        if lastNewline >= 0 {
          return fragments + [Noise(rest[..lastNewline + 1])], rest[lastNewline + 1..];
        }
        return fragments, rest;
      }
      if start > pos {
        ExtractAfterNoise(valid, buffer, pos, start);
        Assoc(fragments, [Noise(buffer[pos..start])], Extract(valid, buffer[start..]).fragments);
        fragments := fragments + [Noise(buffer[pos..start])];
        todo := Extract(valid, buffer[start..]);
      }
      var end, malformed := FindJsonEnd(buffer, start);
      ExtractAtOpener(valid, buffer, start, end, malformed);
      if end < 0 {
        return fragments, buffer[start..];
      }
      var raw := buffer[start..end];
      todo := Extract(valid, buffer[end..]);
      Assoc(fragments, [Classify(valid, raw, malformed)], todo.fragments);
      if malformed {
        fragments := fragments + [Malformed(raw)];
      } else if valid(raw) {
        fragments := fragments + [Json(raw)];
      } else {
        fragments := fragments + [Malformed(raw)];
      }
      pos := end;
    }
    return fragments, [];
  }

  lemma {:induction false} ExtractAfterNoise(valid: Text -> bool, buffer: Text, pos: nat, start: nat)
    requires pos < start < |buffer| && FindNextJsonStart(buffer, pos) == start
    ensures Extract(valid, buffer[pos..]) == Prepend(Noise(buffer[pos..start]), Extract(valid, buffer[start..]))
  {
    ShiftedStart(buffer, pos);
    var rest := buffer[pos..];
    assert rest[..start - pos] == buffer[pos..start] && rest[start - pos..] == buffer[start..];
  }

  lemma {:induction false} ExtractOfNoise(valid: Text -> bool, t: Text)
    requires t != [] && FindNextJsonStart(t, 0) < 0
    ensures Extract(valid, t) == if LastNewline(t) >= 0
                                 then Extracted([Noise(t[..LastNewline(t) + 1])], t[LastNewline(t) + 1..])
                                 else Extracted([], t)
  {
  }

  lemma {:induction false} ExtractAtOpener(valid: Text -> bool, buffer: Text, start: nat, end: int, malformed: bool)
    requires start < |buffer| && IsOpener(buffer[start]) && EndsAt(buffer, start, end, malformed)
    ensures end < 0 ==> Extract(valid, buffer[start..]) == Extracted([], buffer[start..])
    ensures end >= 0 ==>
              start < end <= |buffer|
              && Extract(valid, buffer[start..])
                 == Prepend(Classify(valid, buffer[start..end], malformed), Extract(valid, buffer[end..]))
  {
    var here := buffer[start..];
    assert here[1..] == buffer[start + 1..];
    ExtractOpened(valid, here);
    if end >= 0 {
      assert here[..end - start] == buffer[start..end];
      assert here[end - start..] == buffer[end..];
    }
  }

  lemma {:induction false} ExtractOpened(valid: Text -> bool, t: Text)
    requires t != [] && IsOpener(t[0])
    ensures match FindEnd(Opened(t[0]), t[1..])
            case None => Extract(valid, t) == Extracted([], t)
            case Some(e) =>
              Extract(valid, t) == Prepend(Classify(valid, t[..e.len + 1], e.malformed), Extract(valid, t[e.len + 1..]))
  {
    IsFirstOpener(t, 0, 0);
  }

  lemma {:induction false} IsFirstOpener(t: Text, from: nat, k: nat)
    requires from <= k < |t| && IsOpener(t[k]) && NoOpener(t, from, k)
    ensures FindNextJsonStart(t, from) == k
  {
  }

  lemma {:induction false} ShiftedStart(t: Text, pos: nat)
    requires pos <= |t|
    ensures FindNextJsonStart(t, pos) < 0 <==> FindNextJsonStart(t[pos..], 0) < 0
    ensures FindNextJsonStart(t, pos) >= 0 ==> FindNextJsonStart(t[pos..], 0) == FindNextJsonStart(t, pos) - pos
  {
    var r, u := FindNextJsonStart(t, pos), t[pos..];
    assert forall i :: pos <= i < |t| ==> t[i] == u[i - pos];
    if r >= 0 {
      IsFirstOpener(u, 0, r - pos);
    }
  }

  // ---- chunk independence ----------------------------------------------------

  /** Fragments with adjacent noise merged: noise is split into single units. */
  datatype Piece = NoiseUnit(c: unit) | JsonPiece(raw: Text) | MalformedPiece(raw: Text)

  function NoiseUnits(t: Text): seq<Piece>
  {
    seq(|t|, i requires 0 <= i < |t| => NoiseUnit(t[i]))
  }

  function PiecesOf(f: Fragment): seq<Piece>
  {
    match f
    case Noise(raw) => NoiseUnits(raw)
    case Json(raw) => [JsonPiece(raw)]
    case Malformed(raw) => [MalformedPiece(raw)]
  }

  function Pieces(fs: seq<Fragment>): seq<Piece>
  {
    if fs == [] then [] else PiecesOf(fs[0]) + Pieces(fs[1..])
  }

  /** The framer's result with adjacent noise merged. */
  datatype Framed = Framed(pieces: seq<Piece>, remaining: Text)

  function Frame(valid: Text -> bool, t: Text): Framed
  {
    var e := Extract(valid, t);
    Framed(Pieces(e.fragments), e.remaining)
  }

  lemma {:induction false} FrameOfNoise(valid: Text -> bool, t: Text)
    requires BracketFree(t)
    ensures Frame(valid, t) == Framed(NoiseUnits(t[..LastNewline(t) + 1]), t[LastNewline(t) + 1..])
  {
    var nl := LastNewline(t);
    if t == [] {
      assert Frame(valid, t) == Framed([], []);
    } else {
      assert FindNextJsonStart(t, 0) < 0;
      if nl >= 0 {
        var flushed := Noise(t[..nl + 1]);
        assert Extract(valid, t) == Extracted([flushed], t[nl + 1..]);
        PiecesOfOne(flushed);
      } else {
        assert Extract(valid, t) == Extracted([], t);
      }
    }
  }

  lemma {:induction false} PiecesOfOne(f: Fragment)
    ensures Pieces([f]) == PiecesOf(f)
  {
    assert [f][1..] == [];
    assert PiecesOf(f) + [] == PiecesOf(f);
  }

  lemma {:induction false} FrameAfterNoise(valid: Text -> bool, noise: Text, t: Text)
    requires BracketFree(noise) && t != [] && IsOpener(t[0])
    ensures Frame(valid, noise + t) == Framed(NoiseUnits(noise) + Frame(valid, t).pieces, Frame(valid, t).remaining)
  {
    if noise == [] {
      assert noise + t == t;
    } else {
      assert (noise + t)[..|noise|] == noise && (noise + t)[|noise|..] == t;
      IsFirstOpener(noise + t, 0, |noise|);
    }
  }

  lemma {:induction false} FrameAtOpener(valid: Text -> bool, t: Text)
    requires t != [] && IsOpener(t[0])
    ensures match FindEnd(Opened(t[0]), t[1..])
            case None => Frame(valid, t) == Framed([], t)
            case Some(e) =>
              var rest := Frame(valid, t[e.len + 1..]);
              Frame(valid, t) == Framed(PiecesOf(Classify(valid, t[..e.len + 1], e.malformed)) + rest.pieces, rest.remaining)
  {
    ExtractOpened(valid, t);
  }

  /** Bracket-free text put before more input: what it flushes early, it would have flushed later. */
  lemma {:induction false} NoiseThenMore(valid: Text -> bool, flushed: Text, kept: Text, u: Text)
    requires BracketFree(flushed) && BracketFree(kept)
    requires flushed == [] || IsNewline(flushed[|flushed| - 1])
    ensures var rest := Frame(valid, kept + u);
            Frame(valid, (flushed + kept) + u) == Framed(NoiseUnits(flushed) + rest.pieces, rest.remaining)
  {
    var start := FindNextJsonStart(u, 0);
    if start < 0 {
      Assoc(flushed, kept, u);
      NoiseThenNoise(valid, flushed, kept + u);
    } else {
      Cut(u, start);
      NoiseThenOpener(valid, flushed, kept + u[..start], u[start..]);
      Assoc(kept, u[..start], u[start..]);
      Assoc(flushed, kept + u[..start], u[start..]);
      Assoc(flushed, kept, u);
    }
  }

  lemma {:induction false} NoiseThenNoise(valid: Text -> bool, flushed: Text, later: Text)
    requires BracketFree(flushed) && BracketFree(later)
    requires flushed == [] || IsNewline(flushed[|flushed| - 1])
    ensures var rest := Frame(valid, later);
            Frame(valid, flushed + later) == Framed(NoiseUnits(flushed) + rest.pieces, rest.remaining)
  {
    FrameOfNoise(valid, flushed + later);
    FrameOfNoise(valid, later);
    LastNewlineOfAppend(flushed, later);
    var k := LastNewline(later) + 1;
    CutAfter(flushed, later, k);
    NoiseUnitsAppend(flushed, later[..k]);
  }

  lemma {:induction false} NoiseThenOpener(valid: Text -> bool, flushed: Text, later: Text, t: Text)
    requires BracketFree(flushed) && BracketFree(later) && t != [] && IsOpener(t[0])
    ensures var rest := Frame(valid, later + t);
            Frame(valid, (flushed + later) + t) == Framed(NoiseUnits(flushed) + rest.pieces, rest.remaining)
  {
    FrameAfterNoise(valid, flushed + later, t);
    FrameAfterNoise(valid, later, t);
    NoiseUnitsAppend(flushed, later);
    Assoc(NoiseUnits(flushed), NoiseUnits(later), Frame(valid, t).pieces);
  }

  lemma {:induction false} LastNewlineOfAppend(a: Text, b: Text)
    requires a == [] || IsNewline(a[|a| - 1])
    ensures LastNewline(a + b) == |a| + LastNewline(b)
  {
    var r, r' := LastNewline(a + b), LastNewline(b);
    assert r' >= 0 ==> (a + b)[|a| + r'] == b[r'];
    assert r >= |a| ==> b[r - |a|] == (a + b)[r];
    assert a != [] ==> (a + b)[|a| - 1] == a[|a| - 1];
  }

  lemma {:induction false} CutAfter<T>(a: seq<T>, b: seq<T>, k: nat)
    requires k <= |b|
    ensures (a + b)[..|a| + k] == a + b[..k] && (a + b)[|a| + k..] == b[k..]
  {
  }

  lemma {:induction false} NoiseUnitsAppend(a: Text, b: Text)
    ensures NoiseUnits(a + b) == NoiseUnits(a) + NoiseUnits(b)
  {
  }

  /** Framing `t` and then what it left plus `u` is framing `t + u` at once. */
  ghost predicate Resumable(valid: Text -> bool, t: Text, u: Text)
  {
    var first := Frame(valid, t);
    var second := Frame(valid, first.remaining + u);
    Frame(valid, t + u) == Framed(first.pieces + second.pieces, second.remaining)
  }

  lemma {:induction false} TwoChunks(valid: Text -> bool, t: Text, u: Text)
    ensures Resumable(valid, t, u)
    decreases |t|
  {
    var start := FindNextJsonStart(t, 0);
    if start < 0 {
      FrameOfNoise(valid, t);
      var k := LastNewline(t) + 1;
      Cut(t, k);
      NoiseThenMore(valid, t[..k], t[k..], u);
    } else if start > 0 {
      TwoChunks(valid, t[start..], u);
      ResumableAfterNoise(valid, t[..start], t[start..], u);
      Cut(t, start);
    } else {
      match FindEnd(Opened(t[0]), t[1..])
      case None => ResumableWhenOpen(valid, t, u);
      case Some(e) =>
        TwoChunks(valid, t[e.len + 1..], u);
        ResumableAfterEnd(valid, t, e, u);
    }
  }

  lemma {:induction false} ResumableAfterNoise(valid: Text -> bool, noise: Text, rest: Text, u: Text)
    requires BracketFree(noise) && rest != [] && IsOpener(rest[0])
    requires Resumable(valid, rest, u)
    ensures Resumable(valid, noise + rest, u)
  {
    FrameAfterNoise(valid, noise, rest);
    FrameAfterNoise(valid, noise, rest + u);
    Assoc(noise, rest, u);
    Assoc(NoiseUnits(noise), Frame(valid, rest).pieces, Frame(valid, Frame(valid, rest).remaining + u).pieces);
  }

  lemma {:induction false} ResumableWhenOpen(valid: Text -> bool, t: Text, u: Text)
    requires t != [] && IsOpener(t[0]) && FindEnd(Opened(t[0]), t[1..]) == None
    ensures Resumable(valid, t, u)
  {
    FrameAtOpener(valid, t);
    assert [] + Frame(valid, t + u).pieces == Frame(valid, t + u).pieces;
  }

  lemma {:induction false} ResumableAfterEnd(valid: Text -> bool, t: Text, e: End, u: Text)
    requires t != [] && IsOpener(t[0]) && FindEnd(Opened(t[0]), t[1..]) == Some(e)
    requires Resumable(valid, t[e.len + 1..], u)
    ensures Resumable(valid, t, u)
  {
    FrameAtOpener(valid, t);
    FrameAtOpener(valid, t + u);
    CutAppend(t, 1, u);
    FindEndExtends(Opened(t[0]), t[1..], u);
    CutAppend(t, e.len + 1, u);
    var rest := Frame(valid, t[e.len + 1..]);
    Assoc(PiecesOf(Classify(valid, t[..e.len + 1], e.malformed)), rest.pieces, Frame(valid, rest.remaining + u).pieces);
  }

  /** A gate's buffer fed one chunk after another, starting from `buffer`. */
  function Feed(valid: Text -> bool, buffer: Text, chunks: seq<Text>): Framed
    decreases |chunks|
  {
    if chunks == [] then Framed([], buffer)
    else
      var first := Frame(valid, buffer + chunks[0]);
      var rest := Feed(valid, first.remaining, chunks[1..]);
      Framed(first.pieces + rest.pieces, rest.remaining)
  }

  /** A buffer that a previous call left is stable: framing it again yields nothing new. */
  predicate Settled(valid: Text -> bool, buffer: Text)
  {
    Frame(valid, buffer) == Framed([], buffer)
  }

  lemma {:induction false} RemainingSettled(valid: Text -> bool, t: Text)
    ensures Settled(valid, Frame(valid, t).remaining)
    decreases |t|
  {
    var start := FindNextJsonStart(t, 0);
    if start < 0 {
      FrameOfNoise(valid, t);
      var rest := t[LastNewline(t) + 1..];
      FrameOfNoise(valid, rest);
      assert LastNewline(rest) == -1;
      assert rest[..0] == [] && rest[0..] == rest && NoiseUnits(rest[..0]) == [];
    } else if start > 0 {
      Cut(t, start);
      FrameAfterNoise(valid, t[..start], t[start..]);
      RemainingSettled(valid, t[start..]);
    } else {
      FrameAtOpener(valid, t);
      match FindEnd(Opened(t[0]), t[1..])
      case None =>
      case Some(e) => RemainingSettled(valid, t[e.len + 1..]);
    }
  }

  /** However an input is cut into chunks, the framer ends with the same fragments and buffer. */
  lemma {:induction false} ChunkIndependence(valid: Text -> bool, buffer: Text, chunks: seq<Text>)
    requires Settled(valid, buffer)
    ensures Feed(valid, buffer, chunks) == Frame(valid, buffer + Concat(chunks))
    decreases |chunks|
  {
    if chunks == [] {
      assert buffer + [] == buffer;
    } else {
      var t, u := buffer + chunks[0], Concat(chunks[1..]);
      assert buffer + Concat(chunks) == t + u;
      TwoChunks(valid, t, u);
      RemainingSettled(valid, t);
      ChunkIndependence(valid, Frame(valid, t).remaining, chunks[1..]);
    }
  }

  // ---- losslessness ----------------------------------------------------------

  function RawOf(p: Piece): Text
  {
    match p
    case NoiseUnit(c) => [c]
    case JsonPiece(raw) => raw
    case MalformedPiece(raw) => raw
  }

  function RawText(ps: seq<Piece>): Text
  {
    if ps == [] then [] else RawOf(ps[0]) + RawText(ps[1..])
  }

  lemma {:induction false} RawTextAppend(a: seq<Piece>, b: seq<Piece>)
    ensures RawText(a + b) == RawText(a) + RawText(b)
  {
    if a == [] {
      assert a + b == b;
    } else {
      assert (a + b)[1..] == a[1..] + b;
      RawTextAppend(a[1..], b);
    }
  }

  lemma {:induction false} RawTextOfNoise(t: Text)
    ensures RawText(NoiseUnits(t)) == t
  {
    if t != [] {
      assert NoiseUnits(t)[1..] == NoiseUnits(t[1..]);
      RawTextOfNoise(t[1..]);
    }
  }

  lemma {:induction false} RawTextOfFragment(f: Fragment)
    ensures RawText(PiecesOf(f)) == f.raw
  {
    match f
    case Noise(raw) => RawTextOfNoise(raw);
    case Json(raw) => assert PiecesOf(f)[1..] == [] && raw + [] == raw;
    case Malformed(raw) => assert PiecesOf(f)[1..] == [] && raw + [] == raw;
  }

  /** No unit is lost, added or reordered: the raw fragments and the buffer are the input. */
  lemma {:induction false} Lossless(valid: Text -> bool, t: Text)
    ensures RawText(Frame(valid, t).pieces) + Frame(valid, t).remaining == t
    decreases |t|
  {
    var start := FindNextJsonStart(t, 0);
    if start < 0 {
      FrameOfNoise(valid, t);
      RawTextOfNoise(t[..LastNewline(t) + 1]);
      Cut(t, LastNewline(t) + 1);
    } else if start > 0 {
      FrameAfterNoise(valid, t[..start], t[start..]);
      Cut(t, start);
      RawTextOfNoise(t[..start]);
      Lossless(valid, t[start..]);
      LosslessStep(NoiseUnits(t[..start]), Frame(valid, t[start..]), t, start);
    } else {
      FrameAtOpener(valid, t);
      match FindEnd(Opened(t[0]), t[1..])
      case None =>
      case Some(e) =>
        var f := Classify(valid, t[..e.len + 1], e.malformed);
        RawTextOfFragment(f);
        Lossless(valid, t[e.len + 1..]);
        LosslessStep(PiecesOf(f), Frame(valid, t[e.len + 1..]), t, e.len + 1);
    }
  }

  lemma {:induction false} LosslessStep(f: seq<Piece>, rest: Framed, t: Text, k: nat)
    requires k <= |t| && RawText(f) == t[..k]
    requires RawText(rest.pieces) + rest.remaining == t[k..]
    ensures RawText(f + rest.pieces) + rest.remaining == t
  {
    RawTextAppend(f, rest.pieces);
    Assoc(RawText(f), RawText(rest.pieces), rest.remaining);
    Cut(t, k);
  }
}
