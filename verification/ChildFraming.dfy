/** What the child reads: the text the gate writes, framed again, is exactly what the gate meant. */
module ChildFraming {
  import opened Wrappers
  import opened JsText
  import opened JsonText
  import opened JsonFraming
  import opened FramingGrammar
  import opened StreamGates
  import opened GateDecisions
  import opened Reprinting
  import FramingRoundTrip

  // ---- framing with the unfinished line as noise -------------------------------------------------

  /** The pieces of a text, a last unfinished line included. */
  function Reading(valid: Text -> bool, t: Text): seq<Piece>
  {
    Frame(valid, t).pieces + NoiseUnits(Frame(valid, t).remaining)
  }

  /** Nothing bracketed is left open at the end of the text. */
  ghost predicate NothingOpen(valid: Text -> bool, t: Text) { BracketFree(Frame(valid, t).remaining) }

  function PieceOf(valid: Text -> bool, raw: Text): Piece { if valid(raw) then JsonPiece(raw) else MalformedPiece(raw) }

  lemma {:induction false} ReadingOfNoise(valid: Text -> bool, t: Text)
    requires BracketFree(t)
    ensures Reading(valid, t) == NoiseUnits(t) && NothingOpen(valid, t)
  {
    hide Frame;
    FrameOfNoise(valid, t);
    var k := LastNewline(t) + 1;
    Cut(t, k);
    NoiseUnitsAppend(t[..k], t[k..]);
  }

  lemma {:induction false} ReadingBeforeOpener(valid: Text -> bool, noise: Text, t: Text)
    requires BracketFree(noise) && t != [] && IsOpener(t[0])
    ensures Reading(valid, noise + t) == NoiseUnits(noise) + Reading(valid, t)
    ensures NothingOpen(valid, noise + t) <==> NothingOpen(valid, t)
  {
    hide Frame;
    FrameAfterNoise(valid, noise, t);
    Assoc(NoiseUnits(noise), Frame(valid, t).pieces, NoiseUnits(Frame(valid, t).remaining));
  }

  /** Text without opening brackets in front is read as noise. */
  lemma {:induction false} ReadingAfterNoise(valid: Text -> bool, noise: Text, t: Text)
    requires BracketFree(noise)
    ensures Reading(valid, noise + t) == NoiseUnits(noise) + Reading(valid, t)
    ensures NothingOpen(valid, noise + t) <==> NothingOpen(valid, t)
  {
    hide Frame, Reading, NothingOpen, FindNextJsonStart;
    var start := FindNextJsonStart(t, 0);
    if start < 0 {
      assert BracketFree(t);
      ReadingOfNoise(valid, t);
      ReadingOfNoise(valid, noise + t);
      NoiseUnitsAppend(noise, t);
    } else {
      Cut(t, start);
      var more, rest := t[..start], t[start..];
      Assoc(noise, more, rest);
      ReadingBeforeOpener(valid, more, rest);
      ReadingBeforeOpener(valid, noise + more, rest);
      NoiseUnitsAppend(noise, more);
      Assoc(NoiseUnits(noise), NoiseUnits(more), Reading(valid, rest));
    }
  }

  lemma {:induction false} WordEnds(w: Text, t: Text)
    requires IsWord(w)
    ensures w != [] && IsOpener(w[0])
    ensures FindEnd(Opened((w + t)[0]), (w + t)[1..]) == Some(End(|w| - 1, false))
  {
    var g: Tree :| g.Group? && Wf(g) && Render(g) == w;
    assert Render(g) <= w + t;
    WordIsFound(g, w + t);
  }

  /** A word in front is one fragment. */
  lemma {:induction false} ReadingAfterWord(valid: Text -> bool, w: Text, t: Text)
    requires IsWord(w)
    ensures Reading(valid, w + t) == [PieceOf(valid, w)] + Reading(valid, t)
    ensures NothingOpen(valid, w + t) <==> NothingOpen(valid, t)
  {
    hide Frame, IsWord;
    WordEnds(w, t);
    FrameAtOpener(valid, w + t);
    assert (w + t)[..|w|] == w && (w + t)[|w|..] == t;
    Assoc([PieceOf(valid, w)], Frame(valid, t).pieces, NoiseUnits(Frame(valid, t).remaining));
  }

  // ---- what is written ---------------------------------------------------------------------------

  /** Noise has no opening bracket, and what counts as JSON is one balanced word. */
  ghost predicate WellWritten(w: Write)
  {
    match w
    case NoiseWrite(raw) => BracketFree(raw)
    case TailWrite(raw) => BracketFree(raw)
    case JsonWrite(raw) => IsWord(raw)
    case BatchWrite(_) => true
  }

  ghost predicate AllWellWritten(ws: seq<Write>) { forall w :: w in ws ==> WellWritten(w) }

  /** The pieces that a write stands for. */
  function PiecesWritten(num: Numerals, valid: Text -> bool, w: Write): seq<Piece>
  {
    match w
    case NoiseWrite(raw) => NoiseUnits(raw)
    case TailWrite(raw) => NoiseUnits(raw)
    case JsonWrite(raw) => [PieceOf(valid, raw)] + NoiseUnits([LINE_FEED])
    case BatchWrite(items) => [PieceOf(valid, Print(num, Arr(items)))] + NoiseUnits([LINE_FEED])
  }

  function AllWritten(num: Numerals, valid: Text -> bool, ws: seq<Write>): seq<Piece>
    decreases |ws|
  {
    if ws == [] then [] else PiecesWritten(num, valid, ws[0]) + AllWritten(num, valid, ws[1..])
  }

  lemma {:induction false} PrintedIsWord(num: Numerals, items: seq<Value>)
    requires Legible(num)
    ensures IsWord(Print(num, Arr(items)))
  {
    var trees := FramingRoundTrip.PrintedTrees(num, Arr(items));
    var g := trees[0];
    assert trees == [g] && RenderAll([g]) == Render(g) by {
      assert [g][1..] == [] && Render(g) + [] == Render(g);
    }
  }

  lemma {:induction false} ReadingAfterLine(valid: Text -> bool, w: Text, t: Text)
    requires IsWord(w)
    ensures Reading(valid, (w + [LINE_FEED]) + t) == ([PieceOf(valid, w)] + NoiseUnits([LINE_FEED])) + Reading(valid, t)
    ensures NothingOpen(valid, (w + [LINE_FEED]) + t) <==> NothingOpen(valid, t)
  {
    hide Frame, Reading, NothingOpen, IsWord;
    Assoc(w, [LINE_FEED], t);
    ReadingAfterWord(valid, w, [LINE_FEED] + t);
    ReadingAfterNoise(valid, [LINE_FEED], t);
    Assoc([PieceOf(valid, w)], NoiseUnits([LINE_FEED]), Reading(valid, t));
  }

  lemma {:induction false} ReadingAfterWrite(num: Numerals, valid: Text -> bool, w: Write, t: Text)
    requires Legible(num) && WellWritten(w)
    ensures Reading(valid, WriteText(num, w) + t) == PiecesWritten(num, valid, w) + Reading(valid, t)
    ensures NothingOpen(valid, WriteText(num, w) + t) <==> NothingOpen(valid, t)
  {
    hide Reading, NothingOpen, IsWord, Print;
    match w
    case NoiseWrite(raw) => ReadingAfterNoise(valid, raw, t);
    case TailWrite(raw) => ReadingAfterNoise(valid, raw, t);
    case JsonWrite(raw) => ReadingAfterLine(valid, raw, t);
    case BatchWrite(items) =>
      PrintedIsWord(num, items);
      ReadingAfterLine(valid, Print(num, Arr(items)), t);
  }

  lemma {:induction false} ChildTextFirst(num: Numerals, ws: seq<Write>)
    requires ws != []
    ensures ChildText(num, ws) == WriteText(num, ws[0]) + ChildText(num, ws[1..])
    decreases |ws|
  {
    hide WriteText;
    if |ws| == 1 {
      assert ws[..0] == [] && ws[1..] == [];
      assert [] + WriteText(num, ws[0]) == WriteText(num, ws[0]) + [];
    } else {
      var before, last := ws[..|ws| - 1], ws[|ws| - 1];
      ChildTextFirst(num, before);
      assert before[1..] == ws[1..][..|ws| - 2] && ws[1..][|ws| - 2] == last;
      Assoc(WriteText(num, ws[0]), ChildText(num, before[1..]), WriteText(num, last));
    }
  }

  /** Framed again, the text of all writes gives one fragment for each JSON write and noise otherwise. */
  lemma {:induction false} ReadingOfWrites(num: Numerals, valid: Text -> bool, ws: seq<Write>)
    requires Legible(num) && AllWellWritten(ws)
    ensures Reading(valid, ChildText(num, ws)) == AllWritten(num, valid, ws)
    ensures NothingOpen(valid, ChildText(num, ws))
    decreases |ws|
  {
    hide Reading, NothingOpen, ChildText, WellWritten, PiecesWritten, WriteText;
    if ws == [] {
      NothingWritten(num);
      ReadingOfNoise(valid, []);
      assert NoiseUnits([]) == [];
    } else {
      assert ws[0] in ws && forall w :: w in ws[1..] ==> w in ws;
      ChildTextFirst(num, ws);
      ReadingOfWrites(num, valid, ws[1..]);
      ReadingAfterWrite(num, valid, ws[0], ChildText(num, ws[1..]));
    }
  }

  lemma {:induction false} NothingWritten(num: Numerals)
    ensures ChildText(num, []) == []
  {
  }

  // ---- what the gate writes ------------------------------------------------------------------------

  ghost predicate JsonAreWords(ps: seq<Piece>) { forall raw :: JsonPiece(raw) in ps ==> IsWord(raw) }

  /** Every JSON fragment is a balanced word. */
  lemma {:induction false} FragmentsAreWords(valid: Text -> bool, t: Text)
    ensures JsonAreWords(Frame(valid, t).pieces)
    decreases |t|
  {
    hide Frame, FindNextJsonStart, IsWord, FindEnd;
    var start := FindNextJsonStart(t, 0);
    if start < 0 {
      assert BracketFree(t);
      FrameOfNoise(valid, t);
    } else if start > 0 {
      Cut(t, start);
      FragmentsAreWords(valid, t[start..]);
      FrameAfterNoise(valid, t[..start], t[start..]);
    } else {
      FrameAtOpener(valid, t);
      match FindEnd(Opened(t[0]), t[1..])
      case None =>
      case Some(e) =>
        FragmentsAreWords(valid, t[e.len + 1..]);
        if !e.malformed {
          EndGivesWord(t, e.len);
        }
    }
  }

  /** Items of an array that `JSON.parse` gave. */
  ghost predicate ParsedItems(env: Env, items: seq<Value>)
  {
    exists raw: Text :: env.parse(raw).Some? && env.parse(raw).value.Arr?
                        && forall v :: v in items ==> v in env.parse(raw).value.items
  }

  /** What the gate writes is well written: JSON as it was parsed, batches of parsed items. */
  lemma {:induction false} GateWritesWell(env: Env, chunks: seq<Text>)
    ensures AllWellWritten(RunGate(env, chunks).child)
    ensures forall raw :: JsonWrite(raw) in RunGate(env, chunks).child ==>
              env.parse(raw).Some? && !env.parse(raw).value.Arr?
    ensures forall items :: BatchWrite(items) in RunGate(env, chunks).child ==> ParsedItems(env, items)
  {
    hide RunGate, Frame, IsWord;
    var pieces, ws := Frame(Valid(env), Concat(chunks)).pieces, RunGate(env, chunks).child;
    OnlyVettedReachesChild(env, chunks);
    FragmentsAreWords(Valid(env), Concat(chunks));
    forall w | w in ws ensures WellWritten(w) {
      assert Vetted(env, pieces, w);
    }
    forall raw | JsonWrite(raw) in ws ensures env.parse(raw).Some? && !env.parse(raw).value.Arr? {
      assert Vetted(env, pieces, JsonWrite(raw));
    }
    forall items | BatchWrite(items) in ws ensures ParsedItems(env, items) {
      assert Vetted(env, pieces, BatchWrite(items));
    }
  }

  /**
   * For every input and chunking and whatever the child can parse: framing the text the child gets
   * yields exactly one fragment for each JSON text and each batch the gate wrote, noise otherwise,
   * and leaves nothing bracketed open.
   */
  lemma {:induction false} ChildReadsWrites(env: Env, valid: Text -> bool, chunks: seq<Text>)
    requires Legible(env.num)
    ensures Reading(valid, ChildText(env.num, RunGate(env, chunks).child))
            == AllWritten(env.num, valid, RunGate(env, chunks).child)
    ensures NothingOpen(valid, ChildText(env.num, RunGate(env, chunks).child))
  {
    hide RunGate;
    GateWritesWell(env, chunks);
    ReadingOfWrites(env.num, valid, RunGate(env, chunks).child);
  }

  // ---- the calls the child reads -------------------------------------------------------------------

  /** An array of parsed items, printed and parsed again, has every number as its text reads and all else as before. */
  ghost predicate Reparses(env: Env) {
    forall items :: ParsedItems(env, items) ==>
      env.parse(Print(env.num, Arr(items))) == Some(Arr(AllBack(env.num, items)))
  }

  /** The tool calls that a reader finds in one write. */
  function CallsRead(env: Env, w: Write): seq<Value>
  {
    if w.BatchWrite? then AllBack(env.num, Calls(w.items)) else CallsOf(env, w)
  }

  function AllCallsRead(env: Env, ws: seq<Write>): seq<Value>
    decreases |ws|
  {
    if ws == [] then [] else CallsRead(env, ws[0]) + AllCallsRead(env, ws[1..])
  }

  /** No tool call sent in a batch holds a number that printing changes. */
  ghost predicate BatchesReadBack(env: Env, ws: seq<Write>) {
    forall items :: BatchWrite(items) in ws ==> AllReadBack(env.num, Calls(items))
  }

  lemma {:induction false} ReceivedAppend(env: Env, a: seq<Piece>, b: seq<Piece>)
    ensures ReceivedCalls(env, a + b) == ReceivedCalls(env, a) + ReceivedCalls(env, b)
    decreases |a|
  {
    hide CallsIn;
    if a == [] {
      assert a + b == b;
    } else {
      assert (a + b)[1..] == a[1..] + b;
      ReceivedAppend(env, a[1..], b);
      Assoc(CallsIn(env, a[0]), ReceivedCalls(env, a[1..]), ReceivedCalls(env, b));
    }
  }

  lemma {:induction false} NoCallsInNoise(env: Env, t: Text)
    ensures ReceivedCalls(env, NoiseUnits(t)) == []
    decreases |t|
  {
    if t != [] {
      assert NoiseUnits(t)[1..] == NoiseUnits(t[1..]);
      NoCallsInNoise(env, t[1..]);
    }
  }

  lemma {:induction false} CallsOfLine(env: Env, raw: Text)
    requires env.parse(raw).Some?
    ensures ReceivedCalls(env, [PieceOf(Valid(env), raw)] + NoiseUnits([LINE_FEED])) == CallsIn(env, JsonPiece(raw))
  {
    hide CallsIn;
    var p := PieceOf(Valid(env), raw);
    ReceivedAppend(env, [p], NoiseUnits([LINE_FEED]));
    NoCallsInNoise(env, [LINE_FEED]);
    assert [p][1..] == [];
  }

  /** A JSON write holds a parsed value and a batch write parsed items. */
  ghost predicate WritesParsed(env: Env, w: Write)
  {
    && (w.JsonWrite? ==> env.parse(w.raw).Some? && !env.parse(w.raw).value.Arr?)
    && (w.BatchWrite? ==> ParsedItems(env, w.items))
  }

  lemma {:induction false} CallsOfWrite(env: Env, w: Write)
    requires Reparses(env) && WritesParsed(env, w)
    ensures ReceivedCalls(env, PiecesWritten(env.num, Valid(env), w)) == CallsRead(env, w)
  {
    hide ReceivedCalls, Calls, Print, AllBack, ParsedItems;
    match w
    case NoiseWrite(raw) => NoCallsInNoise(env, raw);
    case TailWrite(raw) => NoCallsInNoise(env, raw);
    case JsonWrite(raw) => CallsOfLine(env, raw);
    case BatchWrite(items) =>
      CallsOfLine(env, Print(env.num, Arr(items)));
      CallsBack(env.num, items);
  }

  lemma {:induction false} CallsOfWrites(env: Env, ws: seq<Write>)
    requires Reparses(env) && forall w :: w in ws ==> WritesParsed(env, w)
    ensures ReceivedCalls(env, AllWritten(env.num, Valid(env), ws)) == AllCallsRead(env, ws)
    decreases |ws|
  {
    hide ReceivedCalls, CallsRead, PiecesWritten, Reparses, WritesParsed;
    if ws == [] {
      NoWrites(env);
    } else {
      assert ws[0] in ws && forall w :: w in ws[1..] ==> w in ws;
      CallsOfWrite(env, ws[0]);
      CallsOfWrites(env, ws[1..]);
      ReceivedAppend(env, PiecesWritten(env.num, Valid(env), ws[0]), AllWritten(env.num, Valid(env), ws[1..]));
    }
  }

  lemma {:induction false} NoWrites(env: Env)
    ensures ReceivedCalls(env, []) == [] && ForwardedCalls(env, []) == []
  {
  }

  // ---- which calls come back -----------------------------------------------------------------------

  lemma {:induction false} ForwardedFirst(env: Env, ws: seq<Write>)
    requires ws != []
    ensures ForwardedCalls(env, ws) == CallsOf(env, ws[0]) + ForwardedCalls(env, ws[1..])
    decreases |ws|
  {
    hide CallsOf;
    if |ws| == 1 {
      assert ws[..0] == [] && ws[1..] == [];
      assert [] + CallsOf(env, ws[0]) == CallsOf(env, ws[0]) + [];
    } else {
      var before, last := ws[..|ws| - 1], ws[|ws| - 1];
      ForwardedFirst(env, before);
      assert before[1..] == ws[1..][..|ws| - 2] && ws[1..][|ws| - 2] == last;
      Assoc(CallsOf(env, ws[0]), ForwardedCalls(env, before[1..]), CallsOf(env, last));
    }
  }

  /** Place by place, a call or that call read back. */
  ghost predicate Echoes(num: Numerals, read: seq<Value>, sent: seq<Value>)
  {
    |read| == |sent| && forall k :: 0 <= k < |sent| ==> read[k] == sent[k] || read[k] == Back(num, sent[k])
  }

  lemma {:induction false} EchoesAppend(num: Numerals, a: seq<Value>, b: seq<Value>, c: seq<Value>, d: seq<Value>)
    requires Echoes(num, a, c) && Echoes(num, b, d)
    ensures Echoes(num, a + b, c + d)
    ensures a + b == c + d <==> a == c && b == d
  {
    hide Back;
    if a + b == c + d {
      assert a == (a + b)[..|a|] && b == (a + b)[|a|..];
      assert c == (c + d)[..|c|] && d == (c + d)[|c|..];
    }
  }

  lemma {:induction false} WriteEchoes(env: Env, w: Write)
    ensures Echoes(env.num, CallsRead(env, w), CallsOf(env, w))
    ensures CallsRead(env, w) == CallsOf(env, w) <==> (w.BatchWrite? ==> AllReadBack(env.num, Calls(w.items)))
  {
    hide Back, AllReadBack, Calls;
    if w.BatchWrite? {
      AllBackIff(env.num, Calls(w.items));
    }
  }

  lemma {:induction false} WritesEcho(env: Env, ws: seq<Write>)
    ensures Echoes(env.num, AllCallsRead(env, ws), ForwardedCalls(env, ws))
    ensures AllCallsRead(env, ws) == ForwardedCalls(env, ws) <==> BatchesReadBack(env, ws)
    decreases |ws|
  {
    hide CallsRead, CallsOf, AllReadBack, Echoes;
    if ws == [] {
      NoWritesEcho(env);
    } else {
      WriteEchoes(env, ws[0]);
      WritesEcho(env, ws[1..]);
      ForwardedFirst(env, ws);
      EchoesAppend(env.num, CallsRead(env, ws[0]), AllCallsRead(env, ws[1..]),
                   CallsOf(env, ws[0]), ForwardedCalls(env, ws[1..]));
      assert ws == [ws[0]] + ws[1..];
      assert forall w :: w in ws <==> w == ws[0] || w in ws[1..];
    }
  }

  lemma {:induction false} NoWritesEcho(env: Env)
    ensures Echoes(env.num, AllCallsRead(env, []), ForwardedCalls(env, []))
    ensures AllCallsRead(env, []) == ForwardedCalls(env, [])
  {
  }

  // ---- the gate's guarantee at the child's end -------------------------------------------------------

  /** The tool calls in the text the child gets, framed and parsed there as here. */
  function ChildCalls(env: Env, ws: seq<Write>): seq<Value>
  {
    ReceivedCalls(env, Frame(Valid(env), ChildText(env.num, ws)).pieces)
  }

  /** The child reads what was written: the calls of a batch printed and read again, all others as decided. */
  lemma {:induction false} ChildReadsCalls(env: Env, chunks: seq<Text>)
    requires Legible(env.num) && Reparses(env)
    ensures ChildCalls(env, RunGate(env, chunks).child) == AllCallsRead(env, RunGate(env, chunks).child)
  {
    hide RunGate, Frame, ReceivedCalls, Reparses, Legible, AllWritten, ChildText, AllCallsRead;
    var ws := RunGate(env, chunks).child;
    var framed := Frame(Valid(env), ChildText(env.num, ws));
    ChildReadsWrites(env, Valid(env), chunks);
    GateWritesWell(env, chunks);
    forall w | w in ws ensures WritesParsed(env, w) {
      assert w.JsonWrite? ==> JsonWrite(w.raw) in ws;
      assert w.BatchWrite? ==> BatchWrite(w.items) in ws;
    }
    CallsOfWrites(env, ws);
    ReceivedAppend(env, framed.pieces, NoiseUnits(framed.remaining));
    NoCallsInNoise(env, framed.remaining);
    assert ReceivedCalls(env, framed.pieces) + [] == ReceivedCalls(env, framed.pieces);
  }

  /**
   * For every input and chunking the child reads as many tool calls as were allowed, each the allowed
   * call in its place or that call printed and read again; and it reads exactly the allowed calls if
   * and only if no call sent in a batch holds a number that printing changes.
   */
  lemma {:induction false} ChildGetsExactlyAllowed(env: Env, chunks: seq<Text>)
    requires Legible(env.num) && Reparses(env)
    ensures var s := RunGate(env, chunks);
            && Echoes(env.num, ChildCalls(env, s.child), AllowedCalls(env, s.history))
            && (ChildCalls(env, s.child) == AllowedCalls(env, s.history) <==> BatchesReadBack(env, s.child))
  {
    hide RunGate, ChildCalls, AllowedCalls, Reparses, Legible, ForwardedCalls, AllCallsRead, BatchesReadBack, Echoes;
    ChildReadsCalls(env, chunks);
    WritesEcho(env, RunGate(env, chunks).child);
    ForwardsExactlyAllowed(env, chunks);
  }
}
