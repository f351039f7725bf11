/** The inbound gate on byte chunks, each of which it decodes on its own. */
module GateBytes {
  import opened Wrappers
  import opened ZipBytes
  import opened JsText
  import opened JsonText
  import opened JsonFraming
  import opened StreamGates
  import opened GateDecisions
  import opened StreamDecoding
  import FramingRoundTrip
  import Utf8

  /** A gate on a standard input whose encoding was never set. */
  function RunBytes(env: Env, chunks: seq<Bytes>): Session { RunGate(env, ChunkTexts(chunks)) }

  // ---- clean cuts ------------------------------------------------------------------------------

  lemma {:induction false} OneChunk(b: Bytes)
    ensures Whole([b]) == b && ChunkTexts([b]) == [Lossy(b)] && Concat([Lossy(b)]) == Lossy(b)
  {
    hide Lossy;
    assert [b][1..] == [] && [Lossy(b)][1..] == [];
    assert b + [] == b && Lossy(b) + [] == Lossy(b);
  }

  /** The gate gets the text of the whole input if and only if no cut falls inside a character. */
  lemma {:induction false} GateTextIff(chunks: seq<Bytes>)
    ensures Concat(ChunkTexts(chunks)) == Concat(ChunkTexts([Whole(chunks)])) <==> CutCleanly(chunks)
  {
    hide CutCleanly;
    OneChunk(Whole(chunks));
    TextsAreWholeIff(chunks);
  }

  /** Clean cuts change nothing that the child, the client or the decisions see. */
  lemma {:induction false} ByteChunkIndependence(env: Env, chunks: seq<Bytes>)
    requires CutCleanly(chunks)
    ensures See(env, RunBytes(env, chunks)) == See(env, RunBytes(env, [Whole(chunks)]))
  {
    hide See, RunGate, CutCleanly;
    GateTextIff(chunks);
    GateChunkIndependence(env, ChunkTexts(chunks), ChunkTexts([Whole(chunks)]));
  }

  /** With clean cuts the decisions are exactly the tool calls of the decoded input. */
  lemma {:induction false} EveryByteCallDecided(env: Env, chunks: seq<Bytes>)
    requires CutCleanly(chunks)
    ensures RunBytes(env, chunks).history == ReceivedCalls(env, Frame(Valid(env), Lossy(Whole(chunks))).pieces)
  {
    hide RunGate, Frame, CutCleanly;
    TextsAreWholeIff(chunks);
    EveryCallDecided(env, ChunkTexts(chunks));
  }

  // ---- input without brackets ------------------------------------------------------------------

  lemma {:induction false} PlainRun(env: Env, chunks: seq<Text>)
    requires BracketFree(Concat(chunks))
    ensures See(env, RunGate(env, chunks)) == Seen([], Concat(chunks), [])
  {
    hide WriteAll, Feed, Extract, See;
    var t, start := Concat(chunks), Session([], [], []);
    WriteAllIsFeed(env, start, [], chunks);
    FeedIsFrame(env, chunks);
    FrameOfNoise(Valid(env), t);
    var k := LastNewline(t) + 1;
    var (s, tail) := WriteAll(env, start, [], chunks);
    StartSeen(env);
    SeeNoise(env, Seen([], [], []), t[..k]);
    assert [] + t[..k] == t[..k];
    Cut(t, k);
    PlainFinish(env, s, tail, t[..k]);
  }

  lemma {:induction false} StartSeen(env: Env)
    ensures See(env, Session([], [], [])) == Seen([], [], [])
  {
  }

  lemma {:induction false} PlainFinish(env: Env, s: Session, tail: Text, text: Text)
    requires BracketFree(tail) && See(env, s) == Seen([], text, [])
    ensures See(env, Finish(s, tail)) == Seen([], text + tail, [])
  {
    TrimmedBracketFree(tail);
    if tail == [] {
      assert text + tail == text;
    } else {
      ChildTextPush(env.num, s.child, TailWrite(tail));
    }
  }

  predicate HasOpener(b: Bytes) { 0x7B in b || 0x5B in b }

  lemma {:induction false} FirstOpener(b: Bytes)
    requires b != []
    ensures BracketFree(First(b).text) <==> !HasOpener(b[..First(b).len])
  {
    StepInside(b);
    assert b[0] in b[..First(b).len];
    FirstByte(b);
    forall x | x in b[..First(b).len] ensures x == b[0] || Utf8.IsTail(x) {
      var i :| 0 <= i < First(b).len && b[i] == x;
    }
  }

  lemma {:induction false} FirstByte(b: Bytes)
    requires b != []
    ensures BracketFree(First(b).text) <==> b[0] != 0x7B && b[0] != 0x5B
  {
    var r := First(b);
    match Utf8.DecodeChar(b)
    case None => assert r.text == [REPLACEMENT] && r.text[0] == REPLACEMENT;
    case Some(d) =>
      CharByte(b, d);
      UnitsOpener(d.c);
  }

  lemma {:induction false} CharByte(b: Bytes, d: Utf8.Decoded)
    requires b != [] && Utf8.DecodeChar(b) == Some(d)
    ensures if b[0] < 0x80 then d.c as int == b[0] as int else d.c as int >= 0x80
    ensures b[0] >= 0x80 ==> b[0] != 0x7B && b[0] != 0x5B
  {
  }

  lemma {:induction false} UnitsOpener(c: char)
    ensures BracketFree(Units(c)) <==> c as int != 0x7B && c as int != 0x5B
  {
    if c as int < 0x1_0000 {
      assert Units(c)[0] as int == c as int;
    } else {
      assert Units(c)[0] >= 0xD800 && Units(c)[1] >= 0xDC00;
    }
  }

  /** The decoder neither makes nor loses an opening bracket. */
  lemma {:induction false} OpenersKept(b: Bytes)
    ensures BracketFree(Lossy(b)) <==> !HasOpener(b)
    decreases |b|
  {
    hide First;
    if b != [] {
      var n := First(b).len;
      FirstOpener(b);
      OpenersKept(b[n..]);
      Cut(b, n);
      BracketFreeAppend(First(b).text, Lossy(b[n..]));
    }
  }

  lemma {:induction false} BracketFreeAppend(a: Text, b: Text)
    ensures BracketFree(a + b) <==> BracketFree(a) && BracketFree(b)
  {
    assert forall i :: 0 <= i < |a| ==> (a + b)[i] == a[i];
    assert forall i :: 0 <= i < |b| ==> (a + b)[|a| + i] == b[i];
  }

  lemma {:induction false} ChunkOpeners(chunks: seq<Bytes>)
    ensures BracketFree(Concat(ChunkTexts(chunks))) <==> !HasOpener(Whole(chunks))
    decreases |chunks|
  {
    hide Lossy;
    if chunks != [] {
      assert ChunkTexts(chunks)[1..] == ChunkTexts(chunks[1..]);
      OpenersKept(chunks[0]);
      ChunkOpeners(chunks[1..]);
      BracketFreeAppend(Lossy(chunks[0]), Concat(ChunkTexts(chunks[1..])));
    }
  }

  /** On input without brackets the child sees the same if and only if no cut falls inside a character. */
  lemma {:induction false} PlainChunksIff(env: Env, chunks: seq<Bytes>)
    requires !HasOpener(Whole(chunks))
    ensures See(env, RunBytes(env, chunks)) == See(env, RunBytes(env, [Whole(chunks)])) <==> CutCleanly(chunks)
  {
    hide See, RunGate, CutCleanly;
    ChunkOpeners(chunks);
    OneChunk(Whole(chunks));
    OpenersKept(Whole(chunks));
    PlainRun(env, ChunkTexts(chunks));
    PlainRun(env, ChunkTexts([Whole(chunks)]));
    GateTextIff(chunks);
  }

  // ---- a tool call cut inside a character --------------------------------------------------------

  predicate AsciiUnits(t: Text) { forall i :: 0 <= i < |t| ==> t[i] < 0x80 }

  function AsciiBytes(t: Text): Bytes
    requires AsciiUnits(t)
  {
    seq(|t|, i requires 0 <= i < |t| => t[i] as byte)
  }

  lemma {:induction false} AsciiCons(t: Text, rest: Bytes)
    requires AsciiUnits(t) && t != []
    ensures AsciiUnits(t[1..])
    ensures (AsciiBytes(t) + rest)[1..] == AsciiBytes(t[1..]) + rest
    ensures First(AsciiBytes(t) + rest) == Taken(1, [t[0]])
  {
    hide First;
    AsciiFirst(AsciiBytes(t) + rest);
  }

  lemma {:induction false} AsciiNone(rest: Bytes)
    ensures AsciiBytes([]) + rest == rest
  {
  }

  lemma {:induction false} AsciiDecoded(t: Text, rest: Bytes)
    requires AsciiUnits(t)
    ensures Lossy(AsciiBytes(t) + rest) == t + Lossy(rest)
    decreases |t|
  {
    hide First, AsciiUnits, AsciiBytes;
    if t == [] {
      AsciiNone(rest);
    } else {
      AsciiCons(t, rest);
      AsciiDecoded(t[1..], rest);
      assert t == [t[0]] + t[1..];
      Assoc([t[0]], t[1..], Lossy(rest));
    }
  }

  lemma {:induction false} AsciiFirst(b: Bytes)
    requires b != [] && b[0] < 0x80
    ensures First(b) == Taken(1, [b[0] as unit])
  {
  }

  const E_ACUTE: Text := [0xE9]
  const TWO_REPLACED: Text := [0xFFFD, 0xFFFD]

  lemma {:induction false} EAcuteFirst(rest: Bytes)
    ensures First([0xC3, 0xA9] + rest) == Taken(2, E_ACUTE) && First([0xC3]) == Taken(1, [REPLACEMENT])
  {
  }

  lemma {:induction false} EAcuteDecoded(rest: Bytes)
    ensures Lossy([0xC3, 0xA9] + rest) == E_ACUTE + Lossy(rest)
    ensures Lossy([0xC3]) == [REPLACEMENT] && Lossy([0xA9] + rest) == [REPLACEMENT] + Lossy(rest)
  {
    hide First;
    EAcuteFirst(rest);
    TailFirst([0xA9] + rest);
    assert ([0xC3, 0xA9] + rest)[2..] == rest && ([0xA9] + rest)[1..] == rest && [0xC3][1..] == [];
    assert Lossy([0xC3]) == [REPLACEMENT] + Lossy([]);
  }

  /** The two bytes of `é` in one chunk, and in two. */
  lemma {:induction false} SplitDecoded(before: Text, after: Text)
    requires AsciiUnits(before) && AsciiUnits(after)
    ensures Lossy(AsciiBytes(before) + ([0xC3, 0xA9] + AsciiBytes(after))) == before + (E_ACUTE + after)
    ensures Lossy(AsciiBytes(before) + [0xC3]) + Lossy([0xA9] + AsciiBytes(after)) == before + (TWO_REPLACED + after)
  {
    hide Lossy, AsciiUnits, AsciiBytes;
    var rest := AsciiBytes(after);
    AsciiDecoded(before, [0xC3, 0xA9] + rest);
    AsciiDecoded(before, [0xC3]);
    AsciiDecoded(after, []);
    EAcuteDecoded(rest);
    NothingDecoded();
    assert rest + [] == rest && after + [] == after;
    assert (before + [REPLACEMENT]) + ([REPLACEMENT] + after) == before + (TWO_REPLACED + after);
  }

  lemma {:induction false} NothingDecoded()
    ensures Lossy([]) == []
  {
  }

  /** A tool call for the tool named `name`. */
  function Call(name: Text): Value
  {
    Obj([Member(Literal("jsonrpc"), Str(Literal("2.0"))), Member(Literal("method"), Str(Literal("tools/call"))),
         Member(Literal("params"), Obj([Member(Literal("name"), Str(name))]))])
  }

  function CalledName(call: Value): Text
  {
    if call.Obj? && |call.members| == 3 && call.members[2].value.Obj? && |call.members[2].value.members| == 1
       && call.members[2].value.members[0].value.Str?
    then call.members[2].value.members[0].value.s else []
  }

  lemma {:induction false} CallIsCall(name: Text)
    ensures IsToolCall(Call(name)) && Calls([Call(name)]) == [Call(name)]
  {
    var v := Call(name);
    var ms := v.members;
    assert Literal("jsonrpc")[0] != Literal("method")[0];
    assert ms[1..][0] == ms[1];
    assert Lookup(ms[1..], Literal("method")) == Some(Str(Literal("tools/call")));
    CallsOne(v);
  }

  lemma {:induction false} AsciiAppend(a: Text, b: Text)
    requires AsciiUnits(a) && AsciiUnits(b)
    ensures AsciiUnits(a + b)
  {
  }

  lemma {:induction false} EscapedAscii(s: Text)
    requires AsciiUnits(s)
    ensures AsciiUnits(Escape(s))
    decreases |s|
  {
    if s != [] {
      EscapedAscii(s[1..]);
      AsciiAppend(EscapeUnit(s[0]), Escape(s[1..]));
    }
  }

  lemma {:induction false} StringAscii(s: Text)
    requires AsciiUnits(s)
    ensures AsciiUnits(PrintString(s))
  {
    EscapedAscii(s);
  }

  ghost predicate Surrounded(t: Text, before: Text, inside: Text, after: Text) { t == before + (inside + after) }

  lemma {:induction false} SurroundBefore(p: Text, t: Text, before: Text, inside: Text, after: Text)
    requires Surrounded(t, before, inside, after)
    ensures Surrounded(p + t, p + before, inside, after)
  {
    Assoc(p, before, inside + after);
  }

  lemma {:induction false} SurroundAfter(t: Text, before: Text, inside: Text, after: Text, q: Text)
    requires Surrounded(t, before, inside, after)
    ensures Surrounded(t + q, before, inside, after + q)
  {
    Assoc(before, inside + after, q);
    Assoc(inside, after, q);
  }

  /** A member whose value is surrounded. */
  lemma {:induction false} MemberSurrounded(num: Numerals, m: Keyed<Value>, before: Text, inside: Text, after: Text)
    requires Surrounded(Print(num, m.value), before, inside, after)
    ensures Surrounded(PrintMember(num, m), PrintString(m.key) + ([COLON] + before), inside, after)
  {
    hide Print, PrintString, Surrounded;
    SurroundBefore([COLON], Print(num, m.value), before, inside, after);
    SurroundBefore(PrintString(m.key), [COLON] + Print(num, m.value), [COLON] + before, inside, after);
  }

  /** An object whose members are surrounded. */
  lemma {:induction false} ObjectSurrounded(num: Numerals, ms: seq<Keyed<Value>>, before: Text, inside: Text, after: Text)
    requires Surrounded(PrintMembers(num, ms), before, inside, after)
    ensures Surrounded(Print(num, Obj(ms)), [OPEN_BRACE] + before, inside, after + [CLOSE_BRACE])
  {
    hide PrintMembers, Surrounded;
    SurroundBefore([OPEN_BRACE], PrintMembers(num, ms), before, inside, after);
    SurroundAfter([OPEN_BRACE] + PrintMembers(num, ms), [OPEN_BRACE] + before, inside, after, [CLOSE_BRACE]);
  }

  lemma {:induction false} MoreMembersSurrounded(
      num: Numerals, m: Keyed<Value>, ms: seq<Keyed<Value>>, before: Text, inside: Text, after: Text)
    requires ms != [] && Surrounded(PrintMembers(num, ms), before, inside, after)
    ensures Surrounded(PrintMembers(num, [m] + ms), PrintMember(num, m) + ([COMMA] + before), inside, after)
  {
    hide PrintMember, Surrounded;
    assert ([m] + ms)[1..] == ms;
    SurroundBefore([COMMA], PrintMembers(num, ms), before, inside, after);
    SurroundBefore(PrintMember(num, m), [COMMA] + PrintMembers(num, ms), [COMMA] + before, inside, after);
  }

  /** What stands before the name in a printed call. */
  function BeforeName(num: Numerals): Text
  {
    var inner := [OPEN_BRACE] + (PrintString(Literal("name")) + ([COLON] + [QUOTE]));
    var params := PrintString(Literal("params")) + ([COLON] + inner);
    var called := PrintMember(num, Member(Literal("method"), Str(Literal("tools/call")))) + ([COMMA] + params);
    [OPEN_BRACE] + (PrintMember(num, Member(Literal("jsonrpc"), Str(Literal("2.0")))) + ([COMMA] + called))
  }

  const AFTER_NAME: Text := ([QUOTE] + [CLOSE_BRACE]) + [CLOSE_BRACE]

  lemma {:induction false} PrintedCall(num: Numerals, name: Text)
    ensures Surrounded(Print(num, Call(name)), BeforeName(num), Escape(name), AFTER_NAME)
  {
    hide PrintString, PrintMember, Literal, Surrounded, Escape;
    var ms := Call(name).members;
    var params := ms[2].value;
    NameSurrounded(num, name);
    MemberSurrounded(num, params.members[0], [QUOTE], Escape(name), [QUOTE]);
    ObjectSurrounded(num, params.members, PrintString(Literal("name")) + ([COLON] + [QUOTE]), Escape(name), [QUOTE]);
    var inner := [OPEN_BRACE] + (PrintString(Literal("name")) + ([COLON] + [QUOTE]));
    MemberSurrounded(num, ms[2], inner, Escape(name), [QUOTE] + [CLOSE_BRACE]);
    var before := PrintString(Literal("params")) + ([COLON] + inner);
    assert PrintMembers(num, [ms[2]]) == PrintMember(num, ms[2]);
    MoreMembersSurrounded(num, ms[1], [ms[2]], before, Escape(name), [QUOTE] + [CLOSE_BRACE]);
    var called := PrintMember(num, ms[1]) + ([COMMA] + before);
    MoreMembersSurrounded(num, ms[0], [ms[1]] + [ms[2]], called, Escape(name), [QUOTE] + [CLOSE_BRACE]);
    assert [ms[0]] + ([ms[1]] + [ms[2]]) == ms;
    ObjectSurrounded(num, ms, PrintMember(num, ms[0]) + ([COMMA] + called), Escape(name), [QUOTE] + [CLOSE_BRACE]);
  }

  lemma {:induction false} NameSurrounded(num: Numerals, name: Text)
    ensures Surrounded(Print(num, Str(name)), [QUOTE], Escape(name), [QUOTE])
  {
    Assoc([QUOTE], Escape(name), [QUOTE]);
  }

  lemma {:induction false} LiteralMemberAscii(num: Numerals, key: Text, value: Text)
    requires AsciiUnits(key) && AsciiUnits(value)
    ensures AsciiUnits(PrintMember(num, Member(key, Str(value))))
  {
    hide PrintString;
    StringAscii(key);
    StringAscii(value);
    AsciiAppend([COLON], PrintString(value));
    AsciiAppend(PrintString(key), [COLON] + PrintString(value));
  }

  lemma {:induction false} LiteralsAscii()
    ensures AsciiUnits(Literal("name")) && AsciiUnits(Literal("params"))
    ensures AsciiUnits(Literal("method")) && AsciiUnits(Literal("tools/call"))
    ensures AsciiUnits(Literal("jsonrpc")) && AsciiUnits(Literal("2.0"))
  {
  }

  lemma {:induction false} BeforeNameAscii(num: Numerals)
    ensures AsciiUnits(BeforeName(num)) && AsciiUnits(AFTER_NAME)
  {
    hide PrintString, PrintMember, Literal;
    LiteralsAscii();
    StringAscii(Literal("name"));
    StringAscii(Literal("params"));
    LiteralMemberAscii(num, Literal("method"), Literal("tools/call"));
    LiteralMemberAscii(num, Literal("jsonrpc"), Literal("2.0"));
  }

  /** A printed tool call as the whole input is the one call decided, and forwarded if allowed. */
  lemma {:induction false} OneCallDecided(env: Env, chunks: seq<Text>, v: Value)
    requires Legible(env.num) && v.Obj? && Calls([v]) == [v]
    requires Concat(chunks) == Print(env.num, v) && env.parse(Print(env.num, v)) == Some(v)
    ensures RunGate(env, chunks).history == [v]
    ensures ForwardedCalls(env, RunGate(env, chunks).child) == if env.decide([], v) == Allow then [v] else []
  {
    hide RunGate, Print, IsToolCall, Calls, Frame, ForwardedCalls;
    OneFrame(env, v);
    EveryCallDecided(env, chunks);
    ReceivedOne(env, JsonPiece(Print(env.num, v)));
    ForwardsExactlyAllowed(env, chunks);
    AllowedPush(env, [], v);
    assert [] + [v] == [v];
  }

  lemma {:induction false} ReceivedOne(env: Env, p: Piece)
    ensures ReceivedCalls(env, [p]) == CallsIn(env, p)
  {
    assert [p][1..] == [];
  }

  lemma {:induction false} OneFrame(env: Env, v: Value)
    requires Legible(env.num) && v.Obj? && env.parse(Print(env.num, v)) == Some(v)
    ensures Frame(Valid(env), Print(env.num, v)).pieces == [JsonPiece(Print(env.num, v))]
  {
    hide Print, Extract, Legible;
    FramingRoundTrip.ExtractPrinted(env.num, Valid(env), v);
    PiecesOfOne(Json(Print(env.num, v)));
  }

  /**
   * A tool call whose bytes are cut inside a character: in one chunk the call is decided and, if
   * allowed, forwarded; in two, another call is, with two replacement characters in its place.
   */
  lemma {:induction false} SplitCallIsAnother(env: Env) returns (first: Bytes, second: Bytes)
    requires Legible(env.num)
    requires env.parse(Print(env.num, Call(E_ACUTE))) == Some(Call(E_ACUTE))
    requires env.parse(Print(env.num, Call(TWO_REPLACED))) == Some(Call(TWO_REPLACED))
    ensures Lossy(first + second) == Print(env.num, Call(E_ACUTE))
    ensures RunBytes(env, [first + second]).history == [Call(E_ACUTE)]
    ensures RunBytes(env, [first, second]).history == [Call(TWO_REPLACED)] != [Call(E_ACUTE)]
    ensures ForwardedCalls(env, RunBytes(env, [first, second]).child)
            == if env.decide([], Call(TWO_REPLACED)) == Allow then [Call(TWO_REPLACED)] else []
  {
    hide RunGate, Print, Lossy, BeforeName, ForwardedCalls, Calls, Call;
    BeforeNameAscii(env.num);
    var before := BeforeName(env.num);
    first, second := AsciiBytes(before) + [0xC3], [0xA9] + AsciiBytes(AFTER_NAME);
    SplitDecoded(before, AFTER_NAME);
    assert first + second == AsciiBytes(before) + ([0xC3, 0xA9] + AsciiBytes(AFTER_NAME));
    EscapedHere();
    PrintedCall(env.num, E_ACUTE);
    PrintedCall(env.num, TWO_REPLACED);
    OneChunk(first + second);
    TwoChunkTexts(first, second);
    CallIsCall(E_ACUTE);
    CallIsCall(TWO_REPLACED);
    DifferentCalls();
    OneCallDecided(env, ChunkTexts([first + second]), Call(E_ACUTE));
    OneCallDecided(env, ChunkTexts([first, second]), Call(TWO_REPLACED));
  }

  lemma {:induction false} EscapedHere()
    ensures Escape(E_ACUTE) == E_ACUTE && Escape(TWO_REPLACED) == TWO_REPLACED
  {
    assert E_ACUTE[1..] == [] && TWO_REPLACED[1..] == [REPLACEMENT] && [REPLACEMENT][1..] == [];
    assert Escape([REPLACEMENT]) == [REPLACEMENT];
  }

  lemma {:induction false} TwoChunkTexts(a: Bytes, b: Bytes)
    ensures Concat(ChunkTexts([a, b])) == Lossy(a) + Lossy(b)
  {
    hide Lossy;
    assert ChunkTexts([a, b]) == [Lossy(a), Lossy(b)];
    assert [Lossy(a), Lossy(b)][1..] == [Lossy(b)];
    OneChunk(b);
  }

  lemma {:induction false} DifferentCalls()
    ensures Call(E_ACUTE) != Call(TWO_REPLACED) && Call(E_ACUTE).Obj? && Call(TWO_REPLACED).Obj?
  {
    hide Literal;
    assert CalledName(Call(E_ACUTE)) == E_ACUTE && CalledName(Call(TWO_REPLACED)) == TWO_REPLACED;
    assert |E_ACUTE| != |TWO_REPLACED|;
  }
}
