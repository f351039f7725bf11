/** Everything the inbound gate sends and answers, piece by piece of its input. */
module GateOutcomes {
  import opened Wrappers
  import opened JsText
  import opened JsonText
  import opened JsonFraming
  import opened FramingGrammar
  import opened StreamGates
  import opened GateDecisions

  // ---- what the messages are -------------------------------------------------------------

  /** The first member of that name has that value. */
  ghost predicate HasMember(v: Value, name: string, x: Value)
  {
    v.Obj? && exists i :: 0 <= i < |v.members| && FirstNamed(v.members, Literal(name), i) && v.members[i].value == x
  }

  predicate FirstNamed(members: seq<Keyed<Value>>, key: Text, i: nat)
    requires i < |members|
  {
    members[i].key == key && forall j :: 0 <= j < i ==> members[j].key != key
  }

  lemma {:induction false} LookupIff(members: seq<Keyed<Value>>, key: Text, x: Value)
    ensures Lookup(members, key) == Some(x)
            <==> exists i :: 0 <= i < |members| && FirstNamed(members, key, i) && members[i].value == x
    decreases |members|
  {
    if members != [] {
      LookupIff(members[1..], key, x);
      if members[0].key == key {
        assert FirstNamed(members, key, 0);
      } else {
        if i :| 0 <= i < |members| && FirstNamed(members, key, i) && members[i].value == x {
          assert members[1..][i - 1] == members[i];
          assert FirstNamed(members[1..], key, i - 1);
        }
        if i :| 0 <= i < |members[1..]| && FirstNamed(members[1..], key, i) && members[1..][i].value == x {
          assert forall j :: 0 < j <= i ==> members[j] == members[1..][j - 1];
          assert FirstNamed(members, key, i + 1) && members[i + 1].value == x;
        }
      }
    }
  }

  lemma {:induction false} FieldIff(v: Value, name: string, x: Value)
    ensures Field(v, name) == Some(x) <==> HasMember(v, name, x)
  {
    hide Literal;
    if v.Obj? {
      LookupIff(v.members, Literal(name), x);
    }
  }

  lemma {:induction false} NoFieldIff(v: Value, name: string)
    ensures Field(v, name) == None <==> forall x :: !HasMember(v, name, x)
  {
    hide HasMember;
    forall x ensures Field(v, name) == Some(x) <==> HasMember(v, name, x) {
      FieldIff(v, name, x);
    }
  }

  /** A JSON-RPC 2.0 message (section 4) that calls a tool, probes the route, or has a method and no identifier. */
  lemma {:induction false} MessageKinds(v: Value)
    ensures IsToolCall(v) <==>
            HasMember(v, "jsonrpc", Str(Literal("2.0"))) && HasMember(v, "method", Str(Literal("tools/call")))
    ensures IsRouteProbe(v) <==>
            HasMember(v, "jsonrpc", Str(Literal("2.0"))) && HasMember(v, "method", Str(Literal("ruleoak/route-probe")))
    ensures IsNotification(v) <==>
            && HasMember(v, "jsonrpc", Str(Literal("2.0"))) && (exists m :: HasMember(v, "method", Str(m)))
            && forall id :: !HasMember(v, "id", id)
  {
    hide Field, HasMember, Literal;
    FieldIff(v, "jsonrpc", Str(Literal("2.0")));
    forall x ensures Field(v, "method") == Some(x) <==> HasMember(v, "method", x) {
      FieldIff(v, "method", x);
    }
    NoFieldIff(v, "id");
    FieldsOfObjects(v);
    if IsNotification(v) {
      assert HasMember(v, "method", Str(Field(v, "method").value.s));
    }
  }

  lemma {:induction false} FieldsOfObjects(v: Value)
    ensures forall name: string, x :: HasMember(v, name, x) ==> v.Obj?
  {
  }

  /** `at` are the places of the tool calls among some values, in order. */
  ghost predicate CallPlaces(vs: seq<Value>, at: seq<nat>)
  {
    Ascending(at) && forall i: nat :: i in at <==> i < |vs| && IsToolCall(vs[i])
  }

  /** The tool calls among some values are those at exactly these places, in order. */
  lemma {:induction false} CallsAre(vs: seq<Value>) returns (at: seq<nat>)
    ensures CallPlaces(vs, at) && ItemsAt(vs, at, Calls(vs))
    decreases |vs|
  {
    hide IsToolCall, CallPlaces, ItemsAt;
    at := [];
    if vs == [] {
      NoCallPlaces();
    } else {
      var n := |vs| - 1;
      at := CallsAre(vs[..n]);
      assert vs[..n] + [vs[n]] == vs;
      CallsPush(vs[..n], vs[n]);
      OneMorePlace(vs[..n], vs[n], at);
      ItemsLast(vs[..n], vs[n], at, Calls(vs[..n]));
      assert Calls(vs[..n]) + [] == Calls(vs[..n]);
      at := if IsToolCall(vs[n]) then at + [n] else at;
    }
  }

  lemma {:induction false} NoCallPlaces()
    ensures CallPlaces([], []) && ItemsAt([], [], Calls([]))
  {
  }

  lemma {:induction false} OneMorePlace(vs: seq<Value>, v: Value, at: seq<nat>)
    requires CallPlaces(vs, at)
    ensures CallPlaces(vs + [v], if IsToolCall(v) then at + [|vs|] else at)
  {
    hide IsToolCall;
    var now := if IsToolCall(v) then at + [|vs|] else at;
    assert forall k :: 0 <= k < |at| ==> at[k] in at;
    forall i: nat ensures i in now <==> i < |vs| + 1 && IsToolCall((vs + [v])[i]) {
      assert i in now <==> i in at || (IsToolCall(v) && i == |vs|);
      if i < |vs| {
        assert (vs + [v])[i] == vs[i];
      }
    }
  }

  // ---- what a piece of the input leads to --------------------------------------------------

  /** A message goes on to the child: no route probe, and if a tool call, allowed after the calls before it. */
  predicate GoesOn(env: Env, history: seq<Value>, v: Value)
  {
    !IsRouteProbe(v) && (IsToolCall(v) ==> env.decide(history, v) == Allow)
  }

  /** The reply to a withheld message carries its identifier and says why. */
  predicate RepliesTo(env: Env, history: seq<Value>, v: Value, r: Reply)
  {
    match r
    case ProbeReply(id) => IsRouteProbe(v) && Field(v, "id") == Some(id)
    case DenialReply(id, approvalRequired) =>
      IsToolCall(v) && Field(v, "id") == Some(id) && approvalRequired == (env.decide(history, v) == NeedsApproval)
    case _ => false
  }

  /** A message sent alone: passed on as it came, or answered once unless it is a notification. */
  ghost predicate HandledAlone(env: Env, history: seq<Value>, v: Value, raw: Text, sent: Text, told: seq<ClientMessage>)
  {
    && sent == (if GoesOn(env, history, v) then raw + [10] else [])
    && if GoesOn(env, history, v) || IsNotification(v) then told == []
       else exists r :: told == [One(r)] && RepliesTo(env, history, v, r)
  }

  /** A batch: the items that pass are printed as one array, the replies to the others go out as one. */
  ghost predicate HandledBatch(env: Env, history: seq<Value>, items: seq<Value>, sent: Text, told: seq<ClientMessage>)
  {
    exists at: seq<nat>, allowed, answered: seq<nat>, responses ::
      && SendsPassing(env, history, items, at, allowed) && AnswersWithheld(env, history, items, answered, responses)
      && sent == (if allowed == [] then [] else Print(env.num, Arr(allowed)) + [10])
      && told == (if responses == [] then [] else [Many(responses)])
  }

  /** What one piece of the input sends to the child and tells the client, after the tool calls before it. */
  ghost predicate Handled(env: Env, history: seq<Value>, p: Piece, sent: Text, told: seq<ClientMessage>)
  {
    match p
    case NoiseUnit(c) => sent == [c] && told == []
    case MalformedPiece(_) => sent == [] && told == [One(ParseErrorReply)]
    case JsonPiece(raw) =>
      && env.parse(raw).Some?
      && match env.parse(raw).value
         case Arr(items) => HandledBatch(env, history, items, sent, told)
         case v => HandledAlone(env, history, v, raw, sent, told)
  }

  lemma {:induction false} AloneHandled(env: Env, seen: Seen, raw: Text) returns (sent: Text, told: seq<ClientMessage>)
    requires env.parse(raw).Some? && !env.parse(raw).value.Arr?
    ensures HandledAlone(env, seen.history, env.parse(raw).value, raw, sent, told)
    ensures SeePiece(env, seen, JsonPiece(raw)).child == seen.child + sent
    ensures SeePiece(env, seen, JsonPiece(raw)).client == seen.client + told
  {
    hide IsRouteProbe, IsToolCall, IsNotification, Field;
    var v := env.parse(raw).value;
    var e := Evaluate(env, seen.history, v);
    ProbeIsNoCall(v);
    sent := if e.forward then raw + [LINE_FEED] else [];
    told := if !e.forward && e.response.Some? then [One(e.response.value)] else [];
    OneWriteText(env.num, JsonWrite(raw));
    assert seen.child + [] == seen.child && seen.client + [] == seen.client;
    if !e.forward && e.response.Some? {
      assert RepliesTo(env, seen.history, v, e.response.value);
    }
  }

  lemma {:induction false} OneWriteText(num: Numerals, w: Write)
    ensures ChildText(num, []) == [] && ChildText(num, [w]) == WriteText(num, w)
    ensures ChildText(num, [] + [w]) == WriteText(num, w)
  {
    assert [w][..0] == [] && [] + WriteText(num, w) == WriteText(num, w) && [] + [w] == [w];
  }

  lemma {:induction false} BatchHandled(env: Env, seen: Seen, raw: Text) returns (sent: Text, told: seq<ClientMessage>)
    requires env.parse(raw).Some? && env.parse(raw).value.Arr?
    ensures HandledBatch(env, seen.history, env.parse(raw).value.items, sent, told)
    ensures SeePiece(env, seen, JsonPiece(raw)).child == seen.child + sent
    ensures SeePiece(env, seen, JsonPiece(raw)).client == seen.client + told
  {
    hide SendsPassing, AnswersWithheld, EvaluateAll, Print;
    var items := env.parse(raw).value.items;
    var at, answered := BatchReplies(env, seen.history, items);
    var e := EvaluateAll(env, seen.history, items);
    sent := if e.allowed == [] then [] else Print(env.num, Arr(e.allowed)) + [LINE_FEED];
    told := if e.responses == [] then [] else [Many(e.responses)];
    OneWriteText(env.num, BatchWrite(e.allowed));
    assert seen.child + [] == seen.child && seen.client + [] == seen.client;
    assert HandledBatch(env, seen.history, items, sent, told) by {
      assert SendsPassing(env, seen.history, items, at, e.allowed);
      assert AnswersWithheld(env, seen.history, items, answered, e.responses);
    }
  }

  lemma {:induction false} PieceHandled(env: Env, seen: Seen, p: Piece) returns (sent: Text, told: seq<ClientMessage>)
    requires p.JsonPiece? ==> env.parse(p.raw).Some?
    ensures Handled(env, seen.history, p, sent, told)
    ensures SeePiece(env, seen, p) == Seen(seen.history + CallsIn(env, p), seen.child + sent, seen.client + told)
  {
    hide HandledAlone, HandledBatch, HandleJson, CallsIn;
    PieceDecides(env, seen, p);
    match p
    case NoiseUnit(c) =>
      sent, told := [c], [];
      assert seen.client + [] == seen.client;
    case MalformedPiece(_) =>
      sent, told := [], [One(ParseErrorReply)];
      assert seen.child + [] == seen.child;
    case JsonPiece(raw) =>
      if env.parse(raw).value.Arr? {
        sent, told := BatchHandled(env, seen, raw);
      } else {
        sent, told := AloneHandled(env, seen, raw);
      }
  }

  // ---- what the whole input leads to -------------------------------------------------------

  function Flat<T>(xs: seq<seq<T>>): seq<T>
    decreases |xs|
  {
    if xs == [] then [] else Flat(xs[..|xs| - 1]) + xs[|xs| - 1]
  }

  lemma {:induction false} FlatPush<T>(xs: seq<seq<T>>, x: seq<T>)
    ensures Flat(xs + [x]) == Flat(xs) + x
  {
    assert (xs + [x])[..|xs|] == xs;
  }

  ghost predicate AllHandled(env: Env, ps: seq<Piece>, sents: seq<Text>, tolds: seq<seq<ClientMessage>>)
  {
    && |sents| == |tolds| == |ps|
    && forall k :: 0 <= k < |ps| ==> Handled(env, ReceivedCalls(env, ps[..k]), ps[k], sents[k], tolds[k])
  }

  lemma {:induction false} SeeLast(env: Env, seen: Seen, ps: seq<Piece>, p: Piece)
    ensures SeePieces(env, seen, ps + [p]) == SeePiece(env, SeePieces(env, seen, ps), p)
  {
    SeePiecesAppend(env, seen, ps, [p]);
    assert [p][1..] == [];
  }

  lemma {:induction false} ReceivedLast(env: Env, ps: seq<Piece>, p: Piece)
    ensures ReceivedCalls(env, ps + [p]) == ReceivedCalls(env, ps) + CallsIn(env, p)
    decreases |ps|
  {
    hide CallsIn;
    if ps == [] {
      assert [] + [p] == [p] && [p][1..] == [] && CallsIn(env, p) + [] == [] + CallsIn(env, p);
    } else {
      assert (ps + [p])[1..] == ps[1..] + [p];
      ReceivedLast(env, ps[1..], p);
      Assoc(CallsIn(env, ps[0]), ReceivedCalls(env, ps[1..]), CallsIn(env, p));
    }
  }

  lemma {:induction false} PiecesHandled(env: Env, ps: seq<Piece>)
    returns (sents: seq<Text>, tolds: seq<seq<ClientMessage>>)
    requires forall raw :: JsonPiece(raw) in ps ==> env.parse(raw).Some?
    ensures AllHandled(env, ps, sents, tolds)
    ensures SeePieces(env, Seen([], [], []), ps) == Seen(ReceivedCalls(env, ps), Flat(sents), Flat(tolds))
    decreases |ps|
  {
    hide Handled, SeePiece, CallsIn, AllHandled;
    sents, tolds := [], [];
    assert ps == [] ==> AllHandled(env, ps, sents, tolds) by { NoneHandled(env); }
    if ps != [] {
      var before, p := ps[..|ps| - 1], ps[|ps| - 1];
      assert before + [p] == ps && p in ps && forall x :: x in before ==> x in ps;
      assert p.JsonPiece? ==> JsonPiece(p.raw) in ps;
      sents, tolds := PiecesHandled(env, before);
      var seen := SeePieces(env, Seen([], [], []), before);
      var sent, told := PieceHandled(env, seen, p);
      SeeLast(env, Seen([], [], []), before, p);
      ReceivedLast(env, before, p);
      FlatPush(sents, sent);
      FlatPush(tolds, told);
      OneMoreHandled(env, before, p, sents, tolds, sent, told);
      sents, tolds := sents + [sent], tolds + [told];
    }
  }

  lemma {:induction false} NoneHandled(env: Env)
    ensures AllHandled(env, [], [], [])
  {
  }

  lemma {:induction false} OneMoreHandled(env: Env, ps: seq<Piece>, p: Piece, sents: seq<Text>, tolds: seq<seq<ClientMessage>>,
                                          sent: Text, told: seq<ClientMessage>)
    requires AllHandled(env, ps, sents, tolds) && Handled(env, ReceivedCalls(env, ps), p, sent, told)
    ensures AllHandled(env, ps + [p], sents + [sent], tolds + [told])
  {
    hide Handled, ReceivedCalls;
    var all := ps + [p];
    forall k | 0 <= k < |all|
      ensures Handled(env, ReceivedCalls(env, all[..k]), all[k], (sents + [sent])[k], (tolds + [told])[k])
    {
      assert all[..k] == if k < |ps| then ps[..k] else ps;
    }
  }

  /** The end of the input: an unfinished message is withheld and answered, any other rest passed on. */
  lemma {:induction false} TailHandled(env: Env, s: Session, tail: Text)
    requires BracketFree(tail) || IsOpener(tail[0])
    ensures See(env, Finish(s, tail))
            == Seen(s.history, ChildText(env.num, s.child) + (if BracketFree(tail) then tail else []),
                    s.client + (if BracketFree(tail) then [] else [One(IncompleteReply)]))
  {
    assert ChildText(env.num, s.child) + [] == ChildText(env.num, s.child) && s.client + [] == s.client;
    ChildTextPush(env.num, s.child, TailWrite(tail));
    if BracketFree(tail) {
      TrimmedBracketFree(tail);
    } else {
      assert TrimStart(tail) == tail;
    }
  }

  lemma {:induction false} TailCut(valid: Text -> bool, t: Text)
    ensures BracketFree(Frame(valid, t).remaining) || IsOpener(Frame(valid, t).remaining[0])
  {
    ExtractCuts(valid, t);
  }

  /** What the kinds of pieces mean: JSON is a balanced word that parses, a malformed piece opens and is none. */
  ghost predicate Sorted(valid: Text -> bool, ps: seq<Piece>)
  {
    && (forall raw :: JsonPiece(raw) in ps ==> IsWord(raw) && valid(raw))
    && (forall raw :: MalformedPiece(raw) in ps ==> raw != [] && IsOpener(raw[0]) && !(IsWord(raw) && valid(raw)))
    && (forall c :: NoiseUnit(c) in ps ==> !IsOpener(c))
  }

  lemma {:induction false} SortedAppend(valid: Text -> bool, a: seq<Piece>, b: seq<Piece>)
    requires Sorted(valid, a) && Sorted(valid, b)
    ensures Sorted(valid, a + b)
  {
    hide IsWord;
  }

  lemma {:induction false} NoiseSorted(valid: Text -> bool, t: Text)
    requires BracketFree(t)
    ensures Sorted(valid, NoiseUnits(t))
  {
    hide IsWord;
  }

  lemma {:induction false} ClassifiedSorted(valid: Text -> bool, t: Text, e: End)
    requires t != [] && IsOpener(t[0]) && FindEnd(Opened(t[0]), t[1..]) == Some(e)
    ensures Sorted(valid, PiecesOf(Classify(valid, t[..e.len + 1], e.malformed)))
  {
    hide IsWord, FindEnd;
    var raw := t[..e.len + 1];
    if e.malformed {
      NoWordHere(t, e);
    } else {
      EndGivesWord(t, e.len);
    }
  }

  lemma {:induction false} NoWordHere(t: Text, e: End)
    requires t != [] && IsOpener(t[0]) && FindEnd(Opened(t[0]), t[1..]) == Some(e) && e.malformed
    ensures !IsWord(t[..e.len + 1])
  {
    hide FindEnd, IsWord;
    EndIsWord(t, e.len);
  }

  /** Every piece of every input is of the right kind. */
  lemma {:induction false} PiecesSorted(valid: Text -> bool, t: Text)
    ensures Sorted(valid, Frame(valid, t).pieces)
    decreases |t|
  {
    hide Frame, FindNextJsonStart, IsWord, FindEnd, Sorted, Classify;
    var start := FindNextJsonStart(t, 0);
    if start < 0 {
      assert BracketFree(t);
      FrameOfNoise(valid, t);
      NoiseSorted(valid, t[..LastNewline(t) + 1]);
    } else if start > 0 {
      Cut(t, start);
      PiecesSorted(valid, t[start..]);
      FrameAfterNoise(valid, t[..start], t[start..]);
      NoiseSorted(valid, t[..start]);
      SortedAppend(valid, NoiseUnits(t[..start]), Frame(valid, t[start..]).pieces);
    } else {
      FrameAtOpener(valid, t);
      match FindEnd(Opened(t[0]), t[1..])
      case None =>
        NoiseSorted(valid, []);
        assert NoiseUnits([]) == [];
      case Some(e) =>
        PiecesSorted(valid, t[e.len + 1..]);
        ClassifiedSorted(valid, t, e);
        SortedAppend(valid, PiecesOf(Classify(valid, t[..e.len + 1], e.malformed)), Frame(valid, t[e.len + 1..]).pieces);
    }
  }

  /**
   * For every input and chunking: what the child gets and what the client is told are, piece by piece
   * and in order, what each piece leads to after the tool calls before it, and then the rest: passed
   * on, or answered once when it opens a message.
   */
  lemma {:induction false} GateOutcome(env: Env, chunks: seq<Text>)
    returns (sents: seq<Text>, tolds: seq<seq<ClientMessage>>)
    ensures var f, s := Frame(Valid(env), Concat(chunks)), RunGate(env, chunks);
            && AllHandled(env, f.pieces, sents, tolds)
            && ChildText(env.num, s.child) == Flat(sents) + (if BracketFree(f.remaining) then f.remaining else [])
            && s.client == Flat(tolds) + (if BracketFree(f.remaining) then [] else [One(IncompleteReply)])
            && s.history == ReceivedCalls(env, f.pieces)
  {
    hide WriteAll, Frame, Feed, Handled, Sorted, Finish, IsWord, ReceivedCalls;
    var start := Session([], [], []);
    var f := Frame(Valid(env), Concat(chunks));
    PiecesSorted(Valid(env), Concat(chunks));
    JsonParses(env, f.pieces);
    sents, tolds := PiecesHandled(env, f.pieces);
    WriteAllIsFeed(env, start, [], chunks);
    FeedIsFrame(env, chunks);
    TailCut(Valid(env), Concat(chunks));
    var (s, tail) := WriteAll(env, start, [], chunks);
    TailHandled(env, s, tail);
  }

  lemma {:induction false} JsonParses(env: Env, ps: seq<Piece>)
    requires Sorted(Valid(env), ps)
    ensures forall raw :: JsonPiece(raw) in ps ==> env.parse(raw).Some?
  {
    hide IsWord;
  }
}
