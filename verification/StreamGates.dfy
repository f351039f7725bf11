/** The inbound gate of the stdio boundary, on top of the framer. */
module StreamGates {
  import opened Wrappers
  import opened JsText
  import opened JsonText
  import opened JsonFraming

  // ---- what the gates take from elsewhere ----------------------------------------

  datatype Decision = Allow | Deny | NeedsApproval

  /**
   * `parse` is `JSON.parse`; `decide` is policy, approval, receipt and effect boundary
   * together, as a function of the tool calls evaluated before and of this one.
   */
  datatype Env = Env(num: Numerals, parse: Text -> Option<Value>, decide: (seq<Value>, Value) -> Decision)

  function Valid(env: Env): Text -> bool
  {
    (raw: Text) => env.parse(raw).Some?
  }

  // ---- JSON-RPC ------------------------------------------------------------------

  function Lookup(members: seq<Keyed<Value>>, key: Text): Option<Value>
  {
    if members == [] then None
    else if members[0].key == key then Some(members[0].value)
    else Lookup(members[1..], key)
  }

  function Field(v: Value, name: string): Option<Value>
  {
    if v.Obj? then Lookup(v.members, Literal(name)) else None
  }

  predicate IsRpc(v: Value)
  {
    v.Obj? && Field(v, "jsonrpc") == Some(Str(Literal("2.0")))
  }

  predicate IsRouteProbe(v: Value)
  {
    IsRpc(v) && Field(v, "method") == Some(Str(Literal("ruleoak/route-probe")))
  }

  predicate IsToolCall(v: Value)
  {
    IsRpc(v) && Field(v, "method") == Some(Str(Literal("tools/call")))
  }

  /** A request object without an id (JSON-RPC 2.0, section 4.1). */
  predicate IsNotification(v: Value)
  {
    IsRpc(v) && Field(v, "method").Some? && Field(v, "method").value.Str? && Field(v, "id") == None
  }

  datatype Reply =
    | ProbeReply(id: Value)
    | DenialReply(id: Value, approvalRequired: bool)
    | ParseErrorReply
    | IncompleteReply

  datatype ClientMessage = One(reply: Reply) | Many(replies: seq<Reply>)

  function DenialResponse(item: Value, decision: Decision): Option<Reply>
  {
    if IsNotification(item) then None
    else
      var id := match Field(item, "id") case Some(v) => v case None => Null;
      Some(DenialReply(id, decision == NeedsApproval))
  }

  datatype Evaluation = Evaluation(forward: bool, response: Option<Reply>, history: seq<Value>)

  /** `#evaluateJsonRpcItem`. */
  function Evaluate(env: Env, history: seq<Value>, item: Value): Evaluation
  {
    if IsRouteProbe(item) then
      var response := match Field(item, "id") case Some(id) => Some(ProbeReply(id)) case None => None;
      Evaluation(false, response, history)
    else if !IsToolCall(item) then Evaluation(true, None, history)
    else
      var decision := env.decide(history, item);
      if decision == Allow then Evaluation(true, None, history + [item])
      else Evaluation(false, DenialResponse(item, decision), history + [item])
  }

  datatype BatchEvaluation = BatchEvaluation(allowed: seq<Value>, responses: seq<Reply>, history: seq<Value>)

  function EvaluateAll(env: Env, history: seq<Value>, items: seq<Value>): BatchEvaluation
    decreases |items|
  {
    if items == [] then BatchEvaluation([], [], history)
    else
      var first := Evaluate(env, history, items[0]);
      var rest := EvaluateAll(env, first.history, items[1..]);
      if first.forward then rest.(allowed := [items[0]] + rest.allowed)
      else if first.response.Some? then rest.(responses := [first.response.value] + rest.responses)
      else rest
  }

  // ---- what a batch sends and answers ----------------------------------------------

  /** The tool calls among some values, in order. */
  function Calls(vs: seq<Value>): seq<Value>
    decreases |vs|
  {
    if vs == [] then []
    else Calls(vs[..|vs| - 1]) + if IsToolCall(vs[|vs| - 1]) then [vs[|vs| - 1]] else []
  }

  lemma {:induction false} CallsPush(vs: seq<Value>, v: Value)
    ensures Calls(vs + [v]) == Calls(vs) + if IsToolCall(v) then [v] else []
  {
    assert (vs + [v])[..|vs|] == vs;
  }

  /** Item `i` of a batch passes: no route probe, and if a tool call, allowed after the calls before it. */
  predicate Passes(env: Env, history: seq<Value>, items: seq<Value>, i: nat)
  {
    && i < |items|
    && !IsRouteProbe(items[i])
    && (IsToolCall(items[i]) ==> env.decide(history + Calls(items[..i]), items[i]) == Allow)
  }

  predicate Ascending(at: seq<nat>) { forall i, j :: 0 <= i < j < |at| ==> at[i] < at[j] }

  /** `sent` are the places of the items that pass. */
  ghost predicate PassingPlaces(env: Env, history: seq<Value>, items: seq<Value>, sent: seq<nat>)
  {
    Ascending(sent) && forall i: nat :: i in sent <==> Passes(env, history, items, i)
  }

  ghost predicate ItemsAt(items: seq<Value>, sent: seq<nat>, allowed: seq<Value>)
  {
    |allowed| == |sent| && forall k :: 0 <= k < |sent| ==> sent[k] < |items| && allowed[k] == items[sent[k]]
  }

  /** `allowed` are the items that pass, in order; `sent` are their places. */
  ghost predicate SendsPassing(env: Env, history: seq<Value>, items: seq<Value>, sent: seq<nat>, allowed: seq<Value>)
  {
    PassingPlaces(env, history, items, sent) && ItemsAt(items, sent, allowed)
  }

  /** The reply to a withheld item: it carries the item's id and says why it was withheld. */
  predicate Answers(env: Env, history: seq<Value>, items: seq<Value>, i: nat, r: Reply)
  {
    && i < |items|
    && match r
       case ProbeReply(id) => IsRouteProbe(items[i]) && Field(items[i], "id") == Some(id)
       case DenialReply(id, approvalRequired) =>
         && IsToolCall(items[i]) && Field(items[i], "id") == Some(id)
         && approvalRequired == (env.decide(history + Calls(items[..i]), items[i]) == NeedsApproval)
       case _ => false
  }

  /** `answered` are the places of the items that do not pass and are no notifications, each with its reply. */
  ghost predicate AnswersWithheld(
      env: Env, history: seq<Value>, items: seq<Value>, answered: seq<nat>, responses: seq<Reply>)
  {
    && Ascending(answered)
    && (forall i: nat :: i in answered <==> i < |items| && !Passes(env, history, items, i) && !IsNotification(items[i]))
    && |responses| == |answered|
    && forall k :: 0 <= k < |answered| ==> Answers(env, history, items, answered[k], responses[k])
  }

  lemma {:induction false} EvaluateLast(env: Env, history: seq<Value>, items: seq<Value>, item: Value)
    ensures var e := EvaluateAll(env, history, items);
            var r := Evaluate(env, e.history, item);
            EvaluateAll(env, history, items + [item])
            == BatchEvaluation(e.allowed + if r.forward then [item] else [],
                               e.responses + if !r.forward && r.response.Some? then [r.response.value] else [],
                               r.history)
    decreases |items|
  {
    hide Evaluate;
    if items == [] {
      assert ([] + [item])[0] == item && ([] + [item])[1..] == [];
    } else {
      assert (items + [item])[0] == items[0] && (items + [item])[1..] == items[1..] + [item];
      EvaluateLast(env, Evaluate(env, history, items[0]).history, items[1..], item);
    }
  }

  lemma {:induction false} ProbeIsNoCall(v: Value)
    ensures !(IsRouteProbe(v) && IsToolCall(v))
    ensures IsRouteProbe(v) || IsToolCall(v) ==> (IsNotification(v) <==> Field(v, "id") == None)
  {
    assert |Literal("ruleoak/route-probe")| != |Literal("tools/call")|;
  }

  lemma {:induction false} PassesBefore(env: Env, history: seq<Value>, items: seq<Value>, item: Value, i: nat)
    requires i < |items|
    ensures Passes(env, history, items + [item], i) <==> Passes(env, history, items, i)
    ensures forall r :: Answers(env, history, items + [item], i, r) <==> Answers(env, history, items, i, r)
  {
    assert (items + [item])[..i] == items[..i];
  }

  lemma {:induction false} OutOfRange(env: Env, history: seq<Value>, items: seq<Value>, i: nat)
    requires i >= |items|
    ensures !Passes(env, history, items, i)
  {
  }

  lemma {:induction false} PassesLast(env: Env, history: seq<Value>, items: seq<Value>, item: Value)
    ensures var r := Evaluate(env, history + Calls(items), item);
            && r.history == history + Calls(items + [item])
            && (r.forward <==> Passes(env, history, items + [item], |items|))
            && (!r.forward ==> (r.response.Some? <==> !IsNotification(item)))
            && (!r.forward && r.response.Some? ==>
                  Answers(env, history, items + [item], |items|, r.response.value))
  {
    hide IsRouteProbe, IsToolCall, IsNotification, Calls, Field;
    assert (items + [item])[..|items|] == items;
    ProbeIsNoCall(item);
    CallsPush(items, item);
    Assoc(history, Calls(items), [item]);
  }

  lemma {:induction false} PlacesLast(
      env: Env, history: seq<Value>, items: seq<Value>, item: Value, sent: seq<nat>)
    requires PassingPlaces(env, history, items, sent) && forall k :: 0 <= k < |sent| ==> sent[k] < |items|
    ensures PassingPlaces(env, history, items + [item],
                          if Passes(env, history, items + [item], |items|) then sent + [|items|] else sent)
  {
    hide Passes;
    var n := |items|;
    var at := if Passes(env, history, items + [item], n) then sent + [n] else sent;
    forall i: nat ensures i in at <==> Passes(env, history, items + [item], i) {
      assert i in at <==> i in sent || (i == n && Passes(env, history, items + [item], n));
      if i < n {
        PassesBefore(env, history, items, item, i);
      } else {
        OutOfRange(env, history, items, i);
        if i > n {
          OutOfRange(env, history, items + [item], i);
        }
      }
    }
  }

  lemma {:induction false} ItemsLast(items: seq<Value>, item: Value, sent: seq<nat>, allowed: seq<Value>)
    requires ItemsAt(items, sent, allowed)
    ensures ItemsAt(items + [item], sent, allowed) && ItemsAt(items + [item], sent + [|items|], allowed + [item])
  {
  }

  lemma {:induction false} SentLast(
      env: Env, history: seq<Value>, items: seq<Value>, item: Value, sent: seq<nat>, allowed: seq<Value>)
    returns (at: seq<nat>)
    requires SendsPassing(env, history, items, sent, allowed)
    ensures SendsPassing(env, history, items + [item], at,
                         allowed + if Passes(env, history, items + [item], |items|) then [item] else [])
  {
    hide Passes, PassingPlaces;
    at := if Passes(env, history, items + [item], |items|) then sent + [|items|] else sent;
    PlacesLast(env, history, items, item, sent);
    ItemsLast(items, item, sent, allowed);
    assert allowed + [] == allowed;
  }

  lemma {:induction false} AnsweredLast(
      env: Env, history: seq<Value>, items: seq<Value>, item: Value, answered: seq<nat>, responses: seq<Reply>,
      last: seq<Reply>)
    returns (at: seq<nat>)
    requires AnswersWithheld(env, history, items, answered, responses)
    requires |last| == if !Passes(env, history, items + [item], |items|) && !IsNotification(item) then 1 else 0
    requires last != [] ==> Answers(env, history, items + [item], |items|, last[0])
    ensures AnswersWithheld(env, history, items + [item], at, responses + last)
  {
    hide Passes, Answers, IsNotification;
    var n := |items|;
    at := if last != [] then answered + [n] else answered;
    assert Ascending(at) by {
      assert forall k :: 0 <= k < |answered| ==> answered[k] in answered;
    }
    forall i: nat
      ensures i in at <==>
              i <= n && !Passes(env, history, items + [item], i) && !IsNotification((items + [item])[i])
    {
      if i < n {
        assert (items + [item])[i] == items[i];
        PassesBefore(env, history, items, item, i);
      }
    }
    forall k | 0 <= k < |at| ensures Answers(env, history, items + [item], at[k], (responses + last)[k]) {
      if k < |answered| {
        assert answered[k] in answered;
        PassesBefore(env, history, items, item, answered[k]);
      }
    }
  }

  lemma {:induction false} EmptyBatch(env: Env, history: seq<Value>)
    ensures SendsPassing(env, history, [], [], []) && AnswersWithheld(env, history, [], [], [])
  {
  }

  /**
   * JSON-RPC 2.0, sections 4.1 and 6: a batch decides its tool calls in order, forwards exactly the
   * items that pass and answers exactly the withheld items that are no notifications, in order.
   */
  lemma {:induction false} BatchReplies(env: Env, history: seq<Value>, items: seq<Value>)
    returns (sent: seq<nat>, answered: seq<nat>)
    ensures var e := EvaluateAll(env, history, items);
            && e.history == history + Calls(items)
            && SendsPassing(env, history, items, sent, e.allowed)
            && AnswersWithheld(env, history, items, answered, e.responses)
    decreases |items|
  {
    hide Evaluate, Passes, Answers, IsNotification, SendsPassing, AnswersWithheld;
    if items == [] {
      sent, answered := [], [];
      EmptyBatch(env, history);
    } else {
      var n := |items| - 1;
      var before, item := items[..n], items[n];
      assert items == before + [item];
      sent, answered := BatchReplies(env, history, before);
      EvaluateLast(env, history, before, item);
      PassesLast(env, history, before, item);
      var e := EvaluateAll(env, history, before);
      var r := Evaluate(env, e.history, item);
      var last := if !r.forward && r.response.Some? then [r.response.value] else [];
      sent := SentLast(env, history, before, item, sent, e.allowed);
      answered := AnsweredLast(env, history, before, item, answered, e.responses, last);
    }
  }

  // ---- the inbound gate, as a function of the fragments ------------------------------

  /** One write to the child's standard input. */
  datatype Write = NoiseWrite(raw: Text) | JsonWrite(raw: Text) | BatchWrite(items: seq<Value>) | TailWrite(raw: Text)

  function WriteText(num: Numerals, w: Write): Text
  {
    match w
    case NoiseWrite(raw) => raw
    case JsonWrite(raw) => raw + [LINE_FEED]
    case BatchWrite(items) => Print(num, Arr(items)) + [LINE_FEED]
    case TailWrite(raw) => raw
  }

  function ChildText(num: Numerals, ws: seq<Write>): Text
  {
    if ws == [] then [] else ChildText(num, ws[..|ws| - 1]) + WriteText(num, ws[|ws| - 1])
  }

  /** Everything a session has produced so far. */
  datatype Session = Session(history: seq<Value>, child: seq<Write>, client: seq<ClientMessage>)

  function HandleJson(env: Env, s: Session, value: Value, raw: Text): Session
  {
    if value.Arr? then
      var e := EvaluateAll(env, s.history, value.items);
      Session(e.history,
              if e.allowed != [] then s.child + [BatchWrite(e.allowed)] else s.child,
              if e.responses != [] then s.client + [Many(e.responses)] else s.client)
    else
      var e := Evaluate(env, s.history, value);
      Session(e.history,
              if e.forward then s.child + [JsonWrite(raw)] else s.child,
              if !e.forward && e.response.Some? then s.client + [One(e.response.value)] else s.client)
  }

  function HandleFragment(env: Env, s: Session, f: Fragment): Session
  {
    match f
    case Noise(raw) => s.(child := s.child + [NoiseWrite(raw)])
    case Malformed(raw) => s.(client := s.client + [One(ParseErrorReply)])
    case Json(raw) =>
      match env.parse(raw)
      case Some(value) => HandleJson(env, s, value, raw)
      case None => s
  }

  function HandleAll(env: Env, s: Session, fs: seq<Fragment>): Session
    decreases |fs|
  {
    if fs == [] then s else HandleAll(env, HandleFragment(env, s, fs[0]), fs[1..])
  }

  /** `end()`: a bracketed tail is withheld, any other tail is passed on. */
  function Finish(s: Session, tail: Text): Session
  {
    if tail == [] then s
    else
      var trimmed := TrimStart(tail);
      if trimmed != [] && IsOpener(trimmed[0]) then s.(client := s.client + [One(IncompleteReply)])
      else s.(child := s.child + [TailWrite(tail)])
  }

  class InboundGate {
    const env: Env
    var buffer: Text
    var history: seq<Value>
    var childStdin: seq<Write>
    var stdout: seq<ClientMessage>

    constructor (env: Env)
      ensures this.env == env && buffer == [] && Produced() == Session([], [], [])
    {
      this.env := env;
      buffer, history, childStdin, stdout := [], [], [], [];
    }

    function Produced(): Session
      reads this
    {
      Session(history, childStdin, stdout)
    }

    method Write(chunk: Text)
      modifies this
      ensures var e := Extract(Valid(env), old(buffer) + chunk);
              buffer == e.remaining && Produced() == HandleAll(env, old(Produced()), e.fragments)
    {
      buffer := buffer + chunk;
      var fragments, remaining := ExtractJsonFragments(Valid(env), buffer);
      buffer := remaining;
      ghost var goal := HandleAll(env, Produced(), fragments);
      assert fragments[0..] == fragments;
      for i := 0 to |fragments|
        invariant buffer == remaining
        invariant goal == HandleAll(env, Produced(), fragments[i..])
      {
        assert fragments[i..][1..] == fragments[i + 1..];
        Handle(fragments[i]);
      }
    }

    method Handle(f: Fragment)
      modifies this
      ensures buffer == old(buffer) && Produced() == HandleFragment(env, old(Produced()), f)
    {
      match f
      case Noise(raw) => childStdin := childStdin + [NoiseWrite(raw)];
      case Malformed(raw) => stdout := stdout + [One(ParseErrorReply)];
      case Json(raw) =>
        match env.parse(raw)
        case None =>
        case Some(value) =>
          if value.Arr? {
            ghost var sent, answered := HandleBatch(value.items);
          } else {
            var result := Evaluate(env, history, value);
            history := result.history;
            if result.forward {
              childStdin := childStdin + [JsonWrite(raw)];
            } else if result.response.Some? {
              stdout := stdout + [One(result.response.value)];
            }
          }
    }

    /** `sent` are the places of the items forwarded, `answered` those of the items replied to. */
    method HandleBatch(items: seq<Value>) returns (ghost sent: seq<nat>, ghost answered: seq<nat>)
      modifies this
      ensures buffer == old(buffer) && Produced() == HandleJson(env, old(Produced()), Arr(items), [])
      ensures history == old(history) + Calls(items)
      ensures SendsPassing(env, old(history), items, sent, EvaluateAll(env, old(history), items).allowed)
      ensures AnswersWithheld(env, old(history), items, answered, EvaluateAll(env, old(history), items).responses)
    {
      hide Passes, Answers, Evaluate, SendsPassing, AnswersWithheld;
      sent, answered := BatchReplies(env, history, items);
      var allowed, responses := EvaluateBatch(items);
      if |allowed| > 0 {
        childStdin := childStdin + [BatchWrite(allowed)];
      }
      if |responses| > 0 {
        stdout := stdout + [Many(responses)];
      }
    }

    method EvaluateBatch(items: seq<Value>) returns (allowed: seq<Value>, responses: seq<Reply>)
      modifies this`history
      ensures BatchEvaluation(allowed, responses, history) == EvaluateAll(env, old(history), items)
    {
      allowed, responses := [], [];
      ghost var todo := EvaluateAll(env, history, items);
      assert items[0..] == items;
      for i := 0 to |items|
        invariant todo == EvaluateAll(env, history, items[i..])
        invariant EvaluateAll(env, old(history), items)
                  == BatchEvaluation(allowed + todo.allowed, responses + todo.responses, todo.history)
      {
        assert items[i..][1..] == items[i + 1..];
        var result := Evaluate(env, history, items[i]);
        history := result.history;
        todo := EvaluateAll(env, history, items[i + 1..]);
        if result.forward {
          Assoc(allowed, [items[i]], todo.allowed);
          allowed := allowed + [items[i]];
        } else if result.response.Some? {
          Assoc(responses, [result.response.value], todo.responses);
          responses := responses + [result.response.value];
        }
      }
    }

    method End()
      modifies this
      ensures buffer == [] && Produced() == Finish(old(Produced()), old(buffer))
    {
      var tail := buffer;
      buffer := [];
      if |tail| > 0 {
        var trimmed := TrimStart(tail);
        if trimmed != [] && IsOpener(trimmed[0]) {
          stdout := stdout + [One(IncompleteReply)];
        } else {
          childStdin := childStdin + [TailWrite(tail)];
        }
      }
    }
  }

  // ---- a whole session does not depend on chunking ------------------------------------

  /** What `Write` does to a session and a buffer, chunk after chunk. */
  function WriteAll(env: Env, s: Session, buffer: Text, chunks: seq<Text>): (Session, Text)
    decreases |chunks|
  {
    if chunks == [] then (s, buffer)
    else
      var e := Extract(Valid(env), buffer + chunks[0]);
      WriteAll(env, HandleAll(env, s, e.fragments), e.remaining, chunks[1..])
  }

  /** A gate from start to end of input. */
  function RunGate(env: Env, chunks: seq<Text>): Session
  {
    var (s, tail) := WriteAll(env, Session([], [], []), [], chunks);
    Finish(s, tail)
  }

  /** What the child and the client receive, and the tool calls that were decided. */
  datatype Seen = Seen(history: seq<Value>, child: Text, client: seq<ClientMessage>)

  function See(env: Env, s: Session): Seen
  {
    Seen(s.history, ChildText(env.num, s.child), s.client)
  }

  function SeePiece(env: Env, seen: Seen, p: Piece): Seen
  {
    match p
    case NoiseUnit(c) => seen.(child := seen.child + [c])
    case MalformedPiece(raw) => seen.(client := seen.client + [One(ParseErrorReply)])
    case JsonPiece(raw) =>
      match env.parse(raw)
      case None => seen
      case Some(value) =>
        var s := HandleJson(env, Session(seen.history, [], seen.client), value, raw);
        Seen(s.history, seen.child + ChildText(env.num, s.child), s.client)
  }

  function SeePieces(env: Env, seen: Seen, ps: seq<Piece>): Seen
    decreases |ps|
  {
    if ps == [] then seen else SeePieces(env, SeePiece(env, seen, ps[0]), ps[1..])
  }

  lemma {:induction false} SeePiecesAppend(env: Env, seen: Seen, a: seq<Piece>, b: seq<Piece>)
    ensures SeePieces(env, seen, a + b) == SeePieces(env, SeePieces(env, seen, a), b)
    decreases |a|
  {
    if a == [] {
      assert a + b == b;
    } else {
      assert (a + b)[1..] == a[1..] + b;
      SeePiecesAppend(env, SeePiece(env, seen, a[0]), a[1..], b);
    }
  }

  lemma {:induction false} ChildTextPush(num: Numerals, ws: seq<Write>, w: Write)
    ensures ChildText(num, ws + [w]) == ChildText(num, ws) + WriteText(num, w)
  {
    assert (ws + [w])[..|ws|] == ws;
  }

  lemma {:induction false} SeeNoise(env: Env, seen: Seen, raw: Text)
    ensures SeePieces(env, seen, NoiseUnits(raw)) == seen.(child := seen.child + raw)
    decreases |raw|
  {
    if raw == [] {
      assert seen.child + raw == seen.child;
    } else {
      assert NoiseUnits(raw)[1..] == NoiseUnits(raw[1..]);
      SeeNoise(env, seen.(child := seen.child + [raw[0]]), raw[1..]);
      assert (seen.child + [raw[0]]) + raw[1..] == seen.child + raw;
    }
  }

  lemma {:induction false} SeeJson(env: Env, s: Session, value: Value, raw: Text)
    ensures var alone := HandleJson(env, Session(s.history, [], s.client), value, raw);
            See(env, HandleJson(env, s, value, raw))
            == Seen(alone.history, ChildText(env.num, s.child) + ChildText(env.num, alone.child), alone.client)
  {
    var alone := HandleJson(env, Session(s.history, [], s.client), value, raw);
    if alone.child == [] {
      assert ChildText(env.num, s.child) + [] == ChildText(env.num, s.child);
    } else {
      var w := alone.child[0];
      assert alone.child == [] + [w];
      ChildTextPush(env.num, [], w);
      ChildTextPush(env.num, s.child, w);
      assert [] + WriteText(env.num, w) == WriteText(env.num, w);
    }
  }

  lemma {:induction false} SeeFragment(env: Env, s: Session, f: Fragment)
    ensures See(env, HandleFragment(env, s, f)) == SeePieces(env, See(env, s), PiecesOf(f))
  {
    match f
    case Noise(raw) =>
      ChildTextPush(env.num, s.child, NoiseWrite(raw));
      SeeNoise(env, See(env, s), raw);
    case Malformed(raw) =>
      assert PiecesOf(f)[1..] == [];
    case Json(raw) =>
      assert PiecesOf(f)[1..] == [];
      if env.parse(raw).Some? {
        SeeJson(env, s, env.parse(raw).value, raw);
      }
  }

  lemma {:induction false} SeeAll(env: Env, s: Session, fs: seq<Fragment>)
    ensures See(env, HandleAll(env, s, fs)) == SeePieces(env, See(env, s), Pieces(fs))
    decreases |fs|
  {
    if fs != [] {
      var s' := HandleFragment(env, s, fs[0]);
      SeeFragment(env, s, fs[0]);
      SeeAll(env, s', fs[1..]);
      SeePiecesAppend(env, See(env, s), PiecesOf(fs[0]), Pieces(fs[1..]));
    }
  }

  lemma {:induction false} WriteAllIsFeed(env: Env, s: Session, buffer: Text, chunks: seq<Text>)
    ensures var fed := Feed(Valid(env), buffer, chunks);
            var (s', tail) := WriteAll(env, s, buffer, chunks);
            See(env, s') == SeePieces(env, See(env, s), fed.pieces) && tail == fed.remaining
    decreases |chunks|
  {
    if chunks != [] {
      var e := Extract(Valid(env), buffer + chunks[0]);
      SeeAll(env, s, e.fragments);
      WriteAllIsFeed(env, HandleAll(env, s, e.fragments), e.remaining, chunks[1..]);
      SeePiecesAppend(env, See(env, s), Pieces(e.fragments), Feed(Valid(env), e.remaining, chunks[1..]).pieces);
    }
  }

  lemma {:induction false} SeeFinish(env: Env, s: Session, s': Session, tail: Text)
    requires See(env, s) == See(env, s')
    ensures See(env, Finish(s, tail)) == See(env, Finish(s', tail))
  {
    ChildTextPush(env.num, s.child, TailWrite(tail));
    ChildTextPush(env.num, s'.child, TailWrite(tail));
  }

  /** The text sent to the child and the messages sent to the client do not depend on how the text is chunked. */
  lemma {:induction false} GateChunkIndependence(env: Env, chunks: seq<Text>, others: seq<Text>)
    requires Concat(chunks) == Concat(others)
    ensures See(env, RunGate(env, chunks)) == See(env, RunGate(env, others))
  {
    var start := Session([], [], []);
    WriteAllIsFeed(env, start, [], chunks);
    WriteAllIsFeed(env, start, [], others);
    ChunkIndependence(Valid(env), [], chunks);
    ChunkIndependence(Valid(env), [], others);
    var (s, tail) := WriteAll(env, start, [], chunks);
    var (s', tail') := WriteAll(env, start, [], others);
    SeeFinish(env, s, s', tail);
  }

  // ---- nothing bracketed passes unparsed ------------------------------------------------

  /** A write is bracket-free, or one of the `pieces` that parsed, or items of an array among them. */
  ghost predicate Vetted(env: Env, pieces: seq<Piece>, w: Write)
  {
    match w
    case NoiseWrite(raw) => BracketFree(raw)
    case TailWrite(raw) => BracketFree(raw)
    case JsonWrite(raw) => JsonPiece(raw) in pieces && env.parse(raw).Some? && !env.parse(raw).value.Arr?
    case BatchWrite(items) =>
      exists raw: Text :: JsonPiece(raw) in pieces && env.parse(raw).Some? && env.parse(raw).value.Arr?
                          && forall v :: v in items ==> v in env.parse(raw).value.items
  }

  ghost predicate AllVetted(env: Env, pieces: seq<Piece>, ws: seq<Write>) {
    forall w :: w in ws ==> Vetted(env, pieces, w)
  }

  ghost predicate Among(some: seq<Piece>, pieces: seq<Piece>) {
    forall p :: p in some ==> p in pieces
  }

  ghost predicate PlainNoise(fs: seq<Fragment>) {
    forall f :: f in fs && f.Noise? ==> BracketFree(f.raw)
  }

  /** The framer's noise is bracket-free, and what it keeps is bracket-free or starts with a bracket. */
  ghost predicate CutWell(e: Extracted) {
    PlainNoise(e.fragments) && (BracketFree(e.remaining) || IsOpener(e.remaining[0]))
  }

  lemma {:induction false} ExtractCuts(valid: Text -> bool, t: Text)
    ensures CutWell(Extract(valid, t))
    decreases |t|
  {
    if t == [] {
    } else if FindNextJsonStart(t, 0) < 0 {
      NoiseCuts(valid, t);
    } else if FindNextJsonStart(t, 0) > 0 {
      var start := FindNextJsonStart(t, 0);
      ExtractCuts(valid, t[start..]);
      assert t[0..] == t;
      ExtractAfterNoise(valid, t, 0, start);
      CutWellPrepend(Noise(t[0..start]), Extract(valid, t[start..]));
    } else {
      ExtractOpened(valid, t);
      match FindEnd(Opened(t[0]), t[1..])
      case None => OpenedCuts(t);
      case Some(e) =>
        ExtractCuts(valid, t[e.len + 1..]);
        CutWellPrepend(Classify(valid, t[..e.len + 1], e.malformed), Extract(valid, t[e.len + 1..]));
    }
  }

  lemma {:induction false} NoiseCuts(valid: Text -> bool, t: Text)
    requires t != [] && FindNextJsonStart(t, 0) < 0
    ensures CutWell(Extract(valid, t))
  {
    hide Extract;
    ExtractOfNoise(valid, t);
    assert BracketFree(t);
  }

  lemma {:induction false} OpenedCuts(t: Text)
    requires t != [] && IsOpener(t[0])
    ensures CutWell(Extracted([], t))
  {
  }

  lemma {:induction false} CutWellPrepend(f: Fragment, e: Extracted)
    requires CutWell(e) && (f.Noise? ==> BracketFree(f.raw))
    ensures CutWell(Prepend(f, e))
  {
  }

  lemma {:induction false} AllowedAmong(env: Env, history: seq<Value>, items: seq<Value>)
    ensures forall v :: v in EvaluateAll(env, history, items).allowed ==> v in items
  {
    hide Passes, EvaluateAll;
    var sent, _ := BatchReplies(env, history, items);
    var allowed := EvaluateAll(env, history, items).allowed;
    forall v | v in allowed ensures v in items {
      var k :| 0 <= k < |allowed| && allowed[k] == v;
    }
  }

  lemma {:induction false} HandleVets(env: Env, pieces: seq<Piece>, s: Session, fs: seq<Fragment>)
    requires AllVetted(env, pieces, s.child) && PlainNoise(fs) && Among(Pieces(fs), pieces)
    ensures AllVetted(env, pieces, HandleAll(env, s, fs).child)
    decreases |fs|
  {
    if fs != [] {
      var f := fs[0];
      assert f in fs;
      assert f.Json? ==> PiecesOf(f)[0] in Pieces(fs);
      if f.Json? && env.parse(f.raw).Some? && env.parse(f.raw).value.Arr? {
        AllowedAmong(env, s.history, env.parse(f.raw).value.items);
      }
      assert Among(Pieces(fs[1..]), pieces) by {
        assert forall p :: p in Pieces(fs[1..]) ==> p in Pieces(fs);
      }
      HandleVets(env, pieces, HandleFragment(env, s, f), fs[1..]);
    }
  }

  lemma {:induction false} WriteAllVets(env: Env, pieces: seq<Piece>, s: Session, buffer: Text, chunks: seq<Text>)
    requires AllVetted(env, pieces, s.child) && (BracketFree(buffer) || IsOpener(buffer[0]))
    requires Among(Feed(Valid(env), buffer, chunks).pieces, pieces)
    ensures var (s', tail) := WriteAll(env, s, buffer, chunks);
            AllVetted(env, pieces, s'.child) && (BracketFree(tail) || IsOpener(tail[0]))
    decreases |chunks|
  {
    if chunks != [] {
      var e := Extract(Valid(env), buffer + chunks[0]);
      var now, later := Pieces(e.fragments), Feed(Valid(env), e.remaining, chunks[1..]).pieces;
      assert Feed(Valid(env), buffer, chunks).pieces == now + later;
      assert Among(now, pieces) && Among(later, pieces);
      ExtractCuts(Valid(env), buffer + chunks[0]);
      HandleVets(env, pieces, s, e.fragments);
      WriteAllVets(env, pieces, HandleAll(env, s, e.fragments), e.remaining, chunks[1..]);
    }
  }

  lemma {:induction false} TrimmedBracketFree(t: Text)
    requires BracketFree(t)
    ensures BracketFree(TrimStart(t))
  {
    if t != [] && IsWhitespace(t[0]) {
      TrimmedBracketFree(t[1..]);
    }
  }

  lemma {:induction false} FinishVets(env: Env, pieces: seq<Piece>, s: Session, tail: Text)
    requires AllVetted(env, pieces, s.child) && (BracketFree(tail) || IsOpener(tail[0]))
    ensures AllVetted(env, pieces, Finish(s, tail).child)
  {
    if BracketFree(tail) {
      TrimmedBracketFree(tail);
    } else {
      assert TrimStart(tail) == tail;
    }
  }

  lemma {:induction false} FeedIsFrame(env: Env, chunks: seq<Text>)
    ensures Feed(Valid(env), [], chunks) == Frame(Valid(env), Concat(chunks))
  {
    assert [] + Concat(chunks) == Concat(chunks);
    ChunkIndependence(Valid(env), [], chunks);
  }

  /**
   * For every input and chunking, an opening bracket reaches the child only inside a complete
   * fragment of the input that parsed, or inside reprinted items of such an array.
   */
  lemma {:induction false} OnlyVettedReachesChild(env: Env, chunks: seq<Text>)
    ensures AllVetted(env, Frame(Valid(env), Concat(chunks)).pieces, RunGate(env, chunks).child)
  {
    hide WriteAll, Frame, Feed, Vetted, Finish;
    var start := Session([], [], []);
    var pieces := Frame(Valid(env), Concat(chunks)).pieces;
    FeedIsFrame(env, chunks);
    WriteAllVets(env, pieces, start, [], chunks);
    var (s, tail) := WriteAll(env, start, [], chunks);
    FinishVets(env, pieces, s, tail);
  }
}
