/** The decisions of the inbound gate: which tool calls it decides, and which ones the child gets. */
module GateDecisions {
  import opened Wrappers
  import opened JsText
  import opened JsonText
  import opened JsonFraming
  import opened StreamGates

  /** The calls of a decision history that were allowed, each decided after the calls before it. */
  function AllowedCalls(env: Env, history: seq<Value>): seq<Value>
    decreases |history|
  {
    if history == [] then []
    else
      var n := |history| - 1;
      AllowedCalls(env, history[..n]) + if env.decide(history[..n], history[n]) == Allow then [history[n]] else []
  }

  /** The tool calls in one write to the child. */
  function CallsOf(env: Env, w: Write): seq<Value>
  {
    match w
    case JsonWrite(raw) => if env.parse(raw).Some? then Calls([env.parse(raw).value]) else []
    case BatchWrite(items) => Calls(items)
    case _ => []
  }

  function ForwardedCalls(env: Env, ws: seq<Write>): seq<Value>
    decreases |ws|
  {
    if ws == [] then [] else ForwardedCalls(env, ws[..|ws| - 1]) + CallsOf(env, ws[|ws| - 1])
  }

  /** The tool calls of a piece of the input: the one it is, or those of its array. */
  function CallsIn(env: Env, p: Piece): seq<Value>
  {
    if p.JsonPiece? && env.parse(p.raw).Some? then
      var v := env.parse(p.raw).value;
      if v.Arr? then Calls(v.items) else Calls([v])
    else []
  }

  function ReceivedCalls(env: Env, ps: seq<Piece>): seq<Value>
    decreases |ps|
  {
    if ps == [] then [] else CallsIn(env, ps[0]) + ReceivedCalls(env, ps[1..])
  }

  // ---- what each step forwards -----------------------------------------------------------------

  lemma {:induction false} ForwardedPush(env: Env, ws: seq<Write>, w: Write)
    ensures ForwardedCalls(env, ws + [w]) == ForwardedCalls(env, ws) + CallsOf(env, w)
  {
    assert (ws + [w])[..|ws|] == ws;
  }

  lemma {:induction false} AllowedPush(env: Env, history: seq<Value>, v: Value)
    ensures AllowedCalls(env, history + [v])
            == AllowedCalls(env, history) + if env.decide(history, v) == Allow then [v] else []
  {
    assert (history + [v])[..|history|] == history;
  }

  lemma {:induction false} CallsOne(v: Value)
    ensures Calls([v]) == if IsToolCall(v) then [v] else []
  {
    assert [v] == [] + [v];
    CallsPush([], v);
  }

  /** One item is forwarded, as far as it is a tool call, exactly when its decision allows it. */
  lemma {:induction false} EvaluateForwards(env: Env, history: seq<Value>, item: Value)
    ensures var r := Evaluate(env, history, item);
            && AllowedCalls(env, r.history) == AllowedCalls(env, history) + (if r.forward then Calls([item]) else [])
            && r.history == history + Calls([item])
  {
    hide IsRouteProbe, IsToolCall, DenialResponse;
    ProbeIsNoCall(item);
    CallsOne(item);
    AllowedPush(env, history, item);
    assert history + [] == history && AllowedCalls(env, history) + [] == AllowedCalls(env, history);
  }

  lemma {:induction false} BatchForwards(env: Env, history: seq<Value>, items: seq<Value>)
    ensures var e := EvaluateAll(env, history, items);
            && AllowedCalls(env, e.history) == AllowedCalls(env, history) + Calls(e.allowed)
            && e.history == history + Calls(items)
    decreases |items|
  {
    hide Evaluate, IsToolCall, Calls;
    if items == [] {
      assert Calls([]) == [] by { CallsNone(); }
      assert history + [] == history && AllowedCalls(env, history) + [] == AllowedCalls(env, history);
    } else {
      var n := |items| - 1;
      var before, item := items[..n], items[n];
      assert items == before + [item];
      var e := EvaluateAll(env, history, before);
      BatchForwards(env, history, before);
      EvaluateLast(env, history, before, item);
      EvaluateForwards(env, e.history, item);
      CallsOne(item);
      CallsPush(before, item);
      CallsPush(e.allowed, item);
      Assoc(history, Calls(before), Calls([item]));
      Assoc(AllowedCalls(env, history), Calls(e.allowed), Calls([item]));
      assert e.allowed + [] == e.allowed;
      assert AllowedCalls(env, e.history) + [] == AllowedCalls(env, e.history);
    }
  }

  lemma {:induction false} CallsNone()
    ensures Calls([]) == []
  {
  }

  /** In this session the child got exactly the tool calls whose decision allowed them, in order. */
  ghost predicate Guarded(env: Env, s: Session) {
    ForwardedCalls(env, s.child) == AllowedCalls(env, s.history)
  }

  lemma {:induction false} JsonForwards(env: Env, s: Session, raw: Text)
    requires Guarded(env, s) && env.parse(raw).Some?
    ensures Guarded(env, HandleJson(env, s, env.parse(raw).value, raw))
    ensures HandleJson(env, s, env.parse(raw).value, raw).history == s.history + CallsIn(env, JsonPiece(raw))
  {
    hide Evaluate, EvaluateAll, Calls, IsToolCall;
    var value := env.parse(raw).value;
    if value.Arr? {
      var e := EvaluateAll(env, s.history, value.items);
      BatchForwards(env, s.history, value.items);
      ForwardedPush(env, s.child, BatchWrite(e.allowed));
      CallsNone();
      assert AllowedCalls(env, s.history) + [] == AllowedCalls(env, s.history);
    } else {
      EvaluateForwards(env, s.history, value);
      ForwardedPush(env, s.child, JsonWrite(raw));
      assert AllowedCalls(env, s.history) + [] == AllowedCalls(env, s.history);
    }
  }

  lemma {:induction false} FragmentForwards(env: Env, s: Session, f: Fragment)
    requires Guarded(env, s)
    ensures Guarded(env, HandleFragment(env, s, f))
  {
    hide HandleJson;
    match f
    case Noise(raw) =>
      ForwardedPush(env, s.child, NoiseWrite(raw));
      assert ForwardedCalls(env, s.child) + [] == ForwardedCalls(env, s.child);
    case Malformed(_) =>
    case Json(raw) =>
      if env.parse(raw).Some? {
        JsonForwards(env, s, raw);
      }
  }

  lemma {:induction false} AllForward(env: Env, s: Session, fs: seq<Fragment>)
    requires Guarded(env, s)
    ensures Guarded(env, HandleAll(env, s, fs))
    decreases |fs|
  {
    hide HandleFragment, Guarded;
    if fs != [] {
      FragmentForwards(env, s, fs[0]);
      AllForward(env, HandleFragment(env, s, fs[0]), fs[1..]);
    }
  }

  lemma {:induction false} WritesForward(env: Env, s: Session, buffer: Text, chunks: seq<Text>)
    requires Guarded(env, s)
    ensures Guarded(env, WriteAll(env, s, buffer, chunks).0)
    decreases |chunks|
  {
    hide HandleAll, Guarded, Extract;
    if chunks != [] {
      var e := Extract(Valid(env), buffer + chunks[0]);
      AllForward(env, s, e.fragments);
      WritesForward(env, HandleAll(env, s, e.fragments), e.remaining, chunks[1..]);
    }
  }

  /**
   * The gate's guarantee: for every input and chunking, the tool calls that reach the child are
   * exactly the decided calls that were allowed, in the order of their decisions.
   */
  lemma {:induction false} ForwardsExactlyAllowed(env: Env, chunks: seq<Text>)
    ensures ForwardedCalls(env, RunGate(env, chunks).child) == AllowedCalls(env, RunGate(env, chunks).history)
  {
    hide WriteAll;
    var start := Session([], [], []);
    WritesForward(env, start, [], chunks);
    var (s, tail) := WriteAll(env, start, [], chunks);
    ForwardedPush(env, s.child, TailWrite(tail));
    assert ForwardedCalls(env, s.child) + [] == ForwardedCalls(env, s.child);
  }

  /** A call is among the allowed ones exactly when some decision of the history allowed it. */
  lemma {:induction false} AllowedIff(env: Env, history: seq<Value>, v: Value)
    ensures v in AllowedCalls(env, history)
            <==> exists k :: 0 <= k < |history| && history[k] == v && env.decide(history[..k], v) == Allow
    decreases |history|
  {
    if history != [] {
      var n := |history| - 1;
      AllowedIff(env, history[..n], v);
      assert forall k :: 0 <= k < n ==> history[..n][k] == history[k] && history[..n][..k] == history[..k];
      if v in AllowedCalls(env, history[..n]) {
        var k :| 0 <= k < n && history[..n][k] == v && env.decide(history[..n][..k], v) == Allow;
        assert history[k] == v && env.decide(history[..k], v) == Allow;
      }
    }
  }

  // ---- every call is decided -------------------------------------------------------------------

  lemma {:induction false} PieceDecides(env: Env, seen: Seen, p: Piece)
    ensures SeePiece(env, seen, p).history == seen.history + CallsIn(env, p)
  {
    hide Evaluate, EvaluateAll, Calls, ChildText;
    assert seen.history + [] == seen.history;
    if p.JsonPiece? && env.parse(p.raw).Some? {
      var value := env.parse(p.raw).value;
      if value.Arr? {
        BatchForwards(env, seen.history, value.items);
      } else {
        EvaluateForwards(env, seen.history, value);
      }
    }
  }

  lemma {:induction false} PiecesDecide(env: Env, seen: Seen, ps: seq<Piece>)
    ensures SeePieces(env, seen, ps).history == seen.history + ReceivedCalls(env, ps)
    decreases |ps|
  {
    hide SeePiece, CallsIn;
    if ps == [] {
      assert seen.history + [] == seen.history;
    } else {
      PieceDecides(env, seen, ps[0]);
      PiecesDecide(env, SeePiece(env, seen, ps[0]), ps[1..]);
      Assoc(seen.history, CallsIn(env, ps[0]), ReceivedCalls(env, ps[1..]));
    }
  }

  /** Every tool call in a complete fragment of the input that parses is decided, once and in order. */
  lemma {:induction false} EveryCallDecided(env: Env, chunks: seq<Text>)
    ensures RunGate(env, chunks).history == ReceivedCalls(env, Frame(Valid(env), Concat(chunks)).pieces)
  {
    hide WriteAll, Frame, Feed;
    var start := Session([], [], []);
    WriteAllIsFeed(env, start, [], chunks);
    FeedIsFrame(env, chunks);
    var pieces := Frame(Valid(env), Concat(chunks)).pieces;
    PiecesDecide(env, See(env, start), pieces);
    assert [] + ReceivedCalls(env, pieces) == ReceivedCalls(env, pieces);
  }
}
