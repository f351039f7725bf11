/** A call that the gate changes: a number in a batch that `JSON.parse` reads and `JSON.stringify` does not print. */
module BatchNumbers {
  import opened Wrappers
  import opened JsText
  import opened JsonText
  import opened JsonFraming
  import opened StreamGates
  import opened GateDecisions
  import opened Reprinting
  import opened ChildFraming
  import FramingRoundTrip

  /** The tool call `pay` with an amount; number `one` is the id 1. */
  function Payment(one: int, amount: Value): Value
  {
    Obj([Member(Literal("jsonrpc"), Str(Literal("2.0"))), Member(Literal("id"), Num(one)),
         Member(Literal("method"), Str(Literal("tools/call"))),
         Member(Literal("params"), Obj(Params(amount)))])
  }

  function Params(amount: Value): seq<Keyed<Value>>
  {
    [Member(Literal("name"), Str(Literal("pay"))), Member(Literal("arguments"), Order(amount))]
  }

  function Order(amount: Value): Value { Obj([Member(Literal("amount"), amount)]) }

  /** How a client types the numbers: 1 for `one`, -1e400 for any other. */
  function Typed(one: int): Numerals
  {
    Numerals(n => if n == one then Literal("1") else Literal("-1e400"), _ => Some(0))
  }

  lemma {:induction false} TypedIsLegible(one: int)
    ensures Legible(Typed(one))
  {
    var num := Typed(one);
    assert forall i :: 0 <= i < 6 ==> IsNumeric(Literal("-1e400")[i]);
    assert |Literal("-1e400")| == 6 && |Literal("1")| == 1 && IsNumeric(Literal("1")[0]);
    forall n
      ensures num.show(n) != [] && (forall i :: 0 <= i < |num.show(n)| ==> IsNumeric(num.show(n)[i]))
      ensures num.parse(num.show(n)).Some?
    {
      assert num.show(n) == if n == one then Literal("1") else Literal("-1e400");
    }
  }

  /** What one whole fragment as the only chunk does. */
  lemma {:induction false} OneFragment(env: Env, text: Text)
    requires Extract(Valid(env), text) == Extracted([Json(text)], [])
    ensures RunGate(env, [text]) == HandleFragment(env, Session([], [], []), Json(text))
  {
    hide Extract, HandleFragment;
    var start := Session([], [], []);
    assert [] + text == text && [text][1..] == [] && [Json(text)][1..] == [];
    assert HandleAll(env, start, [Json(text)]) == HandleFragment(env, start, Json(text));
    assert WriteAll(env, start, [], [text]) == (HandleFragment(env, start, Json(text)), []);
  }

  lemma {:induction false} PaymentIsCall(one: int, amount: Value)
    ensures Payment(one, amount).Obj? && IsToolCall(Payment(one, amount))
    ensures Calls([Payment(one, amount)]) == [Payment(one, amount)]
  {
    hide Calls, Order;
    var ms := Payment(one, amount).members;
    assert Literal("jsonrpc")[0] != Literal("method")[0] && Literal("id")[0] != Literal("method")[0];
    assert ms[1..][0] == ms[1] && ms[1..][1..] == ms[2..] && ms[2..][0] == ms[2];
    assert Lookup(ms[2..], Literal("method")) == Some(Str(Literal("tools/call")));
    assert Lookup(ms[1..], Literal("method")) == Lookup(ms[2..], Literal("method"));
    CallsOne(Payment(one, amount));
  }

  lemma {:induction false} OrderBack(num: Numerals, minus: int)
    requires num.show(minus) == NULL_TEXT
    ensures Back(num, Order(Num(minus))) == Order(Null)
  {
    var v := Order(Num(minus));
    assert MembersBack(num, v.members)[0] == Member(v.members[0].key, Back(num, Num(minus)));
    assert MembersBack(num, v.members) == Order(Null).members;
  }

  lemma {:induction false} ParamsBack(num: Numerals, amount: Value, back: Value)
    requires Back(num, Order(amount)) == Order(back)
    ensures MembersBack(num, Params(amount)) == Params(back)
  {
    hide Order, Literal;
  }

  lemma {:induction false} PaymentBack(num: Numerals, one: int, minus: int)
    requires num.show(one) == Literal("1") && num.parse(Literal("1")) == Some(one) && num.show(minus) == NULL_TEXT
    ensures Back(num, Payment(one, Num(minus))) == Payment(one, Null) != Payment(one, Num(minus))
  {
    hide Order, Params, Literal;
    assert |Literal("1")| != |NULL_TEXT| by { LiteralLength(); }
    OrderBack(num, minus);
    ParamsBack(num, Num(minus), Null);
    var v, w := Payment(one, Num(minus)), Payment(one, Null);
    assert Back(num, v.members[1].value) == Num(one);
    assert Back(num, v.members[3].value) == w.members[3].value;
    assert MembersBack(num, v.members) == w.members;
    ParamsDiffer(minus);
  }

  lemma {:induction false} LiteralLength()
    ensures |Literal("1")| == 1
  {
  }

  lemma {:induction false} ParamsDiffer(minus: int)
    ensures Params(Num(minus)) != Params(Null)
  {
    assert Params(Num(minus))[1].value.members[0].value != Params(Null)[1].value.members[0].value;
  }

  /** One allowed call in an array: it is decided as it was parsed and written as a batch. */
  lemma {:induction false} BatchOfOne(env: Env, text: Text, v: Value)
    requires Extract(Valid(env), text) == Extracted([Json(text)], [])
    requires env.parse(text) == Some(Arr([v])) && IsToolCall(v) && env.decide([], v) == Allow
    ensures RunGate(env, [text]) == Session([v], [BatchWrite([v])], [])
  {
    hide IsToolCall, IsRouteProbe, Extract, RunGate;
    OneFragment(env, text);
    ProbeIsNoCall(v);
    assert [v][1..] == [] && [] + [v] == [v];
    assert Evaluate(env, [], v) == Evaluation(true, None, [v]);
    assert EvaluateAll(env, [v], []) == BatchEvaluation([], [], [v]);
    assert EvaluateAll(env, [], [v]) == BatchEvaluation([v], [], [v]);
  }

  /** The same call alone is decided alike and goes out as it came. */
  lemma {:induction false} CallAlone(env: Env, text: Text, v: Value)
    requires Extract(Valid(env), text) == Extracted([Json(text)], [])
    requires env.parse(text) == Some(v) && v.Obj? && IsToolCall(v) && env.decide([], v) == Allow
    ensures RunGate(env, [text]) == Session([v], [JsonWrite(text)], [])
  {
    hide IsToolCall, IsRouteProbe, Extract, RunGate;
    OneFragment(env, text);
    ProbeIsNoCall(v);
    assert [] + [v] == [v];
    assert Evaluate(env, [], v) == Evaluation(true, None, [v]);
  }

  /**
   * A payment of -1e400, allowed as such, in an array of one and alone. From the array the child gets
   * a payment of null, which nobody decided; alone it gets the payment that was allowed.
   */
  lemma {:induction false} BatchedNumberIsLost(env: Env, one: int, minus: int) returns (batch: Text, alone: Text)
    requires Legible(env.num) && Reparses(env)
    requires env.num.show(one) == Literal("1") && env.num.parse(Literal("1")) == Some(one)
    requires env.num.show(minus) == NULL_TEXT
    requires env.parse(Print(Typed(one), Arr([Payment(one, Num(minus))]))) == Some(Arr([Payment(one, Num(minus))]))
    requires env.parse(Print(Typed(one), Payment(one, Num(minus)))) == Some(Payment(one, Num(minus)))
    requires env.decide([], Payment(one, Num(minus))) == Allow
    ensures batch == Print(Typed(one), Arr([Payment(one, Num(minus))]))
    ensures AllowedCalls(env, RunGate(env, [batch]).history) == [Payment(one, Num(minus))]
    ensures ChildCalls(env, RunGate(env, [batch]).child) == [Payment(one, Null)] != [Payment(one, Num(minus))]
    ensures alone == Print(Typed(one), Payment(one, Num(minus)))
    ensures ChildCalls(env, RunGate(env, [alone]).child) == [Payment(one, Num(minus))]
  {
    hide Payment, Print, Legible, Reparses, Extract, ChildCalls, RunGate, Typed, Calls, Back, IsToolCall, Literal;
    var v := Payment(one, Num(minus));
    batch, alone := Print(Typed(one), Arr([v])), Print(Typed(one), v);
    TypedIsLegible(one);
    PaymentIsCall(one, Num(minus));
    PaymentBack(env.num, one, minus);
    FramingRoundTrip.ExtractPrinted(Typed(one), Valid(env), Arr([v]));
    FramingRoundTrip.ExtractPrinted(Typed(one), Valid(env), v);
    BatchOfOne(env, batch, v);
    CallAlone(env, alone, v);
    ChildReadsCalls(env, [batch]);
    ChildReadsCalls(env, [alone]);
    OneWrite(env, BatchWrite([v]));
    OneWrite(env, JsonWrite(alone));
    OneAllowed(env, v);
    assert AllBack(env.num, [v]) == [Back(env.num, v)];
  }

  lemma {:induction false} OneWrite(env: Env, w: Write)
    ensures AllCallsRead(env, [w]) == CallsRead(env, w)
  {
    hide CallsRead;
    assert [w][1..] == [] && CallsRead(env, w) + [] == CallsRead(env, w);
  }

  lemma {:induction false} OneAllowed(env: Env, v: Value)
    requires env.decide([], v) == Allow
    ensures AllowedCalls(env, [v]) == [v]
  {
    AllowedPush(env, [], v);
    assert [] + [v] == [v];
  }
}
