/** What is read back after printing: which values `JSON.parse` gives for `JSON.stringify` of a value. */
module Reprinting {
  import opened Wrappers
  import opened JsText
  import opened JsonText
  import opened StreamGates

  // ---- values read back ----------------------------------------------------------

  /** What the text of a number reads as: `null` reads as null, a numeral as its number. */
  function NumberBack(num: Numerals, n: int): Value
  {
    if num.show(n) == NULL_TEXT then Null
    else match num.parse(num.show(n))
      case Some(m) => Num(m)
      case None => Null
  }

  /** A value printed and read again: every number in it as its text reads, all else unchanged. */
  function Back(num: Numerals, v: Value): Value
    decreases v, 0
  {
    match v
    case Num(n) => NumberBack(num, n)
    case Arr(items) => Arr(AllBack(num, items))
    case Obj(members) => Obj(MembersBack(num, members))
    case _ => v
  }

  function AllBack(num: Numerals, vs: seq<Value>): (r: seq<Value>)
    ensures |r| == |vs|
    decreases vs, 1
  {
    seq(|vs|, i requires 0 <= i < |vs| => Back(num, vs[i]))
  }

  function MembersBack(num: Numerals, members: seq<Keyed<Value>>): (r: seq<Keyed<Value>>)
    ensures |r| == |members|
    decreases members, 1
  {
    seq(|members|, i requires 0 <= i < |members| => Member(members[i].key, Back(num, members[i].value)))
  }

  // ---- values that come back -----------------------------------------------------

  /** Neither an infinity, which is printed as `null`, nor -0, which is printed as 0. */
  predicate NumberReadsBack(num: Numerals, n: int)
  {
    num.show(n) != NULL_TEXT && num.parse(num.show(n)) == Some(n)
  }

  /** Every number in the value comes back as itself. */
  predicate ReadsBack(num: Numerals, v: Value)
    decreases v
  {
    match v
    case Num(n) => NumberReadsBack(num, n)
    case Arr(items) => forall i :: 0 <= i < |items| ==> ReadsBack(num, items[i])
    case Obj(members) => forall i :: 0 <= i < |members| ==> ReadsBack(num, members[i].value)
    case _ => true
  }

  ghost predicate AllReadBack(num: Numerals, vs: seq<Value>) { forall v :: v in vs ==> ReadsBack(num, v) }

  /** Printing and reading gives a value back exactly when every number in it comes back. */
  lemma {:induction false} BackIff(num: Numerals, v: Value)
    ensures Back(num, v) == v <==> ReadsBack(num, v)
    decreases v
  {
    match v
    case Arr(items) =>
      forall i | 0 <= i < |items| ensures Back(num, items[i]) == items[i] <==> ReadsBack(num, items[i]) {
        BackIff(num, items[i]);
      }
      assert AllBack(num, items) == items <==> forall i :: 0 <= i < |items| ==> AllBack(num, items)[i] == items[i];
    case Obj(members) =>
      var back := MembersBack(num, members);
      forall i | 0 <= i < |members| ensures back[i] == members[i] <==> ReadsBack(num, members[i].value) {
        BackIff(num, members[i].value);
      }
      assert back == members <==> forall i :: 0 <= i < |members| ==> back[i] == members[i];
    case _ =>
  }

  lemma {:induction false} AllBackIff(num: Numerals, vs: seq<Value>)
    ensures AllBack(num, vs) == vs <==> AllReadBack(num, vs)
  {
    forall i | 0 <= i < |vs| ensures AllBack(num, vs)[i] == vs[i] <==> ReadsBack(num, vs[i]) {
      BackIff(num, vs[i]);
    }
    assert AllBack(num, vs) == vs <==> forall i :: 0 <= i < |vs| ==> AllBack(num, vs)[i] == vs[i];
  }

  // ---- tool calls stay tool calls ------------------------------------------------

  lemma {:induction false} LookupBack(num: Numerals, members: seq<Keyed<Value>>, key: Text)
    ensures var found := Lookup(members, key);
            Lookup(MembersBack(num, members), key)
            == if found.Some? then Some(Back(num, found.value)) else None
  {
    if members != [] {
      assert MembersBack(num, members)[1..] == MembersBack(num, members[1..]);
      LookupBack(num, members[1..], key);
    }
  }

  lemma {:induction false} FieldBack(num: Numerals, v: Value, name: string, s: Text)
    ensures Field(Back(num, v), name) == Some(Str(s)) <==> Field(v, name) == Some(Str(s))
  {
    hide Literal;
    if v.Obj? {
      LookupBack(num, v.members, Literal(name));
    }
  }

  lemma {:induction false} CallBack(num: Numerals, v: Value)
    ensures IsToolCall(Back(num, v)) <==> IsToolCall(v)
  {
    hide Field, Literal;
    FieldBack(num, v, "jsonrpc", Literal("2.0"));
    FieldBack(num, v, "method", Literal("tools/call"));
  }

  /** The tool calls among values read back are the tool calls read back, in the same places. */
  lemma {:induction false} CallsBack(num: Numerals, vs: seq<Value>)
    ensures Calls(AllBack(num, vs)) == AllBack(num, Calls(vs))
    decreases |vs|
  {
    hide IsToolCall;
    if vs != [] {
      var before, last := vs[..|vs| - 1], vs[|vs| - 1];
      CallsBack(num, before);
      CallBack(num, last);
      assert AllBack(num, vs) == AllBack(num, before) + [Back(num, last)];
      CallsPush(AllBack(num, before), Back(num, last));
      assert AllBack(num, Calls(before) + [last]) == AllBack(num, Calls(before)) + [Back(num, last)];
    }
  }
}
