/** Framing undoes printing: printed objects and arrays come back one fragment each. */
module FramingRoundTrip {
  import opened Wrappers
  import opened JsText
  import opened JsonText
  import opened JsonFraming
  import opened FramingGrammar

  // ---- a printed object or array is a bracket word -----------------------------

  lemma {:induction false} StringBodyAppend(a: Text, b: Text)
    requires StringBody(a) && StringBody(b)
    ensures StringBody(a + b)
    decreases |a|
  {
    if a == [] {
      assert a + b == b;
    } else {
      var k := if a[0] == BACKSLASH then 2 else 1;
      StringBodyAppend(a[k..], b);
      assert (a + b)[k..] == a[k..] + b;
    }
  }

  lemma {:induction false} PlainStringBody(t: Text)
    requires forall i :: 0 <= i < |t| ==> t[i] != QUOTE && t[i] != BACKSLASH
    ensures StringBody(t)
  {
    if t != [] {
      PlainStringBody(t[1..]);
    }
  }

  lemma {:induction false} EscapedUnitIsBody(c: unit)
    ensures StringBody(EscapeUnit(c))
  {
    var e := EscapeUnit(c);
    if |e| == 2 {
      assert StringBody(e[2..]);
    } else if |e| == 6 {
      assert e[2..] == Hex4(c);
      PlainStringBody(Hex4(c));
    } else {
      PlainStringBody(e);
    }
  }

  lemma {:induction false} EscapedIsBody(s: Text)
    ensures StringBody(Escape(s))
    decreases |s|
  {
    if s == [] {
    } else if |s| >= 2 && IsHighSurrogate(s[0]) && IsLowSurrogate(s[1]) {
      EscapedIsBody(s[2..]);
      PlainStringBody(s[..2]);
      StringBodyAppend(s[..2], Escape(s[2..]));
    } else {
      EscapedIsBody(s[1..]);
      EscapedUnitIsBody(s[0]);
      StringBodyAppend(EscapeUnit(s[0]), Escape(s[1..]));
    }
  }

  lemma {:induction false} WfAllAppend(a: seq<Tree>, b: seq<Tree>)
    requires WfAll(a) && WfAll(b)
    ensures WfAll(a + b) && RenderAll(a + b) == RenderAll(a) + RenderAll(b)
  {
    if a == [] {
      assert a + b == b;
    } else {
      WfAllAppend(a[1..], b);
      assert (a + b)[1..] == a[1..] + b;
    }
  }

  lemma {:induction false} PlainTrees(t: Text) returns (trees: seq<Tree>)
    requires forall i :: 0 <= i < |t| ==> Wf(Plain(t[i]))
    ensures WfAll(trees) && RenderAll(trees) == t
  {
    trees := [];
    if t != [] {
      var rest := PlainTrees(t[1..]);
      trees := [Plain(t[0])] + rest;
      assert trees[1..] == rest;
    }
  }

  lemma {:induction false} OneTree(tree: Tree) returns (trees: seq<Tree>)
    requires Wf(tree)
    ensures trees == [tree] && WfAll(trees) && RenderAll(trees) == Render(tree)
  {
    trees := [tree];
    assert trees[1..] == [];
    assert Render(tree) + [] == Render(tree);
  }

  lemma {:induction false} StringTrees(s: Text) returns (trees: seq<Tree>)
    ensures WfAll(trees) && RenderAll(trees) == PrintString(s)
  {
    EscapedIsBody(s);
    trees := OneTree(Quoted(Escape(s)));
  }

  lemma {:induction false} JoinTrees(a: seq<Tree>, separator: unit, b: seq<Tree>) returns (trees: seq<Tree>)
    requires WfAll(a) && WfAll(b) && Wf(Plain(separator))
    ensures WfAll(trees) && RenderAll(trees) == RenderAll(a) + ([separator] + RenderAll(b))
  {
    var middle := OneTree(Plain(separator));
    WfAllAppend(middle, b);
    WfAllAppend(a, middle + b);
    trees := a + (middle + b);
  }

  predicate IsContainer(v: Value) { v.Obj? || v.Arr? }

  /** Every printed value parses as trees of the framing grammar; a container is a single group. */
  lemma {:induction false} PrintedTrees(num: Numerals, v: Value) returns (trees: seq<Tree>)
    requires Legible(num)
    ensures WfAll(trees) && RenderAll(trees) == Print(num, v)
    ensures IsContainer(v) ==> |trees| == 1 && trees[0].Group?
    decreases v, 0
  {
    match v
    case Null => trees := PlainTrees(NULL_TEXT);
    case Bool(b) => trees := PlainTrees(if b then TRUE_TEXT else FALSE_TEXT);
    case Num(n) => trees := PlainTrees(num.show(n));
    case Str(s) => trees := StringTrees(s);
    case Arr(items) =>
      var body := ItemTrees(num, items);
      trees := OneTree(Group(OPEN_BRACKET, body));
    case Obj(members) =>
      var body := MemberTrees(num, members);
      trees := OneTree(Group(OPEN_BRACE, body));
  }

  lemma {:induction false} ItemTrees(num: Numerals, items: seq<Value>) returns (trees: seq<Tree>)
    requires Legible(num)
    ensures WfAll(trees) && RenderAll(trees) == PrintItems(num, items)
    decreases items, 1
  {
    trees := [];
    if items != [] {
      trees := PrintedTrees(num, items[0]);
      if |items| > 1 {
        var rest := ItemTrees(num, items[1..]);
        trees := JoinTrees(trees, COMMA, rest);
      }
    }
  }

  lemma {:induction false} MemberTrees(num: Numerals, members: seq<Keyed<Value>>) returns (trees: seq<Tree>)
    requires Legible(num)
    ensures WfAll(trees) && RenderAll(trees) == PrintMembers(num, members)
    decreases members, 1
  {
    trees := [];
    if members != [] {
      var key := StringTrees(members[0].key);
      var value := PrintedTrees(num, members[0].value);
      trees := JoinTrees(key, COLON, value);
      if |members| > 1 {
        var rest := MemberTrees(num, members[1..]);
        trees := JoinTrees(trees, COMMA, rest);
      }
    }
  }

  // ---- streams of printed values ------------------------------------------------

  /** Printed values with a gap of other text before each of them and after the last. */
  function Stream(num: Numerals, gaps: seq<Text>, values: seq<Value>): Text
    requires |gaps| == |values| + 1
    decreases |values|
  {
    if values == [] then gaps[0]
    else gaps[0] + (Print(num, values[0]) + Stream(num, gaps[1..], values[1..]))
  }

  /** The pieces and buffer the framer owes for such a stream: one piece a value, gaps as noise. */
  function StreamFrame(num: Numerals, gaps: seq<Text>, values: seq<Value>): Framed
    requires |gaps| == |values| + 1
    decreases |values|
  {
    if values == [] then
      var k := LastNewline(gaps[0]) + 1;
      Framed(NoiseUnits(gaps[0][..k]), gaps[0][k..])
    else
      var rest := StreamFrame(num, gaps[1..], values[1..]);
      Framed(NoiseUnits(gaps[0]) + ([JsonPiece(Print(num, values[0]))] + rest.pieces), rest.remaining)
  }

  lemma {:induction false} PrintedEnd(num: Numerals, v: Value, rest: Text)
    requires Legible(num) && IsContainer(v)
    ensures var t := Print(num, v) + rest;
            IsOpener(t[0]) && FindEnd(Opened(t[0]), t[1..]) == Some(End(|Print(num, v)| - 1, false))
  {
    var trees := PrintedTrees(num, v);
    var g := trees[0];
    assert trees == [g];
    var same := OneTree(g);
    WordIsFound(g, Print(num, v) + rest);
  }

  /** A printed container is the whole input of one JSON fragment. */
  lemma {:induction false} ExtractPrinted(num: Numerals, valid: Text -> bool, v: Value)
    requires Legible(num) && IsContainer(v) && valid(Print(num, v))
    ensures Extract(valid, Print(num, v)) == Extracted([Json(Print(num, v))], [])
  {
    hide Print, FindEnd;
    var t := Print(num, v);
    PrintedEnd(num, v, []);
    assert t + [] == t && t[..|t|] == t && t[|t|..] == [];
    ExtractOpened(valid, t);
  }

  /** Nothing merged, split or left over: every printed container is exactly one fragment. */
  lemma {:induction false} FramingUndoesPrinting(
      num: Numerals, valid: Text -> bool, gaps: seq<Text>, values: seq<Value>)
    requires Legible(num) && |gaps| == |values| + 1
    requires forall g :: g in gaps ==> BracketFree(g)
    requires forall v :: v in values ==> IsContainer(v) && valid(Print(num, v))
    ensures Frame(valid, Stream(num, gaps, values)) == StreamFrame(num, gaps, values)
    decreases |values|
  {
    assert BracketFree(gaps[0]);
    if values == [] {
      FrameOfNoise(valid, gaps[0]);
    } else {
      var v, printed := values[0], Print(num, values[0]);
      var rest := Stream(num, gaps[1..], values[1..]);
      FramingUndoesPrinting(num, valid, gaps[1..], values[1..]);
      PrintedEnd(num, v, rest);
      FrameAfterNoise(valid, gaps[0], printed + rest);
      FrameAtOpener(valid, printed + rest);
      assert (printed + rest)[..|printed|] == printed && (printed + rest)[|printed|..] == rest;
    }
  }
}
