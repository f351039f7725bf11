/**
 * An independent account of what the bracket scanner accepts: string-aware
 * balanced bracket words, given as parse trees.
 */
module FramingGrammar {
  import opened Wrappers
  import opened JsText
  import opened JsonFraming

  /** A unit outside strings that is no bracket, a string literal, or a bracketed group. */
  datatype Tree = Plain(c: unit) | Quoted(content: Text) | Group(open: unit, body: seq<Tree>)

  /** String contents in the sense of RFC 8259, section 7: a backslash takes the next unit with it. */
  predicate StringBody(t: Text)
    decreases |t|
  {
    t == []
    || (t[0] == BACKSLASH && |t| >= 2 && StringBody(t[2..]))
    || (t[0] != BACKSLASH && t[0] != QUOTE && StringBody(t[1..]))
  }

  predicate Wf(tree: Tree)
  {
    match tree
    case Plain(c) => c != QUOTE && !IsOpener(c) && !IsCloser(c)
    case Quoted(content) => StringBody(content)
    case Group(open, body) => IsOpener(open) && WfAll(body)
  }

  predicate WfAll(trees: seq<Tree>)
  {
    trees == [] || (Wf(trees[0]) && WfAll(trees[1..]))
  }

  function Render(tree: Tree): Text
  {
    match tree
    case Plain(c) => [c]
    case Quoted(content) => [QUOTE] + content + [QUOTE]
    case Group(open, body) => [open] + RenderAll(body) + [CloserOf(open)]
  }

  function RenderAll(trees: seq<Tree>): Text
  {
    if trees == [] then [] else Render(trees[0]) + RenderAll(trees[1..])
  }

  /** A balanced bracket word. */
  ghost predicate IsWord(w: Text) {
    exists g: Tree :: g.Group? && Wf(g) && Render(g) == w
  }

  // ---- every word is scanned to its end -------------------------------------

  function Shift(r: Option<End>, k: nat): Option<End>
  {
    match r
    case None => None
    case Some(e) => Some(End(e.len + k, e.malformed))
  }

  function Outside(stack: Text): Scan { Scan(stack, false, false) }

  function Inside(stack: Text): Scan { Scan(stack, true, false) }

  /** One scanner step that does not stop. */
  lemma {:induction false} ScanOne(s: Scan, c: unit, s': Scan, t: Text)
    requires s.stack != [] && Step(s, c) == Continue(s')
    ensures FindEnd(s, [c] + t) == Shift(FindEnd(s', t), 1)
  {
    assert ([c] + t)[1..] == t;
  }

  lemma {:induction false} ScanString(stack: Text, content: Text, rest: Text)
    requires stack != [] && StringBody(content)
    ensures FindEnd(Inside(stack), content + ([QUOTE] + rest)) == Shift(FindEnd(Outside(stack), rest), |content| + 1)
    decreases |content|
  {
    hide FindEnd;
    var tail := [QUOTE] + rest;
    if content == [] {
      ScanOne(Inside(stack), QUOTE, Outside(stack), rest);
      assert content + tail == tail;
    } else {
      var k := if content[0] == BACKSLASH then 2 else 1;
      ScanString(stack, content[k..], rest);
      ScanStringUnit(stack, content, k, content[k..] + tail);
      Cut(content, k);
      Assoc(content[..k], content[k..], tail);
    }
  }

  lemma {:induction false} ScanStringUnit(stack: Text, content: Text, k: nat, more: Text)
    requires stack != [] && content != [] && StringBody(content)
    requires k == if content[0] == BACKSLASH then 2 else 1
    ensures FindEnd(Inside(stack), content[..k] + more) == Shift(FindEnd(Inside(stack), more), k)
  {
    if content[0] == BACKSLASH {
      assert content[..k] == [BACKSLASH, content[1]];
      ScanEscape(stack, content[1], more);
    } else {
      assert content[..k] == [content[0]];
      ScanOne(Inside(stack), content[0], Inside(stack), more);
    }
  }

  lemma {:induction false} ScanEscape(stack: Text, c: unit, t: Text)
    requires stack != []
    ensures FindEnd(Inside(stack), [BACKSLASH, c] + t) == Shift(FindEnd(Inside(stack), t), 2)
  {
    ScanOne(Scan(stack, true, true), c, Inside(stack), t);
    ScanOne(Inside(stack), BACKSLASH, Scan(stack, true, true), [c] + t);
    assert [BACKSLASH, c] + t == [BACKSLASH] + ([c] + t);
  }

  lemma {:induction false} ScanTree(stack: Text, tree: Tree, rest: Text)
    requires stack != [] && Wf(tree)
    ensures FindEnd(Outside(stack), Render(tree) + rest) == Shift(FindEnd(Outside(stack), rest), |Render(tree)|)
    decreases tree
  {
    match tree
    case Plain(c) =>
      ScanOne(Outside(stack), c, Outside(stack), rest);
    case Quoted(content) =>
      ScanString(stack, content, rest);
      ScanOne(Outside(stack), QUOTE, Inside(stack), content + ([QUOTE] + rest));
      Regroup([QUOTE], content, [QUOTE], rest);
    case Group(open, body) =>
      var close := CloserOf(open);
      var inner := stack + [close];
      ScanAll(inner, body, [close] + rest);
      ScanGroup(stack, open, RenderAll(body), rest);
      Regroup([open], RenderAll(body), [close], rest);
  }

  lemma {:induction false} Regroup(a: Text, b: Text, c: Text, d: Text)
    ensures (a + b + c) + d == a + (b + (c + d))
  {
  }

  lemma {:induction false} ScanGroup(stack: Text, open: unit, inside: Text, rest: Text)
    requires stack != [] && IsOpener(open)
    requires var inner := stack + [CloserOf(open)];
             var more := [CloserOf(open)] + rest;
             FindEnd(Outside(inner), inside + more) == Shift(FindEnd(Outside(inner), more), |inside|)
    ensures FindEnd(Outside(stack), [open] + (inside + ([CloserOf(open)] + rest)))
            == Shift(FindEnd(Outside(stack), rest), |inside| + 2)
  {
    var close := CloserOf(open);
    var inner := stack + [close];
    assert inner[..|inner| - 1] == stack;
    ScanOne(Outside(inner), close, Outside(stack), rest);
    ScanOne(Outside(stack), open, Outside(inner), inside + ([close] + rest));
  }

  lemma {:induction false} ScanAll(stack: Text, trees: seq<Tree>, rest: Text)
    requires stack != [] && WfAll(trees)
    ensures FindEnd(Outside(stack), RenderAll(trees) + rest) == Shift(FindEnd(Outside(stack), rest), |RenderAll(trees)|)
    decreases trees
  {
    hide FindEnd, Render;
    if trees == [] {
      assert RenderAll(trees) + rest == rest;
    } else {
      var first, others := Render(trees[0]), RenderAll(trees[1..]);
      ScanAll(stack, trees[1..], rest);
      ScanTree(stack, trees[0], others + rest);
      Assoc(first, others, rest);
    }
  }

  // ---- every end closes a word ----------------------------------------------

  /** The rest of a word when the brackets in `stack` are still open. */
  function RenderClosing(bodies: seq<seq<Tree>>, stack: Text): Text
    requires |bodies| == |stack|
  {
    if stack == [] then []
    else
      var k := |stack| - 1;
      RenderAll(bodies[k]) + [stack[k]] + RenderClosing(bodies[..k], stack[..k])
  }

  ghost predicate WfBodies(bodies: seq<seq<Tree>>) {
    forall i :: 0 <= i < |bodies| ==> WfAll(bodies[i])
  }

  /** What the scanner read before it stopped: the rest of a string, if in one, and the rest of the word. */
  ghost predicate Explains(s: Scan, read: Text, content: Text, bodies: seq<seq<Tree>>) {
    && |bodies| == |s.stack|
    && WfBodies(bodies)
    && if s.inString then
         && (if s.escaped then content != [] && StringBody(content[1..]) else StringBody(content))
         && read == content + [QUOTE] + RenderClosing(bodies, s.stack)
       else read == RenderClosing(bodies, s.stack)
  }

  lemma {:induction false} PushTree(tree: Tree, bodies: seq<seq<Tree>>, stack: Text) returns (pushed: seq<seq<Tree>>)
    requires |bodies| == |stack| > 0 && WfBodies(bodies) && Wf(tree)
    ensures |pushed| == |bodies| && WfBodies(pushed)
    ensures RenderClosing(pushed, stack) == Render(tree) + RenderClosing(bodies, stack)
  {
    var k := |stack| - 1;
    var body := [tree] + bodies[k];
    assert body[1..] == bodies[k];
    pushed := bodies[..k] + [body];
    assert pushed[..k] == bodies[..k];
    Assoc(Render(tree), RenderAll(bodies[k]), [stack[k]]);
    Assoc(Render(tree), RenderAll(bodies[k]) + [stack[k]], RenderClosing(bodies[..k], stack[..k]));
  }

  lemma {:induction false} Recover(s: Scan, t: Text, n: nat) returns (content: Text, bodies: seq<seq<Tree>>)
    requires s.stack != [] && (s.escaped ==> s.inString)
    requires FindEnd(s, t) == Some(End(n, false))
    ensures Explains(s, t[..n], content, bodies)
    decreases |t|
  {
    var c := t[0];
    assert t[..n] == [c] + t[1..][..n - 1];
    match Step(s, c)
    case Stop(malformed) =>
      content, bodies := [], [[]];
      assert RenderClosing(bodies, s.stack) == [c];
    case Continue(s') =>
      content, bodies := Recover(s', t[1..], n - 1);
      if s.inString {
        content := RecoverInString(s, c, s', t[1..][..n - 1], content, bodies);
      } else {
        bodies := RecoverOutside(s, c, s', t[1..][..n - 1], content, bodies);
      }
  }

  lemma {:induction false} RecoverInString(s: Scan, c: unit, s': Scan, read: Text, content: Text, bodies: seq<seq<Tree>>)
    returns (content': Text)
    requires s.stack != [] && s.inString && Step(s, c) == Continue(s') && Explains(s', read, content, bodies)
    ensures Explains(s, [c] + read, content', bodies)
  {
    if s'.inString {
      content' := [c] + content;
      assert content'[1..] == content;
      if s'.escaped {
        assert content'[2..] == content[1..];
      }
      assert [c] + read == content' + [QUOTE] + RenderClosing(bodies, s.stack);
    } else {
      content' := [];
      assert [c] + read == content' + [QUOTE] + RenderClosing(bodies, s.stack);
    }
  }

  lemma {:induction false} RecoverOutside(s: Scan, c: unit, s': Scan, read: Text, content: Text, bodies: seq<seq<Tree>>)
    returns (bodies': seq<seq<Tree>>)
    requires s.stack != [] && !s.inString && !s.escaped
    requires Step(s, c) == Continue(s') && Explains(s', read, content, bodies)
    ensures Explains(s, [c] + read, [], bodies')
  {
    if c == QUOTE {
      bodies' := PushTree(Quoted(content), bodies, s.stack);
      assert [c] + read == Render(Quoted(content)) + RenderClosing(bodies, s.stack);
    } else if IsOpener(c) {
      bodies' := RecoverGroup(s.stack, c, read, bodies);
    } else if IsCloser(c) {
      bodies' := bodies + [[]];
      assert bodies'[..|bodies|] == bodies;
    } else {
      bodies' := PushTree(Plain(c), bodies, s.stack);
    }
  }

  lemma {:induction false} RecoverGroup(stack: Text, c: unit, read: Text, bodies: seq<seq<Tree>>)
    returns (bodies': seq<seq<Tree>>)
    requires stack != [] && IsOpener(c) && |bodies| == |stack| + 1 && WfBodies(bodies)
    requires read == RenderClosing(bodies, stack + [CloserOf(c)])
    ensures |bodies'| == |stack| && WfBodies(bodies') && [c] + read == RenderClosing(bodies', stack)
  {
    var k := |stack|;
    var group := Group(c, bodies[k]);
    assert (stack + [CloserOf(c)])[..k] == stack;
    bodies' := PushTree(group, bodies[..k], stack);
    assert [c] + read == Render(group) + RenderClosing(bodies[..k], stack);
  }

  // ---- the three outcomes of the scanner --------------------------------------

  /** The non-malformed end is exactly the end of a balanced bracket word. */
  lemma {:induction false} EndIsWord(text: Text, n: nat)
    requires text != [] && IsOpener(text[0])
    ensures FindEnd(Opened(text[0]), text[1..]) == Some(End(n, false)) <==> n + 1 <= |text| && IsWord(text[..n + 1])
  {
    if FindEnd(Opened(text[0]), text[1..]) == Some(End(n, false)) {
      EndGivesWord(text, n);
    }
    if n + 1 <= |text| && IsWord(text[..n + 1]) {
      var g: Tree :| g.Group? && Wf(g) && Render(g) == text[..n + 1];
      WordIsFound(g, text);
    }
  }

  lemma {:induction false} EndGivesWord(text: Text, n: nat)
    requires text != [] && IsOpener(text[0])
    requires FindEnd(Opened(text[0]), text[1..]) == Some(End(n, false))
    ensures n + 1 <= |text| && IsWord(text[..n + 1])
  {
    var open, t := text[0], text[1..];
    var content, bodies := Recover(Opened(open), t, n);
    var g := Group(open, bodies[0]);
    assert RenderClosing(bodies, [CloserOf(open)]) == RenderAll(bodies[0]) + [CloserOf(open)] + [];
    assert text[..n + 1] == [open] + t[..n];
    Assoc([open], RenderAll(bodies[0]), [CloserOf(open)]);
    assert Render(g) == text[..n + 1];
  }

  lemma {:induction false} WordIsFound(g: Tree, text: Text)
    requires g.Group? && Wf(g) && Render(g) <= text
    ensures FindEnd(Opened(g.open), text[1..]) == Some(End(|Render(g)| - 1, false))
  {
    var close := CloserOf(g.open);
    var rest := text[|Render(g)|..];
    ScanAll([close], g.body, [close] + rest);
    assert Step(Outside([close]), ([close] + rest)[0]) == Stop(false);
    assert text[1..] == RenderAll(g.body) + ([close] + rest);
  }

  /** So at most one prefix of a text is a word: the scanner's end is also the shortest and the only one. */
  lemma {:induction false} WordsArePrefixFree(text: Text, m: nat, n: nat)
    requires m <= |text| && n <= |text| && IsWord(text[..m]) && IsWord(text[..n])
    ensures m == n
  {
    var g: Tree :| g.Group? && Wf(g) && Render(g) == text[..m];
    var h: Tree :| h.Group? && Wf(h) && Render(h) == text[..n];
    assert g.open == text[0] == h.open;
    WordIsFound(g, text);
    WordIsFound(h, text);
  }

  /** A malformed end is hopeless: no continuation of what was read starts with a word. */
  lemma {:induction false} MalformedIsHopeless(text: Text, n: nat, more: Text, k: nat)
    requires text != [] && IsOpener(text[0])
    requires FindEnd(Opened(text[0]), text[1..]) == Some(End(n, true))
    requires k <= |text + more|
    ensures !IsWord((text + more)[..k])
  {
    var whole := text + more;
    assert whole[1..] == text[1..] + more;
    FindEndExtends(Opened(text[0]), text[1..], more);
    forall g: Tree | g.Group? && Wf(g)
      ensures Render(g) != whole[..k]
    {
      if Render(g) == whole[..k] {
        assert g.open == whole[0] == text[0];
        WordIsFound(g, whole);
      }
    }
  }

  /** No end means the text can still be completed to a word. */
  lemma {:induction false} OpenCanBeClosed(text: Text) returns (more: Text)
    requires text != [] && IsOpener(text[0])
    requires FindEnd(Opened(text[0]), text[1..]) == None
    ensures IsWord(text + more)
  {
    more := Complete(Opened(text[0]), text[1..]);
    var whole := text + more;
    assert whole[1..] == text[1..] + more;
    EndIsWord(whole, |whole| - 1);
    assert whole[..|whole|] == whole;
  }

  lemma {:induction false} Complete(s: Scan, t: Text) returns (more: Text)
    requires s.stack != [] && FindEnd(s, t) == None
    requires forall i :: 0 <= i < |s.stack| ==> IsCloser(s.stack[i])
    ensures FindEnd(s, t + more) == Some(End(|t + more|, false))
    decreases |t|
  {
    if t != [] {
      var s' := Step(s, t[0]).scan;
      more := Complete(s', t[1..]);
      ScanOne(s, t[0], s', t[1..] + more);
      assert t + more == [t[0]] + (t[1..] + more);
    } else {
      more := Closing(s);
      assert t + more == more;
    }
  }

  /** The text that closes everything still open in `s`. */
  lemma {:induction false} Closing(s: Scan) returns (more: Text)
    requires s.stack != []
    requires forall i :: 0 <= i < |s.stack| ==> IsCloser(s.stack[i])
    ensures FindEnd(s, more) == Some(End(|more|, false))
    decreases |s.stack|, s.inString, s.escaped
  {
    var c := if s.inString then QUOTE else s.stack[|s.stack| - 1];
    if !s.inString && |s.stack| == 1 {
      more := [c];
    } else {
      var s' := Step(s, c).scan;
      var rest := Closing(s');
      ScanOne(s, c, s', rest);
      more := [c] + rest;
    }
  }
}
