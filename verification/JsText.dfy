/** JavaScript strings: sequences of UTF-16 code units, lone surrogates included. */
module JsText {

  newtype unit = x: int | 0 <= x < 0x1_0000

  type Text = seq<unit>

  const QUOTE: unit := 0x22
  const BACKSLASH: unit := 0x5C
  const OPEN_BRACE: unit := 0x7B
  const CLOSE_BRACE: unit := 0x7D
  const OPEN_BRACKET: unit := 0x5B
  const CLOSE_BRACKET: unit := 0x5D
  const LINE_FEED: unit := 0x0A
  const CARRIAGE_RETURN: unit := 0x0D
  const COMMA: unit := 0x2C
  const COLON: unit := 0x3A

  predicate IsOpener(c: unit) { c == OPEN_BRACE || c == OPEN_BRACKET }

  predicate IsCloser(c: unit) { c == CLOSE_BRACE || c == CLOSE_BRACKET }

  predicate IsNewline(c: unit) { c == LINE_FEED || c == CARRIAGE_RETURN }

  /** Closing bracket that `findJsonEnd` expects for an opening one. */
  function CloserOf(c: unit): unit
  {
    if c == OPEN_BRACE then CLOSE_BRACE else CLOSE_BRACKET
  }

  /** White space removed by `String.prototype.trim`. */
  predicate IsWhitespace(c: unit)
  {
    0x09 <= c <= 0x0D || c == 0x20 || c == 0xA0 || c == 0x1680 || 0x2000 <= c <= 0x200A
    || c == 0x2028 || c == 0x2029 || c == 0x202F || c == 0x205F || c == 0x3000 || c == 0xFEFF
  }

  function TrimStart(t: Text): Text
  {
    if t != [] && IsWhitespace(t[0]) then TrimStart(t[1..]) else t
  }

  /** A literal of the source as a JavaScript string. */
  function Literal(s: string): Text
  {
    seq(|s|, i requires 0 <= i < |s| => (s[i] as int % 0x1_0000) as unit)
  }

  ghost predicate BracketFree(t: Text) {
    forall i :: 0 <= i < |t| ==> !IsOpener(t[i])
  }

  lemma {:induction false} Assoc<T>(a: seq<T>, b: seq<T>, c: seq<T>)
    ensures (a + b) + c == a + (b + c)
  {
  }

  lemma {:induction false} Cut<T>(t: seq<T>, k: nat)
    requires k <= |t|
    ensures t == t[..k] + t[k..]
  {
  }

  lemma {:induction false} CutAppend<T>(t: seq<T>, k: nat, u: seq<T>)
    requires k <= |t|
    ensures (t + u)[..k] == t[..k] && (t + u)[k..] == t[k..] + u
  {
  }

  function Concat(parts: seq<Text>): Text
  {
    if parts == [] then [] else parts[0] + Concat(parts[1..])
  }
}
