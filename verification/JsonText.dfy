/**
 * JSON values, the compact text `JSON.stringify` gives them (RFC 8259), and a
 * reader for such texts. Reading undoes printing.
 */
module JsonText {
  import opened Wrappers
  import opened JsText

  /**
   * A value `JSON.parse` gives. `Num(n)` is the n-th number, in a numbering that may hold -0 and the
   * infinities, which a numeral like -1e400 gives; object members keep their order.
   */
  datatype Value =
    | Null
    | Bool(b: bool)
    | Num(n: int)
    | Str(s: Text)
    | Arr(items: seq<Value>)
    | Obj(members: seq<Keyed<Value>>)

  datatype Keyed<+T> = Member(key: Text, value: T)

  // ---- numbers ---------------------------------------------------------------

  /** How numbers are written and read back. */
  datatype Numerals = Numerals(show: int -> Text, parse: Text -> Option<int>)

  /** Units of a JSON number: digits, signs, point and exponent (RFC 8259, section 6). */
  predicate IsNumeric(c: unit)
  {
    0x30 <= c <= 0x39 || c == 0x2B || c == 0x2D || c == 0x2E || c == 0x45 || c == 0x65
  }

  /** Every number is printed as a numeral that reads back as that number. */
  ghost predicate Faithful(num: Numerals) {
    forall n ::
      && num.show(n) != []
      && (forall i :: 0 <= i < |num.show(n)| ==> IsNumeric(num.show(n)[i]))
      && num.parse(num.show(n)) == Some(n)
  }

  /** `JSON.stringify` on any number: a numeral, perhaps of another number, or `null` where there is none. */
  ghost predicate Legible(num: Numerals) {
    forall n ::
      || num.show(n) == NULL_TEXT
      || (&& num.show(n) != []
          && (forall i :: 0 <= i < |num.show(n)| ==> IsNumeric(num.show(n)[i]))
          && num.parse(num.show(n)).Some?)
  }

  function NumericPrefix(t: Text): (k: nat)
    ensures k <= |t|
  {
    if t == [] || !IsNumeric(t[0]) then 0 else 1 + NumericPrefix(t[1..])
  }

  predicate Delimited(t: Text)
  {
    t == [] || !IsNumeric(t[0])
  }

  // ---- strings ---------------------------------------------------------------

  predicate IsHighSurrogate(c: unit) { 0xD800 <= c <= 0xDBFF }

  predicate IsLowSurrogate(c: unit) { 0xDC00 <= c <= 0xDFFF }

  const LETTER_U: unit := 0x75

  function HexDigit(d: unit): unit
    requires d < 16
  {
    if d < 10 then 0x30 + d else 0x61 + (d - 10)
  }

  function Hex4(c: unit): Text
  {
    [HexDigit(c / 0x1000), HexDigit(c / 0x100 % 16), HexDigit(c / 16 % 16), HexDigit(c % 16)]
  }

  /** The letter after the backslash in a two-unit escape. */
  function ShortEscape(c: unit): Option<unit>
  {
    if c == QUOTE || c == BACKSLASH then Some(c)
    else if c == 0x08 then Some(0x62)
    else if c == 0x09 then Some(0x74)
    else if c == 0x0A then Some(0x6E)
    else if c == 0x0C then Some(0x66)
    else if c == 0x0D then Some(0x72)
    else None
  }

  function EscapeUnit(c: unit): Text
  {
    match ShortEscape(c)
    case Some(letter) => [BACKSLASH, letter]
    case None =>
      if c < 0x20 || IsHighSurrogate(c) || IsLowSurrogate(c) then [BACKSLASH, LETTER_U] + Hex4(c) else [c]
  }

  /** String contents as `JSON.stringify` writes them: surrogate pairs stay, lone surrogates are escaped. */
  function Escape(s: Text): Text
  {
    if s == [] then []
    else if |s| >= 2 && IsHighSurrogate(s[0]) && IsLowSurrogate(s[1]) then s[..2] + Escape(s[2..])
    else EscapeUnit(s[0]) + Escape(s[1..])
  }

  function PrintString(s: Text): Text
  {
    [QUOTE] + Escape(s) + [QUOTE]
  }

  /** What was read, and the text after it. */
  datatype Read<+T> = Read(value: T, rest: Text)

  function UnhexDigit(c: unit): (r: Option<unit>)
    ensures r.Some? ==> r.value < 16
  {
    if 0x30 <= c <= 0x39 then Some(c - 0x30)
    else if 0x61 <= c <= 0x66 then Some(c - 0x61 + 10)
    else None
  }

  function ReadHex4(t: Text): (r: Option<Read<unit>>)
    ensures r.Some? ==> |r.value.rest| < |t|
  {
    if |t| < 4 then None
    else match (UnhexDigit(t[0]), UnhexDigit(t[1]), UnhexDigit(t[2]), UnhexDigit(t[3]))
      case (Some(a), Some(b), Some(c), Some(d)) => Some(Read(a * 0x1000 + b * 0x100 + c * 16 + d, t[4..]))
      case _ => None
  }

  function Unescape(letter: unit): Option<unit>
  {
    if letter == QUOTE || letter == BACKSLASH || letter == 0x2F then Some(letter)
    else if letter == 0x62 then Some(0x08)
    else if letter == 0x74 then Some(0x09)
    else if letter == 0x6E then Some(0x0A)
    else if letter == 0x66 then Some(0x0C)
    else if letter == 0x72 then Some(0x0D)
    else None
  }

  /** One unit of string contents, escaped or plain (RFC 8259, section 7). */
  function ReadUnit(t: Text): (r: Option<Read<unit>>)
    ensures r.Some? ==> |r.value.rest| < |t|
  {
    if t == [] || t[0] == QUOTE || t[0] < 0x20 then None
    else if t[0] != BACKSLASH then Some(Read(t[0], t[1..]))
    else if |t| < 2 then None
    else if t[1] == LETTER_U then ReadHex4(t[2..])
    else match Unescape(t[1])
      case None => None
      case Some(c) => Some(Read(c, t[2..]))
  }

  /** String contents up to and including the closing quote. */
  function ReadContents(t: Text): (r: Option<Read<Text>>)
    ensures r.Some? ==> |r.value.rest| < |t|
    decreases |t|
  {
    if t != [] && t[0] == QUOTE then Some(Read([], t[1..]))
    else match ReadUnit(t)
      case None => None
      case Some(first) =>
        match ReadContents(first.rest)
        case None => None
        case Some(more) => Some(Read([first.value] + more.value, more.rest))
  }

  function ReadString(t: Text): (r: Option<Read<Text>>)
    ensures r.Some? ==> |r.value.rest| < |t|
  {
    if t == [] || t[0] != QUOTE then None else ReadContents(t[1..])
  }

  lemma {:induction false} ReadEscapedUnit(c: unit, rest: Text)
    ensures ReadUnit(EscapeUnit(c) + rest) == Some(Read(c, rest))
  {
    if c == QUOTE || ShortEscape(c).Some? {
      assert (EscapeUnit(c) + rest)[2..] == rest;
    } else if c < 0x20 || IsHighSurrogate(c) || IsLowSurrogate(c) {
      assert (EscapeUnit(c) + rest)[2..] == Hex4(c) + rest;
      ReadHex4OfHex4(c, rest);
    } else {
      assert (EscapeUnit(c) + rest)[1..] == rest;
    }
  }

  lemma {:induction false} ReadHex4OfHex4(c: unit, rest: Text)
    ensures ReadHex4(Hex4(c) + rest) == Some(Read(c, rest))
  {
    var t := Hex4(c) + rest;
    assert t[4..] == rest;
    UnhexOfHex(c / 0x1000);
    UnhexOfHex(c / 0x100 % 16);
    UnhexOfHex(c / 16 % 16);
    UnhexOfHex(c % 16);
    Digits(c);
    AssembledHex(t, c / 0x1000, c / 0x100 % 16, c / 16 % 16, c % 16);
  }

  lemma {:induction false} UnhexOfHex(d: unit)
    requires d < 16
    ensures UnhexDigit(HexDigit(d)) == Some(d)
  {
  }

  lemma {:induction false} AssembledHex(t: Text, a: unit, b: unit, c: unit, d: unit)
    requires |t| >= 4 && a < 16 && b < 16 && c < 16 && d < 16
    requires UnhexDigit(t[0]) == Some(a) && UnhexDigit(t[1]) == Some(b)
    requires UnhexDigit(t[2]) == Some(c) && UnhexDigit(t[3]) == Some(d)
    ensures ReadHex4(t) == Some(Read(a * 0x1000 + b * 0x100 + c * 16 + d, t[4..]))
  {
  }

  lemma {:induction false} Digits(c: unit)
    ensures c / 0x1000 < 16
    ensures c / 0x1000 * 0x1000 + c / 0x100 % 16 * 0x100 + c / 16 % 16 * 16 + c % 16 == c
  {
    assert c / 0x100 == c / 0x1000 * 16 + c / 0x100 % 16;
    assert c / 16 == c / 0x100 * 16 + c / 16 % 16;
  }

  lemma {:induction false} ReadEscaped(s: Text, rest: Text)
    ensures ReadContents(Escape(s) + ([QUOTE] + rest)) == Some(Read(s, rest))
    decreases |s|
  {
    var tail := [QUOTE] + rest;
    if s == [] {
      assert Escape(s) + tail == tail && tail[1..] == rest;
    } else if |s| >= 2 && IsHighSurrogate(s[0]) && IsLowSurrogate(s[1]) {
      assert Escape(s) == s[..2] + Escape(s[2..]);
      ReadEscaped(s[2..], rest);
      ReadPair(s, Escape(s[2..]), rest);
    } else {
      assert Escape(s) == EscapeUnit(s[0]) + Escape(s[1..]);
      ReadEscaped(s[1..], rest);
      ReadOne(s, Escape(s[1..]), rest);
    }
  }

  lemma {:induction false} ReadPair(s: Text, escaped: Text, rest: Text)
    requires |s| >= 2 && IsHighSurrogate(s[0]) && IsLowSurrogate(s[1])
    requires ReadContents(escaped + ([QUOTE] + rest)) == Some(Read(s[2..], rest))
    ensures ReadContents((s[..2] + escaped) + ([QUOTE] + rest)) == Some(Read(s, rest))
  {
    hide ReadContents;
    var more := escaped + ([QUOTE] + rest);
    ReadPlain(s[1], more);
    ReadPlain(s[0], [s[1]] + more);
    assert s == [s[0]] + ([s[1]] + s[2..]);
    assert (s[..2] + escaped) + ([QUOTE] + rest) == [s[0]] + ([s[1]] + more);
  }

  lemma {:induction false} ReadOne(s: Text, escaped: Text, rest: Text)
    requires s != []
    requires ReadContents(escaped + ([QUOTE] + rest)) == Some(Read(s[1..], rest))
    ensures ReadContents((EscapeUnit(s[0]) + escaped) + ([QUOTE] + rest)) == Some(Read(s, rest))
  {
    var more := escaped + ([QUOTE] + rest);
    ReadEscapedUnit(s[0], more);
    Assoc(EscapeUnit(s[0]), escaped, [QUOTE] + rest);
    assert s == [s[0]] + s[1..];
    EscapedStart(s[0], more);
    ReadStep(EscapeUnit(s[0]) + more, s[0], more);
  }

  lemma {:induction false} EscapedStart(c: unit, more: Text)
    ensures (EscapeUnit(c) + more)[0] != QUOTE
  {
  }

  lemma {:induction false} ReadStep(t: Text, c: unit, more: Text)
    requires t != [] && t[0] != QUOTE && ReadUnit(t) == Some(Read(c, more)) && ReadContents(more).Some?
    ensures ReadContents(t) == Some(Read([c] + ReadContents(more).value.value, ReadContents(more).value.rest))
  {
    hide ReadUnit;
  }

  lemma {:induction false} ReadPlain(c: unit, rest: Text)
    requires c >= 0x20 && c != QUOTE && c != BACKSLASH
    requires ReadContents(rest).Some?
    ensures ReadContents([c] + rest)
            == Some(Read([c] + ReadContents(rest).value.value, ReadContents(rest).value.rest))
  {
    assert ([c] + rest)[1..] == rest;
  }

  lemma {:induction false} ReadPrintedString(s: Text, rest: Text)
    ensures ReadString(PrintString(s) + rest) == Some(Read(s, rest))
  {
    ReadEscaped(s, rest);
    assert (PrintString(s) + rest)[1..] == Escape(s) + ([QUOTE] + rest);
  }

  // ---- values ----------------------------------------------------------------

  const NULL_TEXT: Text := [0x6E, 0x75, 0x6C, 0x6C]
  const TRUE_TEXT: Text := [0x74, 0x72, 0x75, 0x65]
  const FALSE_TEXT: Text := [0x66, 0x61, 0x6C, 0x73, 0x65]

  /** `JSON.stringify` without indentation. */
  function Print(num: Numerals, v: Value): Text
  {
    match v
    case Null => NULL_TEXT
    case Bool(b) => if b then TRUE_TEXT else FALSE_TEXT
    case Num(n) => num.show(n)
    case Str(s) => PrintString(s)
    case Arr(items) => [OPEN_BRACKET] + PrintItems(num, items) + [CLOSE_BRACKET]
    case Obj(members) => [OPEN_BRACE] + PrintMembers(num, members) + [CLOSE_BRACE]
  }

  function PrintItems(num: Numerals, items: seq<Value>): Text
  {
    if items == [] then []
    else if |items| == 1 then Print(num, items[0])
    else Print(num, items[0]) + ([COMMA] + PrintItems(num, items[1..]))
  }

  function PrintMember(num: Numerals, m: Keyed<Value>): Text
  {
    PrintString(m.key) + ([COLON] + Print(num, m.value))
  }

  function PrintMembers(num: Numerals, members: seq<Keyed<Value>>): Text
  {
    if members == [] then []
    else if |members| == 1 then PrintMember(num, members[0])
    else PrintMember(num, members[0]) + ([COMMA] + PrintMembers(num, members[1..]))
  }

  function ReadValue(num: Numerals, t: Text): (r: Option<Read<Value>>)
    ensures r.Some? ==> |r.value.rest| < |t|
    decreases |t|, 0
  {
    if t == [] then None
    else if NULL_TEXT <= t then Some(Read(Null, t[4..]))
    else if TRUE_TEXT <= t then Some(Read(Bool(true), t[4..]))
    else if FALSE_TEXT <= t then Some(Read(Bool(false), t[5..]))
    else if t[0] == QUOTE then
      match ReadString(t)
      case None => None
      case Some(s) => Some(Read(Str(s.value), s.rest))
    else if t[0] == OPEN_BRACKET then
      if |t| >= 2 && t[1] == CLOSE_BRACKET then Some(Read(Arr([]), t[2..]))
      else match ReadItems(num, t[1..])
        case None => None
        case Some(items) => Some(Read(Arr(items.value), items.rest))
    else if t[0] == OPEN_BRACE then
      if |t| >= 2 && t[1] == CLOSE_BRACE then Some(Read(Obj([]), t[2..]))
      else match ReadMembers(num, t[1..])
        case None => None
        case Some(members) => Some(Read(Obj(members.value), members.rest))
    else
      var k := NumericPrefix(t);
      match num.parse(t[..k])
      case None => None
      case Some(n) => if k == 0 then None else Some(Read(Num(n), t[k..]))
  }

  /** One or more array items and the closing bracket. */
  function ReadItems(num: Numerals, t: Text): (r: Option<Read<seq<Value>>>)
    ensures r.Some? ==> |r.value.rest| < |t|
    decreases |t|, 1
  {
    match ReadValue(num, t)
    case None => None
    case Some(first) =>
      if first.rest == [] then None
      else if first.rest[0] == CLOSE_BRACKET then Some(Read([first.value], first.rest[1..]))
      else if first.rest[0] != COMMA then None
      else match ReadItems(num, first.rest[1..])
        case None => None
        case Some(more) => Some(Read([first.value] + more.value, more.rest))
  }

  function ReadMember(num: Numerals, t: Text): (r: Option<Read<Keyed<Value>>>)
    ensures r.Some? ==> |r.value.rest| < |t|
    decreases |t|, 1
  {
    match ReadString(t)
    case None => None
    case Some(key) =>
      if key.rest == [] || key.rest[0] != COLON then None
      else match ReadValue(num, key.rest[1..])
        case None => None
        case Some(v) => Some(Read(Member(key.value, v.value), v.rest))
  }

  /** One or more object members and the closing brace. */
  function ReadMembers(num: Numerals, t: Text): (r: Option<Read<seq<Keyed<Value>>>>)
    ensures r.Some? ==> |r.value.rest| < |t|
    decreases |t|, 2
  {
    match ReadMember(num, t)
    case None => None
    case Some(first) =>
      if first.rest == [] then None
      else if first.rest[0] == CLOSE_BRACE then Some(Read([first.value], first.rest[1..]))
      else if first.rest[0] != COMMA then None
      else match ReadMembers(num, first.rest[1..])
        case None => None
        case Some(more) => Some(Read([first.value] + more.value, more.rest))
  }

  // ---- reading undoes printing -------------------------------------------------

  /** First units of printed values: enough to tell the kinds of value apart. */
  lemma {:induction false} PrintedStart(num: Numerals, v: Value)
    requires Faithful(num)
    ensures Print(num, v) != []
    ensures var c := Print(num, v)[0];
            match v
            case Null => c == 0x6E
            case Bool(b) => c == if b then 0x74 else 0x66
            case Num(n) => IsNumeric(c)
            case Str(s) => c == QUOTE
            case Arr(items) => c == OPEN_BRACKET
            case Obj(members) => c == OPEN_BRACE
  {
  }

  lemma {:induction false} NumericPrefixOf(a: Text, rest: Text)
    requires forall i :: 0 <= i < |a| ==> IsNumeric(a[i])
    requires Delimited(rest)
    ensures NumericPrefix(a + rest) == |a|
  {
    if a == [] {
      assert a + rest == rest;
    } else {
      assert (a + rest)[1..] == a[1..] + rest;
      NumericPrefixOf(a[1..], rest);
    }
  }

  lemma {:induction false} ReadPrintedNumber(num: Numerals, n: int, rest: Text)
    requires Faithful(num) && Delimited(rest)
    ensures ReadValue(num, num.show(n) + rest) == Some(Read(Num(n), rest))
  {
    var a := num.show(n);
    var t := a + rest;
    assert t[0] == a[0];
    assert IsNumeric(t[0]);
    NumericPrefixOf(a, rest);
    assert t[..|a|] == a && t[|a|..] == rest;
  }

  /** Reading a printed value gives it back, whatever non-numeric text follows. */
  lemma {:induction false} ReadPrinted(num: Numerals, v: Value, rest: Text)
    requires Faithful(num) && Delimited(rest)
    ensures ReadValue(num, Print(num, v) + rest) == Some(Read(v, rest))
    decreases v, 0
  {
    match v
    case Null => assert (NULL_TEXT + rest)[4..] == rest;
    case Bool(b) => ReadPrintedBool(num, b, rest);
    case Num(n) => ReadPrintedNumber(num, n, rest);
    case Str(s) => ReadPrintedString(s, rest);
    case Arr(items) =>
      if items != [] {
        ReadPrintedItems(num, items, rest);
      }
      ReadPrintedArray(num, items, rest);
    case Obj(members) =>
      if members != [] {
        ReadPrintedMembers(num, members, rest);
      }
      ReadPrintedObject(num, members, rest);
  }

  lemma {:induction false} ReadPrintedBool(num: Numerals, b: bool, rest: Text)
    ensures ReadValue(num, Print(num, Bool(b)) + rest) == Some(Read(Bool(b), rest))
  {
    var t := Print(num, Bool(b)) + rest;
    assert t[0] == if b then 0x74 else 0x66;
    assert t[|Print(num, Bool(b))|..] == rest;
  }

  lemma {:induction false} ReadPrintedArray(num: Numerals, items: seq<Value>, rest: Text)
    requires Faithful(num)
    requires items != [] ==>
               ReadItems(num, PrintItems(num, items) + ([CLOSE_BRACKET] + rest)) == Some(Read(items, rest))
    ensures ReadValue(num, Print(num, Arr(items)) + rest) == Some(Read(Arr(items), rest))
  {
    hide ReadItems, Faithful, ReadMembers, ReadString;
    var inside := PrintItems(num, items);
    var t := Print(num, Arr(items)) + rest;
    assert t[0] == OPEN_BRACKET;
    assert t == [OPEN_BRACKET] + (inside + ([CLOSE_BRACKET] + rest));
    assert t[1..] == inside + ([CLOSE_BRACKET] + rest);
    if items == [] {
      assert t[1] == CLOSE_BRACKET && t[2..] == rest;
    } else {
      PrintedStart(num, items[0]);
      assert t[1] == Print(num, items[0])[0];
    }
  }

  lemma {:induction false} ReadPrintedObject(num: Numerals, members: seq<Keyed<Value>>, rest: Text)
    requires members != [] ==>
               ReadMembers(num, PrintMembers(num, members) + ([CLOSE_BRACE] + rest)) == Some(Read(members, rest))
    ensures ReadValue(num, Print(num, Obj(members)) + rest) == Some(Read(Obj(members), rest))
  {
    var inside := PrintMembers(num, members);
    var t := Print(num, Obj(members)) + rest;
    assert t[0] == OPEN_BRACE;
    assert t == [OPEN_BRACE] + (inside + ([CLOSE_BRACE] + rest));
    assert t[1..] == inside + ([CLOSE_BRACE] + rest);
    if members == [] {
      assert t[1] == CLOSE_BRACE && t[2..] == rest;
    } else {
      assert t[1] == PrintMember(num, members[0])[0] == QUOTE;
    }
  }

  lemma {:induction false} ReadPrintedItems(num: Numerals, items: seq<Value>, rest: Text)
    requires Faithful(num) && items != []
    ensures ReadItems(num, PrintItems(num, items) + ([CLOSE_BRACKET] + rest)) == Some(Read(items, rest))
    decreases items, 1
  {
    var tail := [CLOSE_BRACKET] + rest;
    if |items| == 1 {
      ReadPrinted(num, items[0], tail);
      assert tail[1..] == rest && items == [items[0]];
    } else {
      var others := PrintItems(num, items[1..]);
      ReadPrintedItems(num, items[1..], rest);
      ReadPrinted(num, items[0], [COMMA] + (others + tail));
      Separated(Print(num, items[0]), COMMA, others, tail);
      assert items == [items[0]] + items[1..];
      NextItems(num, PrintItems(num, items) + tail, items[0], others + tail, items[1..], rest);
    }
  }

  lemma {:induction false} Separated(a: Text, separator: unit, b: Text, tail: Text)
    ensures (a + ([separator] + b)) + tail == a + ([separator] + (b + tail))
  {
  }

  lemma {:induction false} NextItems(num: Numerals, t: Text, first: Value, u: Text, more: seq<Value>, rest: Text)
    requires ReadValue(num, t) == Some(Read(first, [COMMA] + u)) && ReadItems(num, u) == Some(Read(more, rest))
    ensures ReadItems(num, t) == Some(Read([first] + more, rest))
  {
    assert ([COMMA] + u)[1..] == u;
  }

  lemma {:induction false} ReadPrintedMember(num: Numerals, m: Keyed<Value>, rest: Text)
    requires Faithful(num) && Delimited(rest)
    ensures ReadMember(num, PrintMember(num, m) + rest) == Some(Read(m, rest))
    decreases m, 1
  {
    var v := Print(num, m.value);
    ReadPrinted(num, m.value, rest);
    ReadPrintedString(m.key, [COLON] + (v + rest));
    Separated(PrintString(m.key), COLON, v, rest);
    assert ([COLON] + (v + rest))[1..] == v + rest;
  }

  lemma {:induction false} ReadPrintedMembers(num: Numerals, members: seq<Keyed<Value>>, rest: Text)
    requires Faithful(num) && members != []
    ensures ReadMembers(num, PrintMembers(num, members) + ([CLOSE_BRACE] + rest)) == Some(Read(members, rest))
    decreases members, 2
  {
    var tail := [CLOSE_BRACE] + rest;
    if |members| == 1 {
      ReadPrintedMember(num, members[0], tail);
      assert tail[1..] == rest && members == [members[0]];
    } else {
      var others := PrintMembers(num, members[1..]);
      ReadPrintedMembers(num, members[1..], rest);
      ReadPrintedMember(num, members[0], [COMMA] + (others + tail));
      Separated(PrintMember(num, members[0]), COMMA, others, tail);
      assert members == [members[0]] + members[1..];
      NextMembers(num, PrintMembers(num, members) + tail, members[0], others + tail, members[1..], rest);
    }
  }

  lemma {:induction false} NextMembers(num: Numerals, t: Text, first: Keyed<Value>, u: Text, more: seq<Keyed<Value>>, rest: Text)
    requires ReadMember(num, t) == Some(Read(first, [COMMA] + u)) && ReadMembers(num, u) == Some(Read(more, rest))
    ensures ReadMembers(num, t) == Some(Read([first] + more, rest))
  {
    assert ([COMMA] + u)[1..] == u;
  }

  /** Different values have different texts. */
  lemma {:induction false} PrintInjective(num: Numerals, a: Value, b: Value)
    requires Faithful(num) && Print(num, a) == Print(num, b)
    ensures a == b
  {
    ReadPrinted(num, a, []);
    ReadPrinted(num, b, []);
    assert Print(num, a) + [] == Print(num, b) + [];
  }
}
