/** The canonical text, unit by unit: the order of its keys, its literals and its escapes. */
module CanonicalOrder {
  import opened Wrappers
  import opened JsText
  import opened JsonText
  import opened CanonicalJson

  // ---- the order of the keys -----------------------------------------------------------

  /** `b` goes on after `a`, or is greater at the first unit that differs. */
  ghost predicate UnitsLess(a: Text, b: Text) { exists k: nat :: LessFrom(a, b, k) }

  ghost predicate LessFrom(a: Text, b: Text, k: nat)
  {
    k <= |a| && k < |b| && a[..k] == b[..k] && (k == |a| || a[k] < b[k])
  }

  /** The keys are sorted by comparing their units. */
  lemma {:induction false} KeyLessIff(a: Text, b: Text)
    ensures KeyLess(a, b) <==> UnitsLess(a, b)
    decreases |a|
  {
    if b != [] && a != [] && a[0] == b[0] {
      KeyLessIff(a[1..], b[1..]);
      if UnitsLess(a[1..], b[1..]) {
        LessAfterFirst(a, b);
      }
      if UnitsLess(a, b) {
        LessPastFirst(a, b);
      }
    } else if b != [] && (a == [] || a[0] < b[0]) {
      assert LessFrom(a, b, 0);
    }
  }

  lemma {:induction false} LessAfterFirst(a: Text, b: Text)
    requires a != [] && b != [] && a[0] == b[0] && UnitsLess(a[1..], b[1..])
    ensures UnitsLess(a, b)
  {
    var k: nat :| LessFrom(a[1..], b[1..], k);
    assert a[..k + 1] == [a[0]] + a[1..][..k] && b[..k + 1] == [b[0]] + b[1..][..k];
    assert LessFrom(a, b, k + 1);
  }

  lemma {:induction false} LessPastFirst(a: Text, b: Text)
    requires a != [] && b != [] && a[0] == b[0] && UnitsLess(a, b)
    ensures UnitsLess(a[1..], b[1..])
  {
    var k: nat :| LessFrom(a, b, k);
    assert k > 0;
    assert a[1..][..k - 1] == a[..k][1..] && b[1..][..k - 1] == b[..k][1..];
    assert LessFrom(a[1..], b[1..], k - 1);
  }

  /** Every object at every depth has its keys in ascending order of their units. */
  ghost predicate KeysAscend(v: Value)
  {
    match v
    case Arr(items) => forall i :: 0 <= i < |items| ==> KeysAscend(items[i])
    case Obj(members) =>
      && (forall i, j :: 0 <= i < j < |members| ==> UnitsLess(members[i].key, members[j].key))
      && (forall i :: 0 <= i < |members| ==> KeysAscend(members[i].value))
    case _ => true
  }

  lemma {:induction false} NormalAscends(v: Value)
    requires Distinct(v)
    ensures KeysAscend(Normalize(v))
    decreases v
  {
    match v
    case Arr(items) =>
      forall i | 0 <= i < |items| ensures KeysAscend(NormalizeItems(items)[i]) {
        NormalAscends(items[i]);
      }
    case Obj(members) =>
      var ms := NormalizeMembers(members);
      forall i | 0 <= i < |members| ensures KeysAscend(ms[i].value) {
        NormalAscends(members[i].value);
      }
      SortedAscends(ms);
    case _ =>
  }

  lemma {:induction false} SortedAscends(ms: seq<Keyed<Value>>)
    requires DistinctKeys(ms) && forall i :: 0 <= i < |ms| ==> KeysAscend(ms[i].value)
    ensures KeysAscend(Obj(Sort(ms)))
  {
    hide KeyLess, UnitsLess, Sort;
    var s := Sort(ms);
    SortIncreasing(ms);
    SortKeepsElements(ms);
    forall i, j | 0 <= i < j < |s| ensures UnitsLess(s[i].key, s[j].key) {
      KeyLessIff(s[i].key, s[j].key);
    }
    forall i | 0 <= i < |s| ensures KeysAscend(s[i].value) {
      assert s[i] in s && s[i] in ms;
    }
  }

  /** What the canonical text reads as has its keys in order, at every depth. */
  lemma {:induction false} CanonAscends(num: Numerals, v: Value)
    requires Faithful(num) && Distinct(v)
    ensures var r := ReadValue(num, Canon(num, v));
            r.Some? && r.value.rest == [] && KeysAscend(r.value.value) && Equiv(r.value.value, v)
  {
    CanonReadsBack(num, v);
    NormalAscends(v);
  }

  // ---- the units of the text -------------------------------------------------------------

  /** Literals and punctuation of a printed value. */
  lemma {:induction false} PrintedUnits(num: Numerals, a: Value, b: Value, k: Text, l: Text)
    ensures Print(num, Null) == Literal("null")
    ensures Print(num, Bool(true)) == Literal("true") && Print(num, Bool(false)) == Literal("false")
    ensures Print(num, Arr([])) == Literal("[]") && Print(num, Obj([])) == Literal("{}")
    ensures Print(num, Arr([a, b])) == Literal("[") + Print(num, a) + Literal(",") + Print(num, b) + Literal("]")
    ensures Print(num, Obj([Member(k, a), Member(l, b)]))
            == Literal("{") + Print(num, Str(k)) + Literal(":") + Print(num, a)
               + Literal(",") + Print(num, Str(l)) + Literal(":") + Print(num, b) + Literal("}")
    ensures Print(num, Str(k)) == Literal("\"") + Escape(k) + Literal("\"")
  {
    hide Escape, Literal;
    SingleUnits();
    assert [a, b][1..] == [b];
    assert [Member(k, a), Member(l, b)][1..] == [Member(l, b)];
    var x, y := Print(num, a), Print(num, b);
    assert PrintItems(num, [a, b]) == x + ([COMMA] + y);
    var p, q := PrintMember(num, Member(k, a)), PrintMember(num, Member(l, b));
    assert PrintMembers(num, [Member(k, a), Member(l, b)]) == p + ([COMMA] + q);
  }

  lemma {:induction false} SingleUnits()
    ensures Literal("[") == [OPEN_BRACKET] && Literal("]") == [CLOSE_BRACKET] && Literal("{") == [OPEN_BRACE]
    ensures Literal("}") == [CLOSE_BRACE] && Literal(",") == [COMMA] && Literal(":") == [COLON] && Literal("\"") == [QUOTE]
    ensures Literal("[]") == [OPEN_BRACKET, CLOSE_BRACKET] && Literal("{}") == [OPEN_BRACE, CLOSE_BRACE]
    ensures NULL_TEXT == Literal("null") && TRUE_TEXT == Literal("true") && FALSE_TEXT == Literal("false")
  {
  }

  /** The number that four hexadecimal digits, in lower case, stand for. */
  function HexNumber(t: Text): int
    requires |t| == 4
  {
    HexValue(t[0]) * 4096 + HexValue(t[1]) * 256 + HexValue(t[2]) * 16 + HexValue(t[3])
  }

  function HexValue(c: unit): int
  {
    if '0' as int <= c as int <= '9' as int then c as int - '0' as int
    else if 'a' as int <= c as int <= 'f' as int then c as int - 'a' as int + 10
    else -1
  }

  /** How each unit of a string is written. */
  lemma {:induction false} UnitEscaped(c: unit)
    ensures c == '"' as unit ==> Escape([c]) == Literal("\\\"")
    ensures c == '\\' as unit ==> Escape([c]) == Literal("\\\\")
    ensures c == 8 ==> Escape([c]) == Literal("\\b")
    ensures c == 9 ==> Escape([c]) == Literal("\\t")
    ensures c == 10 ==> Escape([c]) == Literal("\\n")
    ensures c == 12 ==> Escape([c]) == Literal("\\f")
    ensures c == 13 ==> Escape([c]) == Literal("\\r")
    ensures (c < 0x20 && c !in {8, 9, 10, 12, 13}) || 0xD800 <= c <= 0xDFFF ==>
              && |Escape([c])| == 6 && Escape([c])[..2] == Literal("\\u")
              && (forall i :: 2 <= i < 6 ==> HexValue(Escape([c])[i]) >= 0) && HexNumber(Escape([c])[2..]) == c as int
    ensures c >= 0x20 && c != '"' as unit && c != '\\' as unit && !(0xD800 <= c <= 0xDFFF) ==> Escape([c]) == [c]
  {
    hide Hex4, HexNumber, HexValue;
    assert [c][1..] == [] && EscapeUnit(c) + [] == EscapeUnit(c) && Escape([c]) == EscapeUnit(c);
    if (c < 0x20 && c !in {8, 9, 10, 12, 13}) || 0xD800 <= c <= 0xDFFF {
      HexDigits(c);
      assert EscapeUnit(c) == [BACKSLASH, LETTER_U] + Hex4(c) && [BACKSLASH, LETTER_U] == Literal("\\u");
      assert EscapeUnit(c)[2..] == Hex4(c);
      assert forall i :: 2 <= i < 6 ==> EscapeUnit(c)[i] == Hex4(c)[i - 2];
    }
  }

  lemma {:induction false} HexDigits(c: unit)
    ensures |Hex4(c)| == 4
    ensures forall i :: 0 <= i < 4 ==> HexValue(Hex4(c)[i]) >= 0
    ensures HexNumber(Hex4(c)) == c as int
  {
    hide HexDigit, HexValue;
    HexOf(c / 0x1000);
    HexOf(c / 0x100 % 16);
    HexOf(c / 16 % 16);
    HexOf(c % 16);
    FourDigits(c as int);
  }

  lemma {:induction false} FourDigits(n: int)
    ensures n / 4096 * 4096 + n / 256 % 16 * 256 + n / 16 % 16 * 16 + n % 16 == n
  {
    assert n / 256 == n / 16 / 16 && n / 4096 == n / 256 / 16;
  }

  lemma {:induction false} HexOf(d: unit)
    requires d < 16
    ensures HexValue(HexDigit(d)) == d as int
  {
  }

  /** Strings are escaped unit by unit, except that a surrogate pair stays. */
  lemma {:induction false} EscapedFirst(s: Text)
    requires s != []
    ensures |s| >= 2 && 0xD800 <= s[0] <= 0xDBFF && 0xDC00 <= s[1] <= 0xDFFF ==> Escape(s) == s[..2] + Escape(s[2..])
    ensures !(|s| >= 2 && 0xD800 <= s[0] <= 0xDBFF && 0xDC00 <= s[1] <= 0xDFFF) ==>
              Escape(s) == Escape(s[..1]) + Escape(s[1..])
  {
    if !(|s| >= 2 && 0xD800 <= s[0] <= 0xDBFF && 0xDC00 <= s[1] <= 0xDFFF) {
      assert s[..1] == [s[0]] && s[..1][1..] == [] && EscapeUnit(s[0]) + [] == EscapeUnit(s[0]);
    }
  }
}
