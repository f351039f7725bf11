/** What the limits of the canonical text mean in numbers. */
module CanonicalLimits {
  import opened JsText
  import opened JsonText
  import opened CanonicalVisit

  /** Every high surrogate is followed by a low one, and every low one follows a high one. */
  ghost predicate SurrogatesPaired(s: Text)
  {
    && (forall i :: 0 <= i < |s| && 0xD800 <= s[i] <= 0xDBFF ==> i + 1 < |s| && 0xDC00 <= s[i + 1] <= 0xDFFF)
    && (forall i :: 0 <= i < |s| && 0xDC00 <= s[i] <= 0xDFFF ==> i > 0 && 0xD800 <= s[i - 1] <= 0xDBFF)
  }

  lemma {:induction false} WellFormedIff(s: Text)
    ensures WellFormed(s) <==> SurrogatesPaired(s)
    decreases |s|
  {
    if s == [] {
    } else if |s| >= 2 && IsHighSurrogate(s[0]) && IsLowSurrogate(s[1]) {
      WellFormedIff(s[2..]);
      PairedAfter(s, 2);
    } else if !IsHighSurrogate(s[0]) && !IsLowSurrogate(s[0]) {
      WellFormedIff(s[1..]);
      PairedAfter(s, 1);
    }
  }

  /** After a pair or a plain unit. */
  lemma {:induction false} PairedAfter(s: Text, k: nat)
    requires k <= |s| && (if k == 2 then IsHighSurrogate(s[0]) && IsLowSurrogate(s[1])
                          else k == 1 && !IsHighSurrogate(s[0]) && !IsLowSurrogate(s[0]))
    ensures SurrogatesPaired(s) <==> SurrogatesPaired(s[k..])
  {
    var rest := s[k..];
    if SurrogatesPaired(rest) {
      forall i | 0 <= i < |s| && 0xD800 <= s[i] <= 0xDBFF ensures i + 1 < |s| && 0xDC00 <= s[i + 1] <= 0xDFFF {
        if i >= k {
          assert rest[i - k] == s[i] && (i + 1 < |s| ==> rest[i + 1 - k] == s[i + 1]);
        }
      }
      forall i | 0 <= i < |s| && 0xDC00 <= s[i] <= 0xDFFF ensures i > 0 && 0xD800 <= s[i - 1] <= 0xDBFF {
        if i >= k {
          assert rest[i - k] == s[i] && (i > k ==> rest[i - 1 - k] == s[i - 1]);
        }
      }
    }
    if SurrogatesPaired(s) {
      forall i | 0 <= i < |rest| && 0xD800 <= rest[i] <= 0xDBFF ensures i + 1 < |rest| && 0xDC00 <= rest[i + 1] <= 0xDFFF {
        assert s[i + k] == rest[i] && (i + 1 < |rest| ==> rest[i + 1] == s[i + 1 + k]);
      }
      forall i | 0 <= i < |rest| && 0xDC00 <= rest[i] <= 0xDFFF ensures i > 0 && 0xD800 <= rest[i - 1] <= 0xDBFF {
        assert s[i + k] == rest[i] && (i > 0 ==> rest[i - 1] == s[i - 1 + k]);
      }
    }
  }

  /** A string is accepted up to a million units. */
  lemma {:induction false} StringAccepted(s: Text)
    ensures Accepted(Str(s)) <==> |s| <= 1000000 && SurrogatesPaired(s)
  {
    WellFormedIff(s);
  }

  /** A property name counts twice, among the names and as a string. */
  lemma {:induction false} KeyAccepted(k: Text)
    ensures Accepted(Obj([Member(k, Null)])) <==> 2 * |k| <= 1000000 && SurrogatesPaired(k)
  {
    hide WellFormed, SurrogatesPaired, MembersCost, MemberCost, KeyChars, ItemsCost, IndexChars;
    WellFormedIff(k);
    OneKey(k);
  }

  lemma {:induction false} OneKey(k: Text)
    ensures KeyChars([Member(k, Null)]) == |k|
    ensures MembersCost([Member(k, Null)]) == Cost(2, |k|, 1, WellFormed(k))
  {
    hide WellFormed, ItemsCost, IndexChars;
    var ms := [Member(k, Null)];
    assert ms[1..] == [] && MembersCost([]) == FREE && KeyChars<Value>([]) == 0;
    NullCost();
    assert MemberCost(ms[0]) == Cost(2, |k|, 1, WellFormed(k));
  }

  /** `depth` arrays around a null. */
  function Nested(depth: nat): Value { if depth == 0 then Null else Arr([Nested(depth - 1)]) }

  /** Nesting is accepted up to 32 levels. */
  lemma {:induction false} NestedAccepted(depth: nat)
    ensures Accepted(Nested(depth)) <==> depth <= 32
  {
    NestedCost(depth);
  }

  lemma {:induction false} NestedCost(depth: nat)
    ensures CostOf(Nested(depth)) == Cost(depth + 1, depth, depth, true)
  {
    if depth > 0 {
      NestedCost(depth - 1);
      var items := [Nested(depth - 1)];
      assert items[1..] == [];
      assert IndexChars(1) == 1;
      assert ItemsCost(items) == Join(Below(CostOf(items[0])), FREE);
    }
  }

  function Nulls(n: nat): seq<Value> { seq(n, _ => Null) }

  /** A value is accepted up to 50000 visits, one for each value in it and one for each name. */
  lemma {:induction false} NullsAccepted(n: nat)
    ensures Accepted(Arr(Nulls(n))) <==> n + 1 <= 50000
  {
    hide IndexChars, ItemsCost;
    NullsCost(Nulls(n));
    if n < 50000 {
      IndexCharsBound(n);
    }
  }

  lemma {:induction false} NullsCost(items: seq<Value>)
    requires forall i :: 0 <= i < |items| ==> items[i] == Null
    ensures ItemsCost(items) == Cost(|items|, 0, if items == [] then 0 else 1, true)
    decreases |items|
  {
    hide MembersCost, IndexChars, KeyChars, StringCost;
    if items != [] {
      NullsCost(items[1..]);
      NullCost();
      assert items[0] == Null;
    }
  }

  lemma {:induction false} NullCost()
    ensures CostOf(Null) == Cost(1, 0, 0, true)
  {
  }

  lemma {:induction false} IndexCharsBound(n: nat)
    requires n <= 100000
    ensures IndexChars(n) <= 5 * n
  {
    if n > 0 {
      IndexCharsBound(n - 1);
      FiveDigits(n - 1);
    }
  }

  lemma {:induction false} FiveDigits(n: nat)
    requires n < 100000
    ensures DigitCount(n) <= 5
  {
    assert n / 10 < 10000 && n / 10 / 10 < 1000 && n / 10 / 10 / 10 < 100 && n / 10 / 10 / 10 / 10 < 10;
    assert DigitCount(n / 10 / 10 / 10 / 10) == 1;
    assert DigitCount(n / 10 / 10 / 10) <= 2;
    assert DigitCount(n / 10 / 10) <= 3;
    assert DigitCount(n / 10) <= 4;
  }

  /** The names of an array's elements count, digit by digit. */
  lemma {:induction false} IndexDigits()
    ensures DigitCount(9) == 1 && DigitCount(10) == 2 && DigitCount(99) == 2 && DigitCount(100) == 3
    ensures forall n: nat :: IndexChars(n + 1) == IndexChars(n) + DigitCount(n)
  {
    assert DigitCount(1) == 1 && DigitCount(9) == 1;
  }
}
