/** Decoding a byte stream chunk by chunk: `String(chunk)` of a buffer, and exactly when it loses nothing. */
module StreamDecoding {
  import opened Wrappers
  import opened ZipBytes
  import opened JsText
  import Utf8

  // ---- the replacing decoder -----------------------------------------------------------------------

  const REPLACEMENT: unit := 0xFFFD

  /** A character in UTF-16. */
  function Units(c: char): (t: Text)
    ensures 1 <= |t| <= 2
  {
    var n := c as int;
    if n < 0x1_0000 then [n as unit]
    else [(0xD800 + (n - 0x1_0000) / 0x400) as unit, (0xDC00 + (n - 0x1_0000) % 0x400) as unit]
  }

  /** The units of a character are its number, or a high and a low surrogate that give it back. */
  lemma {:induction false} UnitsAre(c: char)
    ensures c as int < 0x1_0000 ==> |Units(c)| == 1 && Units(c)[0] as int == c as int
    ensures c as int >= 0x1_0000 ==>
              && |Units(c)| == 2 && 0xD800 <= Units(c)[0] <= 0xDBFF && 0xDC00 <= Units(c)[1] <= 0xDFFF
              && c as int == 0x1_0000 + (Units(c)[0] as int - 0xD800) * 0x400 + (Units(c)[1] as int - 0xDC00)
  {
    var n := c as int - 0x1_0000;
    assert n >= 0 ==> n == n / 0x400 * 0x400 + n % 0x400;
  }

  /** How many bytes a character takes that starts with `x`; 0 when none does. */
  function Wanted(x: byte): nat
  {
    if x < 0x80 then 1
    else if 0xC2 <= x < 0xE0 then 2
    else if 0xE0 <= x < 0xF0 then 3
    else if 0xF0 <= x < 0xF5 then 4
    else 0
  }

  predicate SecondFits(x: byte, y: byte)
  {
    if x == 0xE0 then 0xA0 <= y < 0xC0
    else if x == 0xED then 0x80 <= y < 0xA0
    else if x == 0xF0 then 0x90 <= y < 0xC0
    else if x == 0xF4 then 0x80 <= y < 0x90
    else Utf8.IsTail(y)
  }

  /** How many bytes at the start of `b` start a character; one for a byte that starts none. */
  function Fitting(b: Bytes): (n: nat)
    requires b != []
    ensures 1 <= n <= |b| && n <= 4
  {
    if Wanted(b[0]) < 2 || |b| < 2 || !SecondFits(b[0], b[1]) then 1
    else if Wanted(b[0]) == 2 || |b| < 3 || !Utf8.IsTail(b[2]) then 2
    else if Wanted(b[0]) == 3 || |b| < 4 || !Utf8.IsTail(b[3]) then 3
    else 4
  }

  /** One step of the decoder: the bytes it takes and the text they become. */
  datatype Taken = Taken(len: nat, text: Text)

  /**
   * A character, or one replacement character for as many bytes as could start one (Encoding
   * Standard, section 8.1.1).
   */
  function First(b: Bytes): (r: Taken)
    requires b != []
    ensures 1 <= r.len <= |b|
  {
    match Utf8.DecodeChar(b)
    case Some(d) => Taken(d.len, Units(d.c))
    case None => Taken(Fitting(b), [REPLACEMENT])
  }

  /** `String(b)` of a buffer. */
  function Lossy(b: Bytes): Text
    decreases |b|
  {
    if b == [] then [] else First(b).text + Lossy(b[First(b).len..])
  }

  function AllUnits(s: string): Text { if s == [] then [] else Units(s[0]) + AllUnits(s[1..]) }

  /** On well-formed bytes it is the strict decoder. */
  lemma {:induction false} LossyIsStrict(b: Bytes)
    requires Utf8.Decode(b).Some?
    ensures Lossy(b) == AllUnits(Utf8.Decode(b).value)
    decreases |b|
  {
    hide Units;
    if b != [] {
      var d := Utf8.DecodeChar(b).value;
      LossyIsStrict(b[d.len..]);
      var rest := Utf8.Decode(b[d.len..]).value;
      assert ([d.c] + rest)[1..] == rest;
    }
  }

  // ---- where a step ends -----------------------------------------------------------------------

  /** `n` bytes are a whole number of decoder steps: no character is cut there. */
  predicate StepEnds(b: Bytes, n: nat)
    decreases |b|
  {
    n == 0 || (b != [] && n >= First(b).len && StepEnds(b[First(b).len..], n - First(b).len))
  }

  lemma {:induction false} DecodedFits(b: Bytes)
    requires b != []
    ensures Utf8.DecodeChar(b).Some? <==> Fitting(b) == Wanted(b[0])
    ensures Utf8.DecodeChar(b).Some? ==> Utf8.DecodeChar(b).value.len == Fitting(b)
  {
  }

  lemma {:induction false} FittingPrefix(a: Bytes, b: Bytes)
    requires a != []
    ensures Fitting(a + b) <= |a| ==> Fitting(a) == Fitting(a + b)
    ensures Fitting(a + b) > |a| ==> Fitting(a) == |a| && Wanted(a[0]) > |a|
  {
  }

  lemma {:induction false} DecodedPrefix(a: Bytes, b: Bytes)
    requires a != [] && Utf8.DecodeChar(a + b).Some? && Utf8.DecodeChar(a + b).value.len <= |a|
    ensures Utf8.DecodeChar(a) == Utf8.DecodeChar(a + b)
  {
  }

  lemma {:induction false} FirstLength(b: Bytes)
    requires b != []
    ensures First(b).len == Fitting(b)
  {
    hide Fitting, Utf8.DecodeChar;
    DecodedFits(b);
  }

  /** A step that ends within `a` does not see what follows. */
  lemma {:induction false} FirstPrefix(a: Bytes, b: Bytes)
    requires a != [] && First(a + b).len <= |a|
    ensures First(a) == First(a + b)
  {
    hide Fitting, Utf8.DecodeChar, Wanted;
    FirstLength(a);
    FirstLength(a + b);
    FittingPrefix(a, b);
    DecodedFits(a);
    DecodedFits(a + b);
    assert (a + b)[0] == a[0];
    if Utf8.DecodeChar(a + b).Some? {
      DecodedPrefix(a, b);
    }
  }

  /** A step that goes beyond `a` leaves `a` a replacement character. */
  lemma {:induction false} FirstCut(a: Bytes, b: Bytes)
    requires a != [] && First(a + b).len > |a|
    ensures First(a) == Taken(|a|, [REPLACEMENT])
  {
    hide Fitting, Utf8.DecodeChar, Wanted;
    FirstLength(a + b);
    FittingPrefix(a, b);
    DecodedFits(a);
  }

  /** What a step takes after its first byte cannot start a character; two units are never replacements. */
  lemma {:induction false} StepInside(b: Bytes)
    requires b != []
    ensures forall i :: 1 <= i < First(b).len ==> Utf8.IsTail(b[i])
    ensures |First(b).text| <= 2 && (|First(b).text| == 2 ==> First(b).text[0] != REPLACEMENT)
  {
    FirstLength(b);
  }

  function Replacements(n: nat): Text { seq(n, i => REPLACEMENT) }

  lemma {:induction false} TailFirst(b: Bytes)
    requires b != [] && Utf8.IsTail(b[0])
    ensures First(b) == Taken(1, [REPLACEMENT])
  {
  }

  lemma {:induction false} TailsReplaced(b: Bytes, n: nat)
    requires n <= |b| && forall i :: 0 <= i < n ==> Utf8.IsTail(b[i])
    ensures Lossy(b) == Replacements(n) + Lossy(b[n..])
    decreases n
  {
    hide First;
    if n == 0 {
      assert b[0..] == b;
    } else {
      TailFirst(b);
      TailsReplaced(b[1..], n - 1);
      assert b[1..][n - 1..] == b[n..];
      assert Replacements(n) == [REPLACEMENT] + Replacements(n - 1);
      Assoc([REPLACEMENT], Replacements(n - 1), Lossy(b[n..]));
    }
  }

  // ---- one cut ---------------------------------------------------------------------------------

  /** Decoded apart, two parts give at least as much text, and the same exactly when no step is cut. */
  lemma {:induction false} OneCut(a: Bytes, b: Bytes)
    ensures |Lossy(a)| + |Lossy(b)| >= |Lossy(a + b)|
    ensures StepEnds(a + b, |a|) ==> Lossy(a + b) == Lossy(a) + Lossy(b)
    ensures !StepEnds(a + b, |a|) ==>
              |Lossy(a)| + |Lossy(b)| > |Lossy(a + b)| || !(Lossy(a) <= Lossy(a + b))
    decreases |a|
  {
    hide First;
    if a == [] {
      assert a + b == b;
    } else if First(a + b).len <= |a| {
      CutLater(a, b, First(a + b).len);
    } else {
      CutInside(a, b, First(a + b).len);
    }
  }

  lemma {:induction false} CutLater(a: Bytes, b: Bytes, n: nat)
    requires a != [] && n == First(a + b).len <= |a|
    ensures |Lossy(a)| + |Lossy(b)| >= |Lossy(a + b)|
    ensures StepEnds(a + b, |a|) ==> Lossy(a + b) == Lossy(a) + Lossy(b)
    ensures !StepEnds(a + b, |a|) ==>
              |Lossy(a)| + |Lossy(b)| > |Lossy(a + b)| || !(Lossy(a) <= Lossy(a + b))
    decreases |a|, 0
  {
    hide First;
    FirstPrefix(a, b);
    var text, rest := First(a + b).text, a[n..];
    CutAppend(a, n, b);
    OneCut(rest, b);
    assert Lossy(a + b) == text + Lossy(rest + b) && Lossy(a) == text + Lossy(rest);
    Assoc(text, Lossy(rest), Lossy(b));
    if Lossy(a) <= Lossy(a + b) {
      assert Lossy(rest) == Lossy(a)[|text|..] && Lossy(rest + b) == Lossy(a + b)[|text|..];
    }
  }

  lemma {:induction false} CutInside(a: Bytes, b: Bytes, n: nat)
    requires a != [] && n == First(a + b).len > |a|
    ensures !StepEnds(a + b, |a|) && |Lossy(a)| + |Lossy(b)| >= |Lossy(a + b)|
    ensures |Lossy(a)| + |Lossy(b)| > |Lossy(a + b)| || !(Lossy(a) <= Lossy(a + b))
  {
    hide First;
    FirstCut(a, b);
    StepInside(a + b);
    var k := n - |a|;
    forall i | 0 <= i < k ensures Utf8.IsTail(b[i]) {
      assert (a + b)[|a| + i] == b[i];
    }
    TailsReplaced(b, k);
    assert (a + b)[n..] == b[k..];
    assert a[|a|..] == [] && Lossy(a) == [REPLACEMENT] + Lossy([]);
    var text := First(a + b).text;
    assert Lossy(a + b) == text + Lossy(b[k..]);
    if |text| == 2 {
      assert Lossy(a + b)[0] == text[0] != Lossy(a)[0];
    }
  }

  // ---- chunks --------------------------------------------------------------------------------------

  function Whole(chunks: seq<Bytes>): Bytes
  {
    if chunks == [] then [] else chunks[0] + Whole(chunks[1..])
  }

  /** What the gate makes of the chunks: each is decoded on its own. */
  function ChunkTexts(chunks: seq<Bytes>): (texts: seq<Text>)
    ensures |texts| == |chunks|
  {
    seq(|chunks|, i requires 0 <= i < |chunks| => Lossy(chunks[i]))
  }

  /** No chunk ends inside a character, or inside bytes that become one replacement character. */
  ghost predicate CutCleanly(chunks: seq<Bytes>)
  {
    forall k :: 0 <= k <= |chunks| ==> StepEnds(Whole(chunks), |Whole(chunks[..k])|)
  }

  lemma {:induction false} StepsAfter(b: Bytes, m: nat, n: nat)
    requires m <= |b| && StepEnds(b, m)
    ensures StepEnds(b, m + n) <==> StepEnds(b[m..], n)
    decreases |b|
  {
    hide First;
    if m == 0 {
      assert b[0..] == b;
    } else {
      var k := First(b).len;
      StepsAfter(b[k..], m - k, n);
      assert b[k..][m - k..] == b[m..];
    }
  }

  lemma {:induction false} CutCleanlyFirst(chunks: seq<Bytes>)
    requires chunks != []
    ensures CutCleanly(chunks) <==> StepEnds(Whole(chunks), |chunks[0]|) && CutCleanly(chunks[1..])
  {
    hide StepEnds;
    var first, rest, whole := chunks[0], chunks[1..], Whole(chunks);
    assert whole[|first|..] == Whole(rest);
    forall k | 1 <= k <= |chunks|
      ensures |Whole(chunks[..k])| == |first| + |Whole(rest[..k - 1])|
    {
      assert chunks[..k][1..] == rest[..k - 1];
    }
    assert chunks[..1][1..] == [] && chunks[..1][0] == first && Whole(chunks[..1]) == first + [];
    if StepEnds(whole, |first|) {
      forall k | 0 <= k <= |rest|
        ensures StepEnds(whole, |Whole(chunks[..k + 1])|) <==> StepEnds(Whole(rest), |Whole(rest[..k])|)
      {
        StepsAfter(whole, |first|, |Whole(rest[..k])|);
      }
      FirstCutClean(chunks);
    }
  }

  lemma {:induction false} FirstCutClean(chunks: seq<Bytes>)
    ensures StepEnds(Whole(chunks), |Whole(chunks[..0])|)
  {
  }

  /** The texts of the chunks put together are the text of the whole if and only if all cuts are clean. */
  lemma {:induction false} TextsAreWholeIff(chunks: seq<Bytes>)
    ensures |Concat(ChunkTexts(chunks))| >= |Lossy(Whole(chunks))|
    ensures Concat(ChunkTexts(chunks)) == Lossy(Whole(chunks)) <==> CutCleanly(chunks)
    decreases |chunks|
  {
    hide Lossy, StepEnds, CutCleanly;
    if chunks == [] {
      NoChunks();
    } else {
      var first, rest := chunks[0], chunks[1..];
      TextsAreWholeIff(rest);
      OneCut(first, Whole(rest));
      CutCleanlyFirst(chunks);
      assert ChunkTexts(chunks)[1..] == ChunkTexts(rest);
      var text, texts := Lossy(first), Concat(ChunkTexts(rest));
      assert Concat(ChunkTexts(chunks)) == text + texts;
      if text + texts == Lossy(Whole(chunks)) {
        assert text <= Lossy(Whole(chunks));
        assert texts == (text + texts)[|text|..] && Lossy(Whole(rest)) == (text + Lossy(Whole(rest)))[|text|..];
      }
    }
  }

  lemma {:induction false} NoChunks()
    ensures Lossy(Whole([])) == [] == Concat(ChunkTexts([])) && CutCleanly([])
  {
  }

  // ---- well-formed streams -------------------------------------------------------------------------

  lemma {:induction false} WellFormedCut(a: Bytes, b: Bytes)
    requires Utf8.Decode(a + b).Some?
    ensures StepEnds(a + b, |a|) <==> Utf8.Decode(a).Some?
    ensures StepEnds(a + b, |a|) ==> Utf8.Decode(b).Some?
    decreases |a|
  {
    hide First, Utf8.DecodeChar;
    if a == [] {
      assert a + b == b;
    } else {
      var n := First(a + b).len;
      FirstIsChar(a + b);
      if n <= |a| {
        DecodedPrefix(a, b);
        CutAppend(a, n, b);
        WellFormedCut(a[n..], b);
      } else {
        CutIsIllFormed(a, b);
      }
    }
  }

  lemma {:induction false} CutIsIllFormed(a: Bytes, b: Bytes)
    requires a != [] && First(a + b).len > |a|
    ensures Utf8.DecodeChar(a).None?
  {
    hide Fitting, Utf8.DecodeChar, Wanted;
    FirstLength(a + b);
    FittingPrefix(a, b);
    DecodedFits(a);
  }

  lemma {:induction false} FirstIsChar(b: Bytes)
    requires b != []
    ensures Utf8.DecodeChar(b).Some? ==> First(b).len == Utf8.DecodeChar(b).value.len
  {
  }

  /** In a well-formed stream the cuts are clean exactly when every chunk is well-formed by itself. */
  lemma {:induction false} CleanIffWellFormed(chunks: seq<Bytes>)
    requires Utf8.Decode(Whole(chunks)).Some?
    ensures CutCleanly(chunks) <==> forall c :: c in chunks ==> Utf8.Decode(c).Some?
    decreases |chunks|
  {
    hide StepEnds, CutCleanly, Utf8.Decode;
    if chunks == [] {
      NoChunks();
    } else {
      CutCleanlyFirst(chunks);
      WellFormedCut(chunks[0], Whole(chunks[1..]));
      assert forall c :: c in chunks <==> c == chunks[0] || c in chunks[1..];
      if StepEnds(Whole(chunks), |chunks[0]|) {
        CleanIffWellFormed(chunks[1..]);
      }
    }
  }
}
