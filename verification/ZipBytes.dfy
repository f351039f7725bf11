/** Bytes, little-endian fields and the field layout of ZIP records. */
module ZipBytes {

  newtype byte = x: int | 0 <= x < 0x100

  type Bytes = seq<byte>

  const TWO16: nat := 0x1_0000
  const TWO32: nat := 0x1_0000_0000

  /** `readUInt16LE`. */
  function U16(b: Bytes, i: nat): (r: nat)
    requires i + 2 <= |b|
    ensures r < TWO16
  {
    b[i] as int + 0x100 * b[i + 1] as int
  }

  /** `readUInt32LE`. */
  function U32(b: Bytes, i: nat): (r: nat)
    requires i + 4 <= |b|
    ensures r < TWO32
  {
    U16(b, i) + TWO16 * U16(b, i + 2)
  }

  /** `writeUInt16LE(value & 0xffff)`. */
  function Le16(v: nat): Bytes
  {
    [(v % 0x100) as byte, (v / 0x100 % 0x100) as byte]
  }

  /** `writeUInt32LE(value >>> 0)`. */
  function Le32(v: nat): Bytes
  {
    Le16(v) + Le16(v / TWO16)
  }

  lemma {:induction false} ReadBack16(v: nat, rest: Bytes)
    ensures U16(Le16(v) + rest, 0) == v % TWO16
  {
    assert v % TWO16 == v % 0x100 + 0x100 * (v / 0x100 % 0x100);
  }

  lemma {:induction false} ReadBack32(v: nat, rest: Bytes)
    ensures U32(Le32(v) + rest, 0) == v % TWO32
  {
    var t := Le32(v) + rest;
    assert t == Le16(v) + (Le16(v / TWO16) + rest);
    ReadBack16(v, Le16(v / TWO16) + rest);
    ReadBack16(v / TWO16, rest);
    assert t[2] == (Le16(v / TWO16) + rest)[0] && t[3] == (Le16(v / TWO16) + rest)[1];
    assert v % TWO32 == v % TWO16 + TWO16 * (v / TWO16 % TWO16);
  }

  /** Reading past a prefix. */
  lemma {:induction false} Past16(a: Bytes, b: Bytes, i: nat)
    requires i + 2 <= |b|
    ensures U16(a + b, |a| + i) == U16(b, i)
  {
  }

  lemma {:induction false} Past32(a: Bytes, b: Bytes, i: nat)
    requires i + 4 <= |b|
    ensures U32(a + b, |a| + i) == U32(b, i)
  {
    Past16(a, b, i);
    Past16(a, b, i + 2);
  }

  // ---- records as lists of fields --------------------------------------------------------

  /** A fixed-width field of a record. */
  datatype Field = W2(v: nat) | W4(v: nat)

  function Width(f: Field): nat { if f.W2? then 2 else 4 }

  function Pack(fs: seq<Field>): (r: Bytes)
    ensures |r| == Size(fs)
  {
    if fs == [] then []
    else (if fs[0].W2? then Le16(fs[0].v) else Le32(fs[0].v)) + Pack(fs[1..])
  }

  function Size(fs: seq<Field>): nat
  {
    if fs == [] then 0 else Width(fs[0]) + Size(fs[1..])
  }

  /** Where field `k` starts. */
  function FieldStart(fs: seq<Field>, k: nat): nat
    requires k <= |fs|
  {
    if k == 0 then 0 else FieldStart(fs, k - 1) + Width(fs[k - 1])
  }

  lemma {:induction false} FieldStartShift(fs: seq<Field>, k: nat)
    requires 0 < k <= |fs|
    ensures FieldStart(fs, k) == Width(fs[0]) + FieldStart(fs[1..], k - 1)
    decreases k
  {
    if k > 1 {
      FieldStartShift(fs, k - 1);
    }
  }

  lemma {:induction false} SizeIsEnd(fs: seq<Field>)
    ensures Size(fs) == FieldStart(fs, |fs|)
    decreases |fs|
  {
    if fs != [] {
      SizeIsEnd(fs[1..]);
      FieldStartShift(fs, |fs|);
    }
  }

  /** Field `k` is read back from where it starts, reduced to its width. */
  lemma {:induction false} ReadField(fs: seq<Field>, k: nat)
    requires k < |fs|
    ensures FieldStart(fs, k) + Width(fs[k]) <= Size(fs)
    ensures fs[k].W2? ==> U16(Pack(fs), FieldStart(fs, k)) == fs[k].v % TWO16
    ensures fs[k].W4? ==> U32(Pack(fs), FieldStart(fs, k)) == fs[k].v % TWO32
    decreases |fs|
  {
    hide U16, U32, Le16, Le32;
    var first := if fs[0].W2? then Le16(fs[0].v) else Le32(fs[0].v);
    var rest := Pack(fs[1..]);
    if k == 0 {
      if fs[0].W2? {
        ReadBack16(fs[0].v, rest);
      } else {
        ReadBack32(fs[0].v, rest);
      }
    } else {
      FieldStartShift(fs, k);
      ReadField(fs[1..], k - 1);
      if fs[k].W2? {
        Past16(first, rest, FieldStart(fs[1..], k - 1));
      } else {
        Past32(first, rest, FieldStart(fs[1..], k - 1));
      }
    }
  }

  /** `b` holds `t` at offset `i`. */
  ghost predicate At(b: Bytes, i: nat, t: Bytes)
  {
    i + |t| <= |b| && b[i..i + |t|] == t
  }

  lemma {:induction false} AtSplit(b: Bytes, i: nat, p: Bytes, q: Bytes)
    ensures At(b, i, p + q) <==> At(b, i, p) && At(b, i + |p|, q)
  {
    if At(b, i, p + q) {
      assert p == (p + q)[..|p|] && q == (p + q)[|p|..];
    }
  }

  lemma {:induction false} WordAt(b: Bytes, i: nat, t: Bytes, o: nat)
    requires At(b, i, t) && o + 2 <= |t|
    ensures U16(b, i + o) == U16(t, o)
  {
    assert b[i + o] == b[i..i + |t|][o] && b[i + o + 1] == b[i..i + |t|][o + 1];
  }

  lemma {:induction false} AtWord(b: Bytes, i: nat, t: Bytes, o: nat)
    requires At(b, i, t)
    ensures o + 2 <= |t| ==> U16(b, i + o) == U16(t, o)
    ensures o + 4 <= |t| ==> U32(b, i + o) == U32(t, o)
  {
    if o + 2 <= |t| {
      WordAt(b, i, t, o);
    }
    if o + 4 <= |t| {
      WordAt(b, i, t, o + 2);
    }
  }

  lemma {:induction false} ReadFieldAt16(b: Bytes, i: nat, fs: seq<Field>, k: nat, o: nat)
    requires At(b, i, Pack(fs)) && k < |fs| && fs[k].W2? && o == i + FieldStart(fs, k)
    ensures o + 2 <= i + Size(fs)
    ensures U16(b, o) == fs[k].v % TWO16
  {
    ReadField(fs, k);
    AtWord(b, i, Pack(fs), FieldStart(fs, k));
  }

  lemma {:induction false} ReadFieldAt32(b: Bytes, i: nat, fs: seq<Field>, k: nat, o: nat)
    requires At(b, i, Pack(fs)) && k < |fs| && fs[k].W4? && o == i + FieldStart(fs, k)
    ensures o + 4 <= i + Size(fs)
    ensures U32(b, o) == fs[k].v % TWO32
  {
    ReadField(fs, k);
    AtWord(b, i, Pack(fs), FieldStart(fs, k));
  }
}
