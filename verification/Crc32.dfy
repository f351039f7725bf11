/** The two table-driven CRC-32 loops and the bit-serial CRC they compute. */
module Crc32 {
  import opened ZipBytes

  // The reflected CRC of PKWARE APPNOTE, section 4.4.7, and its burst-error guarantee. A 32-bit
  // word is its bits, least significant first.

  type Bits = seq<bool>

  function Zeros(n: nat): Bits { seq(n, i => false) }

  function Xor(a: Bits, b: Bits): (r: Bits)
    requires |a| == |b|
    ensures |r| == |a|
  {
    seq(|a|, i requires 0 <= i < |a| => a[i] != b[i])
  }

  /** The `k` low bits of `n`. */
  function BitsOf(n: nat, k: nat): (r: Bits)
    ensures |r| == k
  {
    if k == 0 then [] else [n % 2 == 1] + BitsOf(n / 2, k - 1)
  }

  function NatOf(b: Bits): nat
  {
    if b == [] then 0 else (if b[0] then 1 else 0) + 2 * NatOf(b[1..])
  }

  function Pow2(k: nat): nat { if k == 0 then 1 else 2 * Pow2(k - 1) }

  /** 0xEDB88320, lowest bit first. */
  const POLYNOMIAL: Bits := [
    false, false, false, false, false, true, false, false,
    true, true, false, false, false, false, false, true,
    false, false, false, true, true, true, false, true,
    true, false, true, true, false, true, true, true
  ]

  /** 0xFFFFFFFF. */
  function AllOnes(): Bits { seq(32, i => true) }

  /** `c >>> n`. */
  function ShiftRight(c: Bits, n: nat): Bits
    requires n <= |c|
  {
    c[n..] + Zeros(n)
  }

  /** One bit of the reflected register: `c & 1 ? 0xedb88320 ^ (c >>> 1) : c >>> 1`. */
  function Shift(c: Bits): (r: Bits)
    requires |c| == 32
    ensures |r| == 32
  {
    ShiftBy(POLYNOMIAL, c)
  }

  function ShiftBy(p: Bits, c: Bits): (r: Bits)
    requires |p| == |c| == 32
    ensures |r| == 32
  {
    if c[0] then Xor(p, ShiftRight(c, 1)) else ShiftRight(c, 1)
  }

  function Shifts(c: Bits, n: nat): (r: Bits)
    requires |c| == 32
    ensures |r| == 32
    decreases n
  {
    if n == 0 then c else Shifts(Shift(c), n - 1)
  }

  /** The bit-serial register after some bytes: each byte is mixed in, then shifted out. */
  function Register(c: Bits, data: Bytes): (r: Bits)
    requires |c| == 32
    ensures |r| == 32
    decreases |data|
  {
    if data == [] then c else Register(Shifts(Xor(c, BitsOf(data[0] as nat, 32)), 8), data[1..])
  }

  /** CRC-32 as the standard defines it. */
  function CrcBits(data: Bytes): (r: Bits)
    ensures |r| == 32
  {
    Xor(Register(AllOnes(), data), AllOnes())
  }

  function Crc(data: Bytes): nat { NatOf(CrcBits(data)) }

  // ---- bits and numbers ------------------------------------------------------------------

  lemma {:induction false} NatOfBound(b: Bits)
    ensures NatOf(b) < Pow2(|b|)
    decreases |b|
  {
    if b != [] {
      NatOfBound(b[1..]);
    }
  }

  /** A checksum fits its four-byte field. */
  lemma {:induction false} CrcBound(data: Bytes)
    ensures Crc(data) < TWO32
  {
    NatOfBound(CrcBits(data));
    assert Pow2(8) == 0x100 by { assert Pow2(4) == 16; }
    assert Pow2(16) == TWO16 by { assert Pow2(12) == 0x1000; }
    assert Pow2(24) == 0x100_0000 by { assert Pow2(20) == 0x10_0000; }
    assert Pow2(32) == TWO32 by { assert Pow2(28) == 0x1000_0000; }
  }

  lemma {:induction false} BitsOfNat(b: Bits, k: nat)
    ensures BitsOf(NatOf(b), |b| + k) == b + Zeros(k)
    decreases |b|, k
  {
    if b != [] {
      BitsOfNat(b[1..], k);
      assert NatOf(b) / 2 == NatOf(b[1..]) && (NatOf(b) % 2 == 1) == b[0];
      assert b == [b[0]] + b[1..];
    } else if k > 0 {
      BitsOfNat([], k - 1);
      assert Zeros(k) == [false] + Zeros(k - 1);
    }
  }

  lemma {:induction false} BitsOfSmall(n: nat, j: nat, k: nat)
    requires n < Pow2(j)
    ensures BitsOf(n, j + k) == BitsOf(n, j) + Zeros(k)
    decreases j, k
  {
    if j > 0 {
      BitsOfSmall(n / 2, j - 1, k);
    } else if k > 0 {
      BitsOfSmall(0, 0, k - 1);
      assert Zeros(k) == [false] + Zeros(k - 1);
    }
  }

  lemma {:induction false} BitsOfInjective(m: nat, n: nat, k: nat)
    requires m < Pow2(k) && n < Pow2(k) && BitsOf(m, k) == BitsOf(n, k)
    ensures m == n
    decreases k
  {
    if k > 0 {
      assert BitsOf(m, k)[0] == BitsOf(n, k)[0];
      assert BitsOf(m, k)[1..] == BitsOf(m / 2, k - 1) && BitsOf(n, k)[1..] == BitsOf(n / 2, k - 1);
      BitsOfInjective(m / 2, n / 2, k - 1);
    }
  }

  function One(b: bool): nat { if b then 1 else 0 }

  /** The number in eight bits from `i` on. */
  function ByteAt(b: Bits, i: nat): nat
    requires i + 8 <= |b|
  {
    One(b[i]) + 2 * One(b[i + 1]) + 4 * One(b[i + 2]) + 8 * One(b[i + 3])
    + 16 * One(b[i + 4]) + 32 * One(b[i + 5]) + 64 * One(b[i + 6]) + 128 * One(b[i + 7])
  }

  lemma {:induction false} NatOfDrop(b: Bits, i: nat)
    requires i < |b|
    ensures NatOf(b[i..]) == One(b[i]) + 2 * NatOf(b[i + 1..])
  {
    assert b[i..][1..] == b[i + 1..];
  }

  lemma {:induction false} NatOfByteAt(b: Bits, i: nat)
    requires i + 8 <= |b|
    ensures NatOf(b[i..]) == ByteAt(b, i) + 0x100 * NatOf(b[i + 8..])
  {
    NatOfDrop(b, i);
    NatOfDrop(b, i + 1);
    NatOfDrop(b, i + 2);
    NatOfDrop(b, i + 3);
    NatOfDrop(b, i + 4);
    NatOfDrop(b, i + 5);
    NatOfDrop(b, i + 6);
    NatOfDrop(b, i + 7);
  }

  lemma {:induction false} NatOfWord(b: Bits)
    requires |b| == 32
    ensures NatOf(b) == ByteAt(b, 0) + 0x100 * ByteAt(b, 8) + 0x1_0000 * ByteAt(b, 16) + 0x100_0000 * ByteAt(b, 24)
  {
    assert b[0..] == b && b[32..] == [];
    NatOfByteAt(b, 0);
    NatOfByteAt(b, 8);
    NatOfByteAt(b, 16);
    NatOfByteAt(b, 24);
  }

  lemma {:induction false} WordOfBytes(b: Bits)
    requires |b| == 32
    requires ByteAt(b, 0) == 0x20 && ByteAt(b, 8) == 0x83 && ByteAt(b, 16) == 0xB8 && ByteAt(b, 24) == 0xED
    ensures NatOf(b) == 0xEDB8_8320
  {
    NatOfWord(b);
  }

  lemma {:induction false} PolynomialBytes(p: Bits)
    requires p == POLYNOMIAL
    ensures ByteAt(p, 0) == 0x20 && ByteAt(p, 8) == 0x83 && ByteAt(p, 16) == 0xB8 && ByteAt(p, 24) == 0xED
  {
    assert p[0] == p[1] == p[2] == p[3] == p[4] == p[6] == p[7] == false && p[5];
    assert p[8] && p[9] && p[10] == p[11] == p[12] == p[13] == p[14] == false && p[15];
    assert p[16] == p[17] == p[18] == p[22] == false && p[19] && p[20] && p[21] && p[23];
    assert p[24] && !p[25] && p[26] && p[27] && !p[28] && p[29] && p[30] && p[31];
  }

  /** The polynomial is the source's constant. */
  lemma {:induction false} PolynomialNumber(p: Bits)
    requires p == POLYNOMIAL
    ensures NatOf(p) == 0xEDB8_8320
  {
    PolynomialBytes(p);
    WordOfBytes(p);
  }

  // ---- the register is linear ---------------------------------------------------------------

  lemma {:induction false} ShiftLinear(a: Bits, b: Bits)
    requires |a| == |b| == 32
    ensures Shift(Xor(a, b)) == Xor(Shift(a), Shift(b))
  {
    assert Shift(Xor(a, b)) == Xor(Shift(a), Shift(b));
  }

  lemma {:induction false} ShiftsLinear(a: Bits, b: Bits, n: nat)
    requires |a| == |b| == 32
    ensures Shifts(Xor(a, b), n) == Xor(Shifts(a, n), Shifts(b, n))
    decreases n
  {
    if n > 0 {
      ShiftLinear(a, b);
      ShiftsLinear(Shift(a), Shift(b), n - 1);
    }
  }

  lemma {:induction false} ShiftsOfHigh(t: Bits, n: nat)
    requires |t| + n == 32
    ensures Shifts(Zeros(n) + t, n) == t + Zeros(n)
    decreases n
  {
    if n > 0 {
      var h := Zeros(n) + t;
      assert Shift(h) == Zeros(n - 1) + (t + [false]);
      ShiftsOfHighStep(t, n);
    }
  }

  lemma {:induction false} ShiftsOfHighStep(t: Bits, n: nat)
    requires 0 < n && |t| + n == 32
    ensures Shifts(Zeros(n - 1) + (t + [false]), n - 1) == t + Zeros(n)
    decreases n, 0
  {
    ShiftsOfHigh(t + [false], n - 1);
    assert (t + [false]) + Zeros(n - 1) == t + Zeros(n);
  }

  // ---- the table-driven loops -----------------------------------------------------------------

  /** Both tables of the source: entry `n` is the byte `n` shifted out. */
  method CrcTable() returns (table: seq<Bits>)
    ensures |table| == 256
    ensures forall n :: 0 <= n < 256 ==> |table[n]| == 32 && table[n] == Shifts(BitsOf(n, 32), 8)
  {
    table := [];
    for n := 0 to 256
      invariant |table| == n
      invariant forall m :: 0 <= m < n ==> |table[m]| == 32 && table[m] == Shifts(BitsOf(m, 32), 8)
    {
      var c := BitsOf(n, 32);
      for k := 0 to 8
        invariant |c| == 32 && Shifts(c, 8 - k) == Shifts(BitsOf(n, 32), 8)
      {
        c := if c[0] then Xor(POLYNOMIAL, ShiftRight(c, 1)) else ShiftRight(c, 1);
      }
      table := table + [c];
    }
  }

  /** `crc32`: one table look-up a byte, `c = table[(c ^ b) & 255] ^ (c >>> 8)`. */
  method TableCrc(data: Bytes) returns (crc: Bits)
    ensures crc == CrcBits(data)
  {
    var table := CrcTable();
    var c := AllOnes();
    var i := 0;
    assert data[0..] == data;
    while i < |data|
      invariant 0 <= i <= |data| && |c| == 32
      invariant Register(c, data[i..]) == Register(AllOnes(), data)
    {
      assert data[i..][0] == data[i] && data[i..][1..] == data[i + 1..];
      TableStep(c, data[i]);
      var index := NatOf(Xor(c, BitsOf(data[i] as nat, 32))[..8]);
      c := Xor(table[index], ShiftRight(c, 8));
      i := i + 1;
    }
    return Xor(c, AllOnes());
  }

  lemma {:induction false} ByteBits(b: byte)
    ensures BitsOf(b as nat, 32) == BitsOf(b as nat, 8) + Zeros(24)
  {
    assert Pow2(8) == 0x100 by { assert Pow2(4) == 16; }
    BitsOfSmall(b as nat, 8, 24);
  }

  /** The table look-up is eight bit-serial steps. */
  lemma {:induction false} TableStep(c: Bits, b: byte)
    requires |c| == 32
    ensures var x := Xor(c, BitsOf(b as nat, 32));
            NatOf(x[..8]) < 256
            && Xor(Shifts(BitsOf(NatOf(x[..8]), 32), 8), ShiftRight(c, 8)) == Shifts(x, 8)
  {
    var x := Xor(c, BitsOf(b as nat, 32));
    var low, high := x[..8] + Zeros(24), Zeros(8) + x[8..];
    NatOfBound(x[..8]);
    assert Pow2(8) == 0x100 by { assert Pow2(4) == 16; }
    BitsOfNat(x[..8], 24);
    ByteBits(b);
    assert x == Xor(low, high);
    ShiftsLinear(low, high, 8);
    ShiftsOfHigh(x[8..], 8);
    assert x[8..] + Zeros(8) == ShiftRight(c, 8);
  }

  // ---- burst errors -----------------------------------------------------------------------------

  /** The register after single bits. */
  function RegisterBits(c: Bits, w: Bits): (r: Bits)
    requires |c| == 32
    ensures |r| == 32
    decreases |w|
  {
    if w == [] then c else RegisterBits(Shift(Xor(c, [w[0]] + Zeros(31))), w[1..])
  }

  /** The bits of a text in the order they are transmitted. */
  function Stream(data: Bytes): (r: Bits)
    ensures |r| == 8 * |data|
  {
    if data == [] then [] else BitsOf(data[0] as nat, 8) + Stream(data[1..])
  }

  lemma {:induction false} ShiftOut(y: Bits, t: Bits)
    requires |y| == 32 && |t| == 31
    ensures Shift(Xor(y, [false] + t)) == Xor(Shift(y), t + [false])
  {
    ShiftLinear(y, [false] + t);
    assert Shift([false] + t) == t + [false];
  }

  /** Up to 32 bits act on the register as one word. */
  lemma {:induction false} RegisterOfWord(c: Bits, w: Bits)
    requires |c| == 32 && |w| <= 32
    ensures RegisterBits(c, w) == Shifts(Xor(c, w + Zeros(32 - |w|)), |w|)
    decreases |w|
  {
    if w == [] {
      assert Xor(c, w + Zeros(32)) == c;
    } else {
      var y := Xor(c, [w[0]] + Zeros(31));
      var t := w[1..] + Zeros(32 - |w|);
      assert Xor(c, w + Zeros(32 - |w|)) == Xor(y, [false] + t);
      ShiftOut(y, t);
      assert t + [false] == w[1..] + Zeros(32 - |w[1..]|);
      RegisterOfWord(Shift(y), w[1..]);
    }
  }

  lemma {:induction false} RegisterBitsAppend(c: Bits, u: Bits, v: Bits)
    requires |c| == 32
    ensures RegisterBits(c, u + v) == RegisterBits(RegisterBits(c, u), v)
    decreases |u|
  {
    if u == [] {
      assert u + v == v;
    } else {
      assert (u + v)[1..] == u[1..] + v;
      RegisterBitsAppend(Shift(Xor(c, [u[0]] + Zeros(31))), u[1..], v);
    }
  }

  lemma {:induction false} RegisterOfStream(c: Bits, data: Bytes)
    requires |c| == 32
    ensures Register(c, data) == RegisterBits(c, Stream(data))
    decreases |data|
  {
    if data != [] {
      var w := BitsOf(data[0] as nat, 8);
      ByteBits(data[0]);
      RegisterOfWord(c, w);
      RegisterOfStream(RegisterBits(c, w), data[1..]);
      RegisterBitsAppend(c, w, Stream(data[1..]));
    }
  }

  /** When the top bit of `p` is set it remembers the bit that was shifted out. */
  lemma {:induction false} ShiftByInjective(p: Bits, a: Bits, b: Bits)
    requires |p| == |a| == |b| == 32 && p[31] && ShiftBy(p, a) == ShiftBy(p, b)
    ensures a == b
  {
    var x, y := ShiftRight(a, 1), ShiftRight(b, 1);
    assert ShiftBy(p, a)[31] == a[0] && ShiftBy(p, b)[31] == b[0];
    forall i | 1 <= i < 32
      ensures a[i] == b[i]
    {
      assert x[i - 1] == a[i] && y[i - 1] == b[i];
      assert Xor(p, x)[i - 1] == (p[i - 1] != x[i - 1]) && Xor(p, y)[i - 1] == (p[i - 1] != y[i - 1]);
    }
  }

  /** Different words have different successors: with `ShiftOnto`, each register step is a bijection. */
  lemma {:induction false} ShiftInjective(a: Bits, b: Bits)
    requires |a| == |b| == 32 && Shift(a) == Shift(b)
    ensures a == b
  {
    ShiftByInjective(POLYNOMIAL, a, b);
  }

  lemma {:induction false} ShiftByOnto(p: Bits, c: Bits) returns (a: Bits)
    requires |p| == |c| == 32 && p[31]
    ensures |a| == 32 && ShiftBy(p, a) == c
  {
    var d := if c[31] then Xor(p, c) else c;
    a := [c[31]] + d[..31];
    assert ShiftRight(a, 1) == d by {
      assert a[1..] == d[..31] && !d[31] && Zeros(1) == [false];
    }
    if c[31] {
      assert forall i :: 0 <= i < 32 ==> Xor(p, d)[i] == c[i];
      assert Xor(p, d) == c;
    }
  }

  /** Every word is the result of a step, and by `ShiftInjective` of one only. */
  lemma {:induction false} ShiftOnto(c: Bits) returns (a: Bits)
    requires |c| == 32
    ensures |a| == 32 && Shift(a) == c && forall b: Bits :: |b| == 32 && Shift(b) == c ==> b == a
  {
    a := ShiftByOnto(POLYNOMIAL, c);
    forall b: Bits | |b| == 32 && Shift(b) == c ensures b == a {
      ShiftInjective(a, b);
    }
  }

  lemma {:induction false} ShiftsInjective(a: Bits, b: Bits, n: nat)
    requires |a| == |b| == 32 && Shifts(a, n) == Shifts(b, n)
    ensures a == b
    decreases n
  {
    if n > 0 {
      ShiftsInjective(Shift(a), Shift(b), n - 1);
      ShiftInjective(a, b);
    }
  }

  lemma {:induction false} XorCancels(a: Bits, b: Bits, c: Bits)
    requires |a| == |b| == |c| && Xor(a, c) == Xor(b, c)
    ensures a == b
  {
    forall i | 0 <= i < |a|
      ensures a[i] == b[i]
    {
      assert Xor(a, c)[i] == Xor(b, c)[i];
    }
  }

  lemma {:induction false} RegisterBitsInjective(a: Bits, b: Bits, w: Bits)
    requires |a| == |b| == 32 && RegisterBits(a, w) == RegisterBits(b, w)
    ensures a == b
    decreases |w|
  {
    if w != [] {
      var x := [w[0]] + Zeros(31);
      RegisterBitsInjective(Shift(Xor(a, x)), Shift(Xor(b, x)), w[1..]);
      ShiftInjective(Xor(a, x), Xor(b, x));
      XorCancels(a, b, x);
    }
  }

  lemma {:induction false} BurstChangesRegister(c: Bits, u: Bits, v: Bits)
    requires |c| == 32 && |u| == |v| <= 32 && RegisterBits(c, u) == RegisterBits(c, v)
    ensures u == v
  {
    var z := Zeros(32 - |u|);
    RegisterOfWord(c, u);
    RegisterOfWord(c, v);
    ShiftsInjective(Xor(c, u + z), Xor(c, v + z), |u|);
    assert Xor(u + z, c) == Xor(c, u + z) && Xor(v + z, c) == Xor(c, v + z);
    XorCancels(u + z, v + z, c);
    assert u == (u + z)[..|u|] && v == (v + z)[..|v|];
  }

  lemma {:induction false} StreamInjective(x: Bytes, y: Bytes)
    requires |x| == |y| && Stream(x) == Stream(y)
    ensures x == y
    decreases |x|
  {
    if x != [] {
      assert Stream(x)[..8] == BitsOf(x[0] as nat, 8) && Stream(y)[..8] == BitsOf(y[0] as nat, 8);
      assert Stream(x)[8..] == Stream(x[1..]) && Stream(y)[8..] == Stream(y[1..]);
      assert Pow2(8) == 0x100 by { assert Pow2(4) == 16; }
      BitsOfInjective(x[0] as nat, y[0] as nat, 8);
      StreamInjective(x[1..], y[1..]);
    }
  }

  /** Equally long texts that differ only within 32 consecutive bits never have the same CRC. */
  lemma {:induction false} BurstDetected(x: Bytes, y: Bytes, i: nat, n: nat)
    requires |x| == |y| && x != y && n <= 32 && i + n <= 8 * |x|
    requires Stream(x)[..i] == Stream(y)[..i] && Stream(x)[i + n..] == Stream(y)[i + n..]
    ensures CrcBits(x) != CrcBits(y) && Crc(x) != Crc(y)
  {
    var p, u, v, s := Stream(x)[..i], Stream(x)[i..i + n], Stream(y)[i..i + n], Stream(x)[i + n..];
    assert Stream(x) == p + (u + s) && Stream(y) == p + (v + s);
    if CrcBits(x) == CrcBits(y) {
      XorCancels(Register(AllOnes(), x), Register(AllOnes(), y), AllOnes());
      RegisterOfStream(AllOnes(), x);
      RegisterOfStream(AllOnes(), y);
      RegisterBitsAppend(AllOnes(), p, u + s);
      RegisterBitsAppend(AllOnes(), p, v + s);
      var c := RegisterBits(AllOnes(), p);
      RegisterBitsAppend(c, u, s);
      RegisterBitsAppend(c, v, s);
      RegisterBitsInjective(RegisterBits(c, u), RegisterBits(c, v), s);
      BurstChangesRegister(c, u, v);
      StreamInjective(x, y);
    }
    BitsOfNat(CrcBits(x), 0);
    BitsOfNat(CrcBits(y), 0);
    assert CrcBits(x) + Zeros(0) == CrcBits(x) && CrcBits(y) + Zeros(0) == CrcBits(y);
  }
}
