/** Fixed values of the CRC: of no byte, of four set bytes, and of any text followed by its own checksum. */
module CrcChecks {
  import opened ZipBytes
  import opened Crc32

  const FOUR: Bytes := [0xFF, 0xFF, 0xFF, 0xFF]

  lemma {:induction false} StreamAppend(a: Bytes, b: Bytes)
    ensures Stream(a + b) == Stream(a) + Stream(b)
    decreases |a|
  {
    hide BitsOf;
    if a == [] {
      assert a + b == b;
    } else {
      StreamAppend(a[1..], b);
      assert (a + b)[1..] == a[1..] + b;
    }
  }

  lemma {:induction false} SetByte()
    ensures BitsOf(0xFF, 8) == Ones(8)
  {
    assert BitsOf(0xF, 4) == Ones(4);
    assert BitsOf(0x3F, 6) == [true, true] + BitsOf(0xF, 4);
  }

  /** `k` set bits. */
  function Ones(k: nat): Bits { seq(k, _ => true) }

  lemma {:induction false} FourSetBytes()
    ensures Stream(FOUR) == Ones(32)
  {
    hide BitsOf;
    SetByte();
    assert FOUR[1..] == [0xFF, 0xFF, 0xFF] && [0xFF as byte, 0xFF, 0xFF][1..] == [0xFF, 0xFF] && [0xFF as byte, 0xFF][1..] == [0xFF];
    assert [0xFF as byte][1..] == [];
    assert Stream([0xFF]) == Ones(8);
    assert Stream([0xFF, 0xFF]) == Ones(16);
    assert Stream([0xFF, 0xFF, 0xFF]) == Ones(24);
  }

  lemma {:induction false} ZeroStays(n: nat)
    ensures Shifts(Zeros(32), n) == Zeros(32)
  {
    if n > 0 {
      assert Shift(Zeros(32)) == Zeros(32);
      ZeroStays(n - 1);
    }
  }

  lemma {:induction false} OnesNumber(b: Bits)
    requires b == Ones(32)
    ensures NatOf(b) == 0xFFFF_FFFF
  {
    NatOfWord(b);
  }

  lemma {:induction false} ZerosNumber(b: Bits)
    requires b == Zeros(32)
    ensures NatOf(b) == 0
  {
    NatOfWord(b);
  }

  /** The checksum of no byte is 0; four set bytes clear the register, so theirs is its complement. */
  lemma {:induction false} CheckValues()
    ensures Crc([]) == 0 && Crc([0xFF, 0xFF, 0xFF, 0xFF]) == 0xFFFF_FFFF
  {
    hide Shifts, RegisterBits, Register, NatOf, Stream;
    assert CrcBits([]) == Zeros(32) by { RegisterOfNothing(AllOnes()); }
    ZerosNumber(CrcBits([]));
    FourSetBytes();
    RegisterOfStream(AllOnes(), FOUR);
    RegisterOfWord(AllOnes(), Ones(32));
    assert Ones(32) + Zeros(0) == Ones(32) && Xor(AllOnes(), Ones(32)) == Zeros(32);
    ZeroStays(32);
    assert CrcBits(FOUR) == Ones(32);
    OnesNumber(CrcBits(FOUR));
  }

  lemma {:induction false} RegisterOfNothing(c: Bits)
    requires |c| == 32
    ensures Register(c, []) == c
  {
  }

  /** A text followed by its own checksum, lowest byte first, has the same checksum whatever the text. */
  lemma {:induction false} Residue(data: Bytes, own: Bytes)
    requires Stream(own) == CrcBits(data)
    ensures CrcBits(data + own) == Xor(Shifts(Ones(32), 32), Ones(32))
  {
    hide Shifts, RegisterBits, Register;
    var c := Register(AllOnes(), data);
    RegisterOfStream(AllOnes(), data + own);
    RegisterOfStream(AllOnes(), data);
    StreamAppend(data, own);
    RegisterBitsAppend(AllOnes(), Stream(data), Stream(own));
    RegisterOfWord(c, CrcBits(data));
    assert CrcBits(data) + Zeros(0) == CrcBits(data) && AllOnes() == Ones(32);
    assert Xor(c, CrcBits(data)) == AllOnes();
  }
}
