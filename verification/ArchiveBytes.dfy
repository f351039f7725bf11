/** One written archive, byte by byte. */
module ArchiveBytes {
  import opened ZipBytes
  import opened StoredZip
  import opened ZipRoundTrip
  import CrcChecks
  import Crc32
  import Utf8

  const WORD0: Bytes := [0, 0]
  const QUAD0: Bytes := [0, 0, 0, 0]

  /** Fields whose bytes are known, one after the other. */
  ghost predicate Spell(fs: seq<Field>, parts: seq<Bytes>)
  {
    |fs| == |parts| && forall k :: 0 <= k < |fs| ==> parts[k] == if fs[k].W2? then Le16(fs[k].v) else Le32(fs[k].v)
  }

  function Flat(parts: seq<Bytes>): Bytes { if parts == [] then [] else parts[0] + Flat(parts[1..]) }

  lemma {:induction false} PackSpelled(fs: seq<Field>, parts: seq<Bytes>)
    requires Spell(fs, parts)
    ensures Pack(fs) == Flat(parts)
    decreases |fs|
  {
    hide Le16, Le32;
    if fs != [] {
      PackSpelled(fs[1..], parts[1..]);
    }
  }

  const SLASHED: string := "a/b"
  const NAME: Bytes := [0x61, 0x2F, 0x62]

  const LOCAL: seq<Bytes> :=
    [[0x50, 0x4B, 3, 4], [20, 0], WORD0, WORD0, WORD0, WORD0, QUAD0, QUAD0, QUAD0, [3, 0], WORD0]

  const CENTRAL: seq<Bytes> :=
    [[0x50, 0x4B, 1, 2], [20, 0], [20, 0], WORD0, WORD0, WORD0, WORD0, QUAD0, QUAD0, QUAD0, [3, 0],
     WORD0, WORD0, WORD0, WORD0, QUAD0, QUAD0]

  const END: seq<Bytes> := [[0x50, 0x4B, 5, 6], WORD0, WORD0, [1, 0], [1, 0], [49, 0, 0, 0], [33, 0, 0, 0], WORD0]

  lemma {:induction false} Quads()
    ensures Le32(0x0403_4b50) == [0x50, 0x4B, 3, 4] && Le32(0x0201_4b50) == [0x50, 0x4B, 1, 2]
    ensures Le32(0x0605_4b50) == [0x50, 0x4B, 5, 6] && Le32(0) == QUAD0
    ensures Le32(49) == [49, 0, 0, 0] && Le32(33) == [33, 0, 0, 0]
  {
  }

  lemma {:induction false} Words()
    ensures Le16(20) == [20, 0] && Le16(0) == WORD0 && Le16(3) == [3, 0] && Le16(1) == [1, 0]
  {
  }

  lemma {:induction false} NameSpelled(f: File)
    requires f == File("a\\b", [])
    ensures NameBytes(f) == NAME
  {
    assert StoredName(f) == SLASHED;
    assert SLASHED[1..] == "/b" && "/b"[1..] == "b" && "b"[1..] == "";
    assert Utf8.Encode("b") == [0x62];
    assert Utf8.Encode("/b") == [0x2F] + [0x62];
  }

  lemma {:induction false} LocalSpelled(f: File)
    requires NameBytes(f) == NAME && f.data == []
    ensures LocalRecord(f) == Flat(LOCAL) + NAME && |LocalRecord(f)| == 33
  {
    hide Le16, Le32, Pack, Flat, NameBytes, Crc32.Crc;
    Quads();
    Words();
    CrcChecks.CheckValues();
    PackSpelled(LocalOf(f), LOCAL);
    LocalSize(f);
  }

  lemma {:induction false} CentralSpelled(f: File)
    requires NameBytes(f) == NAME && f.data == []
    ensures CentralRecord(f, 0) == Flat(CENTRAL) + NAME && |CentralRecord(f, 0)| == 49
  {
    hide Le16, Le32, Pack, Flat, NameBytes, Crc32.Crc;
    Quads();
    Words();
    CrcChecks.CheckValues();
    PackSpelled(CentralOf(f, 0), CENTRAL);
    CentralLength(CentralOf(f, 0), Crc32.Crc(f.data), |f.data|, |NameBytes(f)|, 0);
  }

  lemma {:induction false} EndSpelled()
    ensures Pack(EndFields(1, 49, 33)) == Flat(END)
  {
    hide Le16, Le32, Pack, Flat;
    Quads();
    Words();
    PackSpelled(EndFields(1, 49, 33), END);
  }

  lemma {:induction false} OneRecordEach(w: Layout, f: File)
    ensures LocalsIn(w, [f]) == w.local(f) && CentralsIn(w, [f], 0) == w.central(f, 0)
  {
    assert [f][1..] == [];
  }

  /** The archive of one empty file `a\b`: its local record, its central record and the end record. */
  lemma {:induction false} OneFileArchive()
    ensures Archive([File("a\\b", [])]) == Flat(LOCAL) + NAME + (Flat(CENTRAL) + NAME + Flat(END))
  {
    hide Pack, Flat, NameBytes, LocalRecord, CentralRecord, LocalsIn, CentralsIn, EndFields;
    var f := File("a\\b", []);
    NameSpelled(f);
    LocalSpelled(f);
    CentralSpelled(f);
    OneRecordEach(ZipLayout(), f);
    EndSpelled();
    assert Locals([f]) == LocalRecord(f) && Centrals([f]) == CentralRecord(f, 0);
  }
}
