/**
 * Archive entries with any host, flags, method and attributes and without extra fields: where the
 * fields of their records stand, what the preflight of a candidate archive reads from them, and
 * when it lets an entry pass, in terms of these numbers.
 */
module EntryRecords {
  import opened Wrappers
  import opened ZipBytes
  import opened StoredZip
  import opened CandidateZip
  import Utf8

  /** What a writer puts into the records of one entry; `stored` is the data as compressed by the method. */
  datatype Entry = Entry(name: Bytes, stored: Bytes, expanded: nat, crc: nat, host: nat, flags: nat, method_: nat,
                         attributes: nat)

  /** The numbers fit their fields. */
  predicate Representable(e: Entry)
  {
    && |e.name| < TWO16 && e.expanded < TWO32 && e.crc < TWO32 && e.host < 0x100 && e.flags < TWO16
    && e.method_ < TWO16 && e.attributes < TWO32
  }

  predicate Small(e: Entry) { Representable(e) && |e.stored| < NO_ZIP64 }

  function LocalFieldsOf(e: Entry): seq<Field>
  {
    [W4(LOCAL_SIGNATURE), W2(20), W2(e.flags), W2(e.method_), W2(0), W2(0), W4(e.crc), W4(|e.stored|), W4(e.expanded),
     W2(|e.name|), W2(0)]
  }

  function CentralFieldsOf(e: Entry, offset: nat): seq<Field>
  {
    [W4(CENTRAL_SIGNATURE), W2(20 + 0x100 * e.host), W2(20), W2(e.flags), W2(e.method_), W2(0), W2(0), W4(e.crc),
     W4(|e.stored|), W4(e.expanded), W2(|e.name|), W2(0), W2(0), W2(0), W2(0), W4(e.attributes), W4(offset)]
  }

  /** Bit 3 of the flags: the sizes come again after the data. */
  predicate Described(e: Entry) { e.flags / 8 % 2 == 1 }

  function DescriptorFields(e: Entry): seq<Field>
  {
    [W4(DESCRIPTOR_SIGNATURE), W4(e.crc), W4(|e.stored|), W4(e.expanded)]
  }

  function DescriptorOf(e: Entry): Bytes { if Described(e) then Pack(DescriptorFields(e)) else [] }

  function LocalOfEntry(e: Entry): Bytes { Pack(LocalFieldsOf(e)) + e.name + (e.stored + DescriptorOf(e)) }

  function CentralOfEntry(e: Entry, offset: nat): Bytes { Pack(CentralFieldsOf(e, offset)) + e.name }

  function DescriptorSize(e: Entry): nat { if Described(e) then 16 else 0 }

  // ---- where the fields stand ------------------------------------------------------------------

  lemma {:induction false} LocalStarts(e: Entry, fs: seq<Field>)
    requires fs == LocalFieldsOf(e)
    ensures Size(fs) == 30 && FieldStart(fs, 2) == 6 && FieldStart(fs, 3) == 8 && FieldStart(fs, 6) == 14
    ensures FieldStart(fs, 7) == 18 && FieldStart(fs, 8) == 22 && FieldStart(fs, 9) == 26 && FieldStart(fs, 10) == 28
  {
    SizeIsEnd(fs);
    assert FieldStart(fs, 1) == 4;
    assert FieldStart(fs, 2) == 6;
    assert FieldStart(fs, 3) == 8;
    assert FieldStart(fs, 4) == 10;
    assert FieldStart(fs, 5) == 12;
    assert FieldStart(fs, 6) == 14;
    assert FieldStart(fs, 7) == 18;
    assert FieldStart(fs, 8) == 22;
    assert FieldStart(fs, 9) == 26;
    assert FieldStart(fs, 10) == 28;
  }

  lemma {:induction false} CentralStarts(e: Entry, offset: nat, fs: seq<Field>)
    requires fs == CentralFieldsOf(e, offset)
    ensures Size(fs) == 46 && FieldStart(fs, 1) == 4 && FieldStart(fs, 3) == 8 && FieldStart(fs, 4) == 10
    ensures FieldStart(fs, 7) == 16 && FieldStart(fs, 8) == 20 && FieldStart(fs, 9) == 24 && FieldStart(fs, 10) == 28
    ensures FieldStart(fs, 11) == 30 && FieldStart(fs, 12) == 32 && FieldStart(fs, 13) == 34
    ensures FieldStart(fs, 15) == 38 && FieldStart(fs, 16) == 42
  {
    SizeIsEnd(fs);
    assert FieldStart(fs, 1) == 4;
    assert FieldStart(fs, 2) == 6;
    assert FieldStart(fs, 3) == 8;
    assert FieldStart(fs, 4) == 10;
    assert FieldStart(fs, 5) == 12;
    assert FieldStart(fs, 6) == 14;
    assert FieldStart(fs, 7) == 16;
    assert FieldStart(fs, 8) == 20;
    assert FieldStart(fs, 9) == 24;
    assert FieldStart(fs, 10) == 28;
    assert FieldStart(fs, 11) == 30;
    assert FieldStart(fs, 12) == 32;
    assert FieldStart(fs, 13) == 34;
    assert FieldStart(fs, 14) == 36;
    assert FieldStart(fs, 15) == 38;
    assert FieldStart(fs, 16) == 42;
  }

  lemma {:induction false} DescriptorStarts(e: Entry, fs: seq<Field>)
    requires fs == DescriptorFields(e)
    ensures Size(fs) == 16 && FieldStart(fs, 0) == 0 && FieldStart(fs, 1) == 4 && FieldStart(fs, 2) == 8
    ensures FieldStart(fs, 3) == 12
  {
    SizeIsEnd(fs);
    assert FieldStart(fs, 1) == 4;
    assert FieldStart(fs, 2) == 8;
    assert FieldStart(fs, 3) == 12;
  }

  lemma {:induction false} RecordLengths(e: Entry, offset: nat)
    ensures |LocalOfEntry(e)| == 30 + |e.name| + |e.stored| + DescriptorSize(e)
    ensures |CentralOfEntry(e, offset)| == 46 + |e.name|
  {
    LocalStarts(e, LocalFieldsOf(e));
    CentralStarts(e, offset, CentralFieldsOf(e, offset));
    DescriptorStarts(e, DescriptorFields(e));
  }

  lemma {:induction false} StartZero(fs: seq<Field>)
    ensures FieldStart(fs, 0) == 0
  {
  }

  lemma {:induction false} LocalWords(b: Bytes, i: nat, e: Entry, fs: seq<Field>)
    requires fs == LocalFieldsOf(e) && At(b, i, Pack(fs)) && Small(e)
    ensures i + 30 <= |b| && U32(b, i) == LOCAL_SIGNATURE && U16(b, i + 6) == e.flags && U16(b, i + 8) == e.method_
    ensures U16(b, i + 26) == |e.name| && U16(b, i + 28) == 0
  {
    hide FieldStart, Size, Pack, U16, U32;
    LocalStarts(e, fs);
    StartZero(fs);
    ReadFieldAt32(b, i, fs, 0, i);
    ReadFieldAt16(b, i, fs, 2, i + 6);
    ReadFieldAt16(b, i, fs, 3, i + 8);
    ReadFieldAt16(b, i, fs, 9, i + 26);
    ReadFieldAt16(b, i, fs, 10, i + 28);
  }

  lemma {:induction false} LocalSizes(b: Bytes, i: nat, e: Entry, fs: seq<Field>)
    requires fs == LocalFieldsOf(e) && At(b, i, Pack(fs)) && Small(e)
    ensures i + 30 <= |b| && U32(b, i + 14) == e.crc
    ensures U32(b, i + 18) == |e.stored| && U32(b, i + 22) == e.expanded
  {
    hide FieldStart, Size, Pack, U16, U32;
    LocalStarts(e, fs);
    ReadFieldAt32(b, i, fs, 6, i + 14);
    ReadFieldAt32(b, i, fs, 7, i + 18);
    ReadFieldAt32(b, i, fs, 8, i + 22);
  }

  lemma {:induction false} CentralWords(b: Bytes, p: nat, e: Entry, offset: nat, fs: seq<Field>)
    requires fs == CentralFieldsOf(e, offset) && At(b, p, Pack(fs)) && Small(e)
    ensures p + 46 <= |b| && U32(b, p) == CENTRAL_SIGNATURE && U16(b, p + 4) == 20 + 0x100 * e.host
    ensures U16(b, p + 8) == e.flags && U16(b, p + 10) == e.method_ && U16(b, p + 28) == |e.name|
  {
    hide FieldStart, Size, Pack, U16, U32;
    CentralStarts(e, offset, fs);
    StartZero(fs);
    ReadFieldAt32(b, p, fs, 0, p);
    ReadFieldAt16(b, p, fs, 1, p + 4);
    ReadFieldAt16(b, p, fs, 3, p + 8);
    ReadFieldAt16(b, p, fs, 4, p + 10);
    ReadFieldAt16(b, p, fs, 10, p + 28);
  }

  lemma {:induction false} CentralZeros(b: Bytes, p: nat, e: Entry, offset: nat, fs: seq<Field>)
    requires fs == CentralFieldsOf(e, offset) && At(b, p, Pack(fs)) && Small(e)
    ensures p + 46 <= |b| && U16(b, p + 30) == 0 && U16(b, p + 32) == 0 && U16(b, p + 34) == 0
    ensures U32(b, p + 38) == e.attributes
  {
    hide FieldStart, Size, Pack, U16, U32;
    CentralStarts(e, offset, fs);
    ReadFieldAt16(b, p, fs, 11, p + 30);
    ReadFieldAt16(b, p, fs, 12, p + 32);
    ReadFieldAt16(b, p, fs, 13, p + 34);
    ReadFieldAt32(b, p, fs, 15, p + 38);
  }

  lemma {:induction false} CentralSizes(b: Bytes, p: nat, e: Entry, offset: nat, fs: seq<Field>)
    requires fs == CentralFieldsOf(e, offset) && At(b, p, Pack(fs)) && Small(e) && offset < NO_ZIP64
    ensures p + 46 <= |b| && U32(b, p + 16) == e.crc
    ensures U32(b, p + 20) == |e.stored| && U32(b, p + 24) == e.expanded && U32(b, p + 42) == offset
  {
    hide FieldStart, Size, Pack, U16, U32;
    CentralStarts(e, offset, fs);
    ReadFieldAt32(b, p, fs, 7, p + 16);
    ReadFieldAt32(b, p, fs, 8, p + 20);
    ReadFieldAt32(b, p, fs, 9, p + 24);
    ReadFieldAt32(b, p, fs, 16, p + 42);
  }

  lemma {:induction false} DescriptorWords(b: Bytes, i: nat, e: Entry, fs: seq<Field>)
    requires fs == DescriptorFields(e) && At(b, i, Pack(fs)) && Small(e)
    ensures i + 16 <= |b| && U32(b, i) == DESCRIPTOR_SIGNATURE && U32(b, i + 4) == e.crc
    ensures U32(b, i + 8) == |e.stored| && U32(b, i + 12) == e.expanded
  {
    hide FieldStart, Size, Pack, U16, U32;
    DescriptorStarts(e, fs);
    ReadFieldAt32(b, i, fs, 0, i);
    ReadFieldAt32(b, i, fs, 1, i + 4);
    ReadFieldAt32(b, i, fs, 2, i + 8);
    ReadFieldAt32(b, i, fs, 3, i + 12);
  }

  // ---- what the preflight reads ------------------------------------------------------------------

  function HeaderOfEntry(e: Entry): Header
  {
    Header(e.flags, e.method_, e.crc, |e.stored|, e.expanded, |e.name|, 0)
  }

  function CentralOf(e: Entry, local: nat): Central
  {
    Central(e.host, e.flags, e.method_, e.crc, |e.stored|, e.expanded, |e.name|, 0, 0, 0, e.attributes, local)
  }

  lemma {:induction false} LocalRead(b: Bytes, i: nat, e: Entry)
    requires At(b, i, LocalOfEntry(e)) && Small(e)
    ensures i + 30 + |e.name| + |e.stored| + DescriptorSize(e) <= |b| && U32(b, i) == LOCAL_SIGNATURE
    ensures HeaderOf(b, i) == HeaderOfEntry(e)
    ensures b[i + 30..i + 30 + |e.name|] == e.name
    ensures Described(e) ==> At(b, i + 30 + |e.name| + |e.stored|, Pack(DescriptorFields(e)))
  {
    hide U16, U32, Pack;
    var fs := LocalFieldsOf(e);
    LocalStarts(e, fs);
    DescriptorStarts(e, DescriptorFields(e));
    AtSplit(b, i, Pack(fs) + e.name, e.stored + DescriptorOf(e));
    AtSplit(b, i, Pack(fs), e.name);
    AtSplit(b, i + 30 + |e.name|, e.stored, DescriptorOf(e));
    LocalWords(b, i, e, fs);
    LocalSizes(b, i, e, fs);
  }

  lemma {:induction false} HostByte(b: Bytes, p: nat, host: nat)
    requires p + 46 <= |b| && U16(b, p + 4) == 20 + 0x100 * host
    ensures b[p + 5] as nat == host
  {
  }

  lemma {:induction false} CentralRead(b: Bytes, p: nat, e: Entry, local: nat)
    requires At(b, p, CentralOfEntry(e, local)) && Small(e) && local < NO_ZIP64
    ensures p + 46 + |e.name| <= |b| && U32(b, p) == CENTRAL_SIGNATURE
    ensures CentralAt(b, p) == CentralOf(e, local)
    ensures b[p + 46..p + 46 + |e.name|] == e.name
  {
    hide U16, U32, Pack;
    var fs := CentralFieldsOf(e, local);
    AtSplit(b, p, Pack(fs), e.name);
    CentralStarts(e, local, fs);
    CentralWords(b, p, e, local, fs);
    CentralZeros(b, p, e, local, fs);
    CentralSizes(b, p, e, local, fs);
    HostByte(b, p, e.host);
  }

  // ---- when the preflight lets a record pass -----------------------------------------------------

  predicate Ascii(b: Bytes) { forall x :: x in b ==> x < 0x80 }

  /** The name as the strict decoder reports it, if it does. */
  function Decoded(e: Entry): string
  {
    match Utf8.FatalDecode(e.name)
    case Some(s) => s
    case None => ""
  }

  /** A well-formed name, ASCII or flagged as UTF-8, that passes. */
  predicate NamePasses(policy: Policy, e: Entry)
  {
    && e.name != [] && (e.flags / 0x800 % 2 == 1 || Ascii(e.name))
    && Utf8.FatalDecode(e.name).Some? && policy.safe(Decoded(e))
  }

  /** Of the flags only bits 1, 2, 3 and 11, the first two only with compression; stored or deflated. */
  predicate MethodPasses(e: Entry)
  {
    && e.flags % 0x800 in {0, 2, 4, 6, 8, 10, 12, 14} && e.flags / 0x800 in {0, 1}
    && (e.method_ == 8 || (e.method_ == 0 && e.flags % 0x800 in {0, 8}))
  }

  /**
   * From a Unix host the mode says nothing of the kind, or a regular file or a directory as the name
   * does, and has no set-id or sticky bit; the directory attribute is only on directories.
   */
  predicate KindPasses(e: Entry, directory: bool)
  {
    && (e.host == 3 ==> e.attributes / 0x1000_0000 in {0, if directory then 4 else 8}
                        && e.attributes / 0x200_0000 % 8 == 0)
    && (!directory ==> e.attributes / 0x10 % 2 == 0)
  }

  /** The file limit, the ratio, which counts no data as one byte, and empty directories. */
  predicate SizePasses(l: Limits, e: Entry, directory: bool)
  {
    && e.expanded <= l.fileBytes && e.expanded <= (if e.stored == [] then 1 else |e.stored|) * l.ratio
    && (directory ==> e.expanded == 0 && e.stored == [])
  }

  predicate Passes(policy: Policy, l: Limits, e: Entry)
  {
    && NamePasses(policy, e) && MethodPasses(e)
    && KindPasses(e, IsDirectory(Decoded(e))) && SizePasses(l, e, IsDirectory(Decoded(e)))
  }

  function RowOf(e: Entry, p: nat, local: nat): Row
  {
    var data := local + 30 + |e.name|;
    Row(p, CentralOf(e, local), e.name, Decoded(e), data, data + |e.stored| + DescriptorSize(e))
  }

  lemma {:induction false} LowIff(low: nat)
    requires low < 0x800
    ensures low % 2 == 0 && low / 16 == 0 <==> low in {0, 2, 4, 6, 8, 10, 12, 14}
    ensures low in {0, 2, 4, 6, 8, 10, 12, 14} ==> (low / 2 % 4 == 0 <==> low in {0, 8})
  {
  }

  lemma {:induction false} LowBits(flags: nat, low: nat, high: nat)
    requires low < 0x800 && flags == low + 0x800 * high
    ensures flags % 2 == low % 2 && flags / 2 % 4 == low / 2 % 4
  {
    assert flags / 2 == low / 2 + 4 * (0x100 * high);
  }

  lemma {:induction false} MiddleBits(flags: nat, low: nat, high: nat, x: nat)
    requires low < 0x800 && flags == low + 0x800 * high && x == low / 16
    ensures flags / 16 % 128 == x
  {
    assert x < 128 && flags / 16 == x + 128 * high;
    Remainder(x, high);
  }

  lemma {:induction false} Remainder(x: nat, k: nat)
    requires x < 128
    ensures (x + 128 * k) % 128 == x
  {
  }

  lemma {:induction false} HighBits(flags: nat, low: nat, high: nat)
    requires low < 0x800 && flags == low + 0x800 * high
    ensures flags / 4096 == high / 2
  {
  }

  lemma {:induction false} FlagsIff(flags: nat)
    requires flags < TWO16
    ensures AllowedFlags(flags) <==> flags % 0x800 in {0, 2, 4, 6, 8, 10, 12, 14} && flags / 0x800 in {0, 1}
    ensures AllowedFlags(flags) ==> (flags / 2 % 4 == 0 <==> flags % 0x800 in {0, 8})
  {
    LowIff(flags % 0x800);
    LowBits(flags, flags % 0x800, flags / 0x800);
    MiddleBits(flags, flags % 0x800, flags / 0x800, flags % 0x800 / 16);
    HighBits(flags, flags % 0x800, flags / 0x800);
  }

  lemma {:induction false} FieldsIff(e: Entry, local: nat)
    requires Small(e) && local < NO_ZIP64 && e.expanded != NO_ZIP64
    ensures FieldsSound(CentralOf(e, local)) <==> MethodPasses(e) && e.name != []
    ensures IsUtf8(CentralOf(e, local)) <==> e.flags / 0x800 % 2 == 1
    ensures HasDescriptor(CentralOf(e, local)) <==> Described(e)
  {
    FlagsIff(e.flags);
  }

  lemma {:induction false} ModeIff(e: Entry, local: nat, directory: bool)
    requires Small(e)
    ensures ModeSound(CentralOf(e, local), directory) <==> KindPasses(e, directory)
  {
    var a := e.attributes;
    assert a / 0x1_0000 / 0x1000 == a / 0x1000_0000;
    assert a / 0x1_0000 / 0x200 == a / 0x200_0000;
  }

  lemma {:induction false} SizesIff(l: Limits, e: Entry, local: nat, directory: bool)
    ensures SizesSound(l, CentralOf(e, local), directory) <==> SizePasses(l, e, directory)
  {
    assert (if |e.stored| < 1 then 1 else |e.stored|) == (if e.stored == [] then 1 else |e.stored|);
  }

  lemma {:induction false} EntryIff(policy: Policy, l: Limits, e: Entry, local: nat)
    requires Small(e) && local < NO_ZIP64 && e.expanded != NO_ZIP64 && e.name != [] && MethodPasses(e)
    ensures EntrySound(policy, l, CentralOf(e, local), e.name) <==> Passes(policy, l, e)
  {
    hide Utf8.FatalDecode, IsDirectory, ModeSound, KindPasses, SizesSound, SizePasses, MethodPasses;
    FieldsIff(e, local);
    if Utf8.FatalDecode(e.name).Some? {
      ModeIff(e, local, IsDirectory(Utf8.FatalDecode(e.name).value));
      SizesIff(l, e, local, IsDirectory(Utf8.FatalDecode(e.name).value));
    }
  }

  lemma {:induction false} NoExtras(b: Bytes, i: nat)
    requires i <= |b|
    ensures ExtrasSound(b, i, i)
  {
  }

  /** The local record of an entry always agrees with its central record, and ends where it was written to end. */
  lemma {:induction false} LocalAgrees(b: Bytes, offset: nat, e: Entry, local: nat)
    requires At(b, local, LocalOfEntry(e)) && Small(e) && local < NO_ZIP64
    requires local + 30 + |e.name| + |e.stored| + DescriptorSize(e) <= offset <= |b|
    ensures LocalSound(b, offset, CentralOf(e, local), e.name)
    ensures DataAt(b, local) == local + 30 + |e.name|
    ensures Finish(b, offset, HeaderOf(b, local), CentralOf(e, local), DataAt(b, local) + |e.stored|)
            == Some(local + 30 + |e.name| + |e.stored| + DescriptorSize(e))
  {
    hide At, U16, U32, Pack, ExtrasSound;
    LocalRead(b, local, e);
    NoExtras(b, local + 30 + |e.name|);
    if Described(e) {
      DescriptorWords(b, local + 30 + |e.name| + |e.stored|, e, DescriptorFields(e));
    }
  }

  /** One entry passes exactly under these conditions on its numbers, and is reported as written. */
  lemma {:induction false} RowIff(
      policy: Policy, l: Limits, b: Bytes, end: nat, offset: nat, p: nat, e: Entry, local: nat)
    requires offset <= end <= |b| && Small(e) && local < NO_ZIP64 && l.fileBytes < NO_ZIP64
    requires At(b, local, LocalOfEntry(e)) && local + 30 + |e.name| + |e.stored| + DescriptorSize(e) <= offset
    requires At(b, p, CentralOfEntry(e, local)) && p + 46 + |e.name| <= end
    ensures RowSound(policy, l, b, end, offset, p) <==> Passes(policy, l, e)
    ensures Passes(policy, l, e) ==> RowAt(policy, l, b, end, offset, p) == RowOf(e, p, local)
  {
    hide Utf8.FatalDecode, EntrySound, LocalSound, Finish, At, U32, HeaderOf, DataAt, CentralAt, LocalOfEntry,
         CentralOfEntry, ExtrasSound, MethodPasses, NamePasses, KindPasses;
    CentralRead(b, p, e, local);
    LocalAgrees(b, offset, e, local);
    NoExtras(b, p + 46 + |e.name|);
    if e.expanded == NO_ZIP64 {
      TooLarge(policy, l, b, end, p, e, local);
    } else {
      FieldsIff(e, local);
      if Passes(policy, l, e) {
        PassesNeeds(policy, l, e);
      }
      if MethodPasses(e) && e.name != [] {
        EntryIff(policy, l, e, local);
      }
    }
  }

  lemma {:induction false} PassesNeeds(policy: Policy, l: Limits, e: Entry)
    requires Passes(policy, l, e)
    ensures MethodPasses(e) && e.name != [] && Utf8.FatalDecode(e.name).Some?
  {
  }

  lemma {:induction false} TooLarge(policy: Policy, l: Limits, b: Bytes, end: nat, p: nat, e: Entry, local: nat)
    requires end <= |b| && p + 46 <= end && CentralAt(b, p) == CentralOf(e, local)
    requires e.expanded == NO_ZIP64 && l.fileBytes < NO_ZIP64
    ensures !RecordAt(b, end, p) && !Passes(policy, l, e)
  {
    hide NamePasses, MethodPasses, KindPasses;
  }
}
