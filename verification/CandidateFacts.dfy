/** What an accepted candidate archive is known to hold, in the numbers and characters of its bytes. */
module CandidateFacts {
  import opened Wrappers
  import opened ZipBytes
  import opened CandidateZip
  import opened CandidatePreflight
  import CandidateTiling
  import EntryRecords
  import SlashPaths
  import Utf8

  // ---- the end record and the limits -----------------------------------------------------

  /** The bounds and the end record of an accepted archive. */
  lemma {:induction false} AcceptedBounds(names: Names, l: Limits, b: Bytes, end: nat, rows: seq<Row>)
    requires Accepted(names, l, b, end, rows)
    ensures 22 <= |b| <= l.archiveBytes <= 67108864 && Total(rows) <= l.totalBytes <= 268435456
    ensures 0 < |rows| <= l.entries <= 50000
    ensures l.fileBytes <= 8388608 && l.ratio <= 200 && l.depth <= 32 && l.pathBytes <= 1024
    ensures end + 22 <= |b| && U32(b, end) == 0x0605_4b50 && end + 22 + U16(b, end + 20) == |b|
    ensures U16(b, end + 4) == 0 && U16(b, end + 6) == 0 && U16(b, end + 8) == U16(b, end + 10) == |rows|
    ensures U32(b, end + 12) != 0xffff_ffff && U32(b, end + 16) != 0xffff_ffff && |rows| != 0xffff
    ensures U32(b, end + 12) + U32(b, end + 16) == end
  {
    hide U16, U32, Listed, ListSound, LastEnd;
    CandidateTiling.AcceptedRows(names, l, b, end, rows);
    TotalBounded(names, l, rows, U32(b, end + 16));
    EndIsLast(b, |b| - 22);
  }

  lemma {:induction false} TotalBounded(names: Names, l: Limits, rows: seq<Row>, offset: nat)
    requires ListSound(names, l, rows, offset)
    ensures Total(rows) <= l.totalBytes
  {
  }

  lemma {:induction false} EndIsLast(b: Bytes, i: nat)
    requires i + 22 <= |b|
    ensures LastEnd(b, i).Some? ==> EndAt(b, LastEnd(b, i).value)
  {
  }

  // ---- the records of one entry ------------------------------------------------------------

  predicate EndsWithSlash(raw: string) { raw != [] && raw[|raw| - 1] == '/' }

  /** The numbers of a central record at `p` for the entry named `raw`. */
  predicate CentralNumbers(l: Limits, b: Bytes, end: nat, p: nat, raw: string)
    requires end <= |b|
  {
    && p + 46 <= end && U32(b, p) == 0x0201_4b50 && U16(b, p + 34) == 0
    && var flags, method_, attributes := U16(b, p + 8), U16(b, p + 10), U32(b, p + 38);
       var compressed, expanded := U32(b, p + 20), U32(b, p + 24);
    && flags % 0x800 in {0, 2, 4, 6, 8, 10, 12, 14} && flags / 0x800 in {0, 1}
    && (method_ == 8 || (method_ == 0 && flags % 0x800 in {0, 8}))
    && (b[p + 5] == 3 ==> attributes / 0x1000_0000 in {0, if EndsWithSlash(raw) then 4 else 8}
                          && attributes / 0x200_0000 % 8 == 0)
    && (!EndsWithSlash(raw) ==> attributes / 0x10 % 2 == 0)
    && expanded <= l.fileBytes && expanded <= (if compressed == 0 then 1 else compressed) * l.ratio
    && (EndsWithSlash(raw) ==> expanded == 0 && compressed == 0)
    && U16(b, p + 28) > 0 && p + 46 + U16(b, p + 28) + U16(b, p + 30) + U16(b, p + 32) <= end
  }

  /** The name of a central record: its bytes decode strictly, and are ASCII unless flagged as UTF-8. */
  predicate NameNumbers(b: Bytes, end: nat, p: nat, raw: string)
    requires end <= |b| && p + 46 <= end && p + 46 + U16(b, p + 28) <= end
  {
    var bytes := b[p + 46..p + 46 + U16(b, p + 28)];
    && Utf8.FatalDecode(bytes) == Some(raw)
    && (U16(b, p + 8) / 0x800 == 1 || forall x :: x in bytes ==> x < 0x80)
  }

  /** The local record that a central record at `p` names: same flags, method and name, and the sizes where they stand. */
  predicate LocalNumbers(b: Bytes, end: nat, p: nat, offset: nat)
    requires offset <= end <= |b| && p + 46 <= end && p + 46 + U16(b, p + 28) <= end
  {
    var i := U32(b, p + 42);
    && i + 30 <= offset && U32(b, i) == 0x0403_4b50
    && U16(b, i + 6) == U16(b, p + 8) && U16(b, i + 8) == U16(b, p + 10)
    && U16(b, i + 26) == U16(b, p + 28)
    && var data := i + 30 + U16(b, i + 26) + U16(b, i + 28);
       var after := data + U32(b, p + 20);
    && after <= offset && b[i + 30..i + 30 + U16(b, i + 26)] == b[p + 46..p + 46 + U16(b, p + 28)]
    && if U16(b, p + 8) / 8 % 2 == 0 then SizesAt(b, i + 14, p)
       else (after + 16 <= offset && U32(b, after) == 0x0807_4b50 && SizesAt(b, after + 4, p))
            || (after + 12 <= offset && SizesAt(b, after, p))
  }

  /** Checksum, compressed and expanded size at `i` are those of the central record at `p`. */
  predicate SizesAt(b: Bytes, i: nat, p: nat)
    requires i + 12 <= |b| && p + 46 <= |b|
  {
    U32(b, i) == U32(b, p + 16) && U32(b, i + 4) == U32(b, p + 20) && U32(b, i + 8) == U32(b, p + 24)
  }

  lemma {:induction false} FieldNumbers(c: Central)
    requires c.flags < TWO16 && FieldsSound(c)
    ensures c.flags % 0x800 in {0, 2, 4, 6, 8, 10, 12, 14} && c.flags / 0x800 in {0, 1}
    ensures c.compression == 8 || (c.compression == 0 && c.flags % 0x800 in {0, 8})
    ensures IsUtf8(c) <==> c.flags / 0x800 == 1
  {
    EntryRecords.FlagsIff(c.flags);
  }

  lemma {:induction false} ModeNumbers(c: Central, directory: bool)
    requires ModeSound(c, directory)
    ensures c.host == 3 ==> c.attributes / 0x1000_0000 in {0, if directory then 4 else 8}
    ensures c.host == 3 ==> c.attributes / 0x200_0000 % 8 == 0
    ensures !directory ==> c.attributes / 0x10 % 2 == 0
  {
    assert c.attributes / 0x1_0000 / 0x1000 == c.attributes / 0x1000_0000;
    assert c.attributes / 0x1_0000 / 0x200 == c.attributes / 0x200_0000;
  }

  lemma {:induction false} CentralFacts(policy: Policy, l: Limits, b: Bytes, end: nat, p: nat, raw: string)
    requires end <= |b| && CentralSound(policy, l, b, end, p) && Utf8.FatalDecode(NameAt(b, end, p)) == Some(raw)
    ensures CentralNumbers(l, b, end, p, raw) && NameNumbers(b, end, p, raw)
  {
    hide U16, U32, Utf8.FatalDecode, ModeSound, AllowedFlags, ExtrasSound;
    var c := CentralAt(b, p);
    FieldNumbers(c);
    ModeNumbers(c, IsDirectory(raw));
  }

  lemma {:induction false} LocalFacts(b: Bytes, end: nat, offset: nat, p: nat, c: Central, nameBytes: Bytes)
    requires offset <= end <= |b| && p + 46 <= end && c == CentralAt(b, p) && p + 46 + c.nameLength <= end
    requires nameBytes == b[p + 46..p + 46 + c.nameLength] && LocalSound(b, offset, c, nameBytes)
    ensures LocalNumbers(b, end, p, offset)
  {
    hide U16, U32, ExtrasSound;
    assert |b[c.local + 30..c.local + 30 + U16(b, c.local + 26)]| == U16(b, c.local + 26);
  }

  /** Every entry of an accepted archive has these records. */
  lemma {:induction false} AcceptedFields(names: Names, l: Limits, b: Bytes, end: nat, rows: seq<Row>, row: Row)
    requires Accepted(names, l, b, end, rows) && row in rows
    ensures CentralNumbers(l, b, end, row.pos, row.raw) && NameNumbers(b, end, row.pos, row.raw)
    ensures LocalNumbers(b, end, row.pos, U32(b, end + 16))
    ensures SafePath(names, l, row.raw)
  {
    hide U16, U32, ListSound, LastEnd, Listed, EndSound, EntrySound, LocalSound, CentralNumbers, NameNumbers, LocalNumbers,
         Utf8.FatalDecode, SafePath, FieldsSound, ExtrasSound;
    CandidateTiling.AcceptedRows(names, l, b, end, rows);
    var offset := U32(b, end + 16);
    RowReads(names, l, b, end, offset, row);
    CentralFacts(PolicyOf(names, l), l, b, end, row.pos, row.raw);
    LocalFacts(b, end, offset, row.pos, CentralAt(b, row.pos), NameAt(b, end, row.pos));
  }

  lemma {:induction false} RowReads(names: Names, l: Limits, b: Bytes, end: nat, offset: nat, row: Row)
    requires offset <= end <= |b| && Reader(PolicyOf(names, l), l, b, end, offset)(row.pos) == Some(row)
    ensures RowSound(PolicyOf(names, l), l, b, end, offset, row.pos)
    ensures Utf8.FatalDecode(NameAt(b, end, row.pos)) == Some(row.raw) && SafePath(names, l, row.raw)
  {
    hide U16, U32, Utf8.FatalDecode, SafePath, LocalSound;
  }

  // ---- the extra areas -----------------------------------------------------------------------

  /** A block of an extra area. */
  datatype Block = Block(id: nat, data: Bytes)

  predicate BlockFits(x: Block) { x.id < TWO16 && |x.data| < TWO16 }

  function BlockBytes(x: Block): Bytes { Pack([W2(x.id), W2(|x.data|)]) + x.data }

  function AreaOf(blocks: seq<Block>): Bytes
  {
    if blocks == [] then [] else BlockBytes(blocks[0]) + AreaOf(blocks[1..])
  }

  lemma {:induction false} BlockRead(b: Bytes, i: nat, x: Block)
    requires At(b, i, BlockBytes(x)) && BlockFits(x)
    ensures |BlockBytes(x)| == 4 + |x.data| && i + 4 + |x.data| <= |b|
    ensures U16(b, i) == x.id && U16(b, i + 2) == |x.data|
  {
    hide U16, Pack;
    var fs := [W2(x.id), W2(|x.data|)];
    SizeIsEnd(fs);
    assert FieldStart(fs, 0) == 0 && FieldStart(fs, 1) == 2 && FieldStart(fs, 2) == 4;
    AtSplit(b, i, Pack(fs), x.data);
    ReadFieldAt16(b, i, fs, 0, i);
    ReadFieldAt16(b, i, fs, 1, i + 2);
  }

  /** An extra area of whole blocks is sound exactly when none of them is for ZIP64 or a Unicode path. */
  lemma {:induction false} ExtrasIff(b: Bytes, i: nat, end: nat, blocks: seq<Block>)
    requires At(b, i, AreaOf(blocks)) && end == i + |AreaOf(blocks)| && forall x :: x in blocks ==> BlockFits(x)
    ensures ExtrasSound(b, i, end) <==> forall x :: x in blocks ==> x.id != 0x0001 && x.id != 0x7075
    decreases |blocks|
  {
    hide U16, At, BlockBytes, BlockFits;
    if blocks != [] {
      var x, next := blocks[0], i + |BlockBytes(blocks[0])|;
      assert forall y :: y in blocks <==> y == x || y in blocks[1..];
      AtSplit(b, i, BlockBytes(x), AreaOf(blocks[1..]));
      BlockRead(b, i, x);
      ExtrasIff(b, next, end, blocks[1..]);
    } else {
      AreaInside(b, i);
    }
  }

  lemma {:induction false} AreaInside(b: Bytes, i: nat)
    requires At(b, i, [])
    ensures i <= |b|
  {
  }

  // ---- the names -----------------------------------------------------------------------------

  /** A part of a path that passes on every platform. */
  predicate GoodPart(names: Names, part: string)
  {
    && part !in ["", ".", ".."] && part[|part| - 1] !in ['.', ' '] && !names.reserved(part)
    && forall c :: c in part ==> c as int >= 0x20 && c as int != 0x7F && c !in ['/', '\\', ':']
  }

  /** Parts joined by slashes, with a slash at the end for a directory. */
  function Spelled(parts: seq<string>, directory: bool): string
    requires parts != []
  {
    SlashPaths.Join(parts) + if directory then "/" else ""
  }

  lemma {:induction false} GoodPartIff(names: Names, part: string)
    requires '/' !in part
    ensures GoodPart(names, part) <==> SafePart(names, part) && forall c :: c in part ==> !ForbiddenChar(c)
  {
  }

  /**
   * A path passes if and only if it is good parts joined by slashes, with a slash at the end for a
   * directory, not too many and not too long, in normal form.
   */
  lemma {:induction false} SafePathIff(names: Names, l: Limits, raw: string)
    ensures SafePath(names, l, raw) <==>
            && |Utf8.Encode(raw)| <= l.pathBytes && names.nfc(raw)
            && exists parts, directory ::
                 && 1 <= |parts| <= l.depth && raw == Spelled(parts, directory)
                 && forall part :: part in parts ==> GoodPart(names, part)
  {
    hide GoodPart, SafePart, ForbiddenChar, Utf8.Encode;
    if SafePath(names, l, raw) {
      SafeIsSpelled(names, l, raw);
    }
    if parts, directory :| 1 <= |parts| <= l.depth && raw == Spelled(parts, directory)
                           && (forall part :: part in parts ==> GoodPart(names, part))
                           && |Utf8.Encode(raw)| <= l.pathBytes && names.nfc(raw) {
      SpelledIsSafe(names, l, raw, parts, directory);
    }
  }

  lemma {:induction false} SafeIsSpelled(names: Names, l: Limits, raw: string)
    requires SafePath(names, l, raw)
    ensures exists parts, directory ::
              && 1 <= |parts| <= l.depth && raw == Spelled(parts, directory)
              && forall part :: part in parts ==> GoodPart(names, part)
  {
    hide GoodPart, SafePart, ForbiddenChar, Utf8.Encode;
    var path := PathOf(raw);
    var parts := SlashPaths.Split(path);
    SlashPaths.JoinSplit(path);
    SlashPaths.SplitChars(path);
    assert forall c :: c in path ==> c in raw;
    forall part | part in parts ensures GoodPart(names, part) {
      var i :| 0 <= i < |parts| && parts[i] == part;
      GoodPartIff(names, part);
    }
    assert raw == Spelled(parts, IsDirectory(raw));
  }

  lemma {:induction false} SpelledIsSafe(names: Names, l: Limits, raw: string, parts: seq<string>, directory: bool)
    requires 1 <= |parts| <= l.depth && raw == Spelled(parts, directory)
    requires forall part :: part in parts ==> GoodPart(names, part)
    requires |Utf8.Encode(raw)| <= l.pathBytes && names.nfc(raw)
    ensures SafePath(names, l, raw)
  {
    hide Utf8.Encode, SafePart, ForbiddenChar;
    var path := SlashPaths.Join(parts);
    forall part | part in parts
      ensures '/' !in part && part != "" && SafePart(names, part) && forall c :: c in part ==> !ForbiddenChar(c)
    {
      GoodPartIff(names, part);
    }
    forall i | 0 <= i < |parts| ensures parts[i] != "" {
      assert parts[i] in parts;
    }
    SlashPaths.JoinEnds(parts);
    SlashPaths.JoinChars(parts);
    SlashPaths.SplitJoin(parts);
    SlashAllowed();
    assert parts[0] in parts && parts[|parts| - 1] in parts;
    assert PathOf(raw) == path;
    forall c | c in raw ensures !ForbiddenChar(c) {
      assert c in path || c == '/';
    }
  }

  lemma {:induction false} SlashAllowed()
    ensures !ForbiddenChar('/')
  {
  }
}
