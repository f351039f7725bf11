/**
 * `preflightCandidateZip`: which byte buffers it lets through, and what it reports of them.
 * The layout is PKWARE APPNOTE sections 4.3.7, 4.3.9, 4.3.12 and 4.3.16.
 */
module CandidateZip {
  import opened Wrappers
  import opened ZipBytes
  import opened StoredZip
  import Utf8
  import SlashPaths

  datatype Limits = Limits(archiveBytes: nat, totalBytes: nat, fileBytes: nat, entries: nat, ratio: nat, depth: nat,
                           pathBytes: nat)

  const CANDIDATE_LIMITS: Limits := Limits(64 * 1024 * 1024, 256 * 1024 * 1024, 8 * 1024 * 1024, 50000, 200, 32, 1024)

  /** What `limitsFor` lets a caller ask for. */
  predicate Tightened(l: Limits)
  {
    && 1 <= l.archiveBytes <= 64 * 1024 * 1024 && 1 <= l.totalBytes <= 256 * 1024 * 1024
    && 1 <= l.fileBytes <= 8 * 1024 * 1024 && 1 <= l.entries <= 50000 && 1 <= l.ratio <= 200
    && 1 <= l.depth <= 32 && 1 <= l.pathBytes <= 1024
  }

  /** NFC, lower case and the reserved-device-name pattern, of which nothing is assumed. */
  datatype Names = Names(nfc: string -> bool, lower: string -> string, reserved: string -> bool)

  const NO_ZIP64: nat := 0xffff_ffff
  const DESCRIPTOR_SIGNATURE: nat := 0x0807_4b50

  // ---- the end record ------------------------------------------------------------------------

  predicate EndAt(b: Bytes, i: nat)
  {
    i + 22 <= |b| && U32(b, i) == END_SIGNATURE && i + 22 + U16(b, i + 20) == |b|
  }

  /** The last end record at or before `i`. */
  function LastEnd(b: Bytes, i: nat): (r: Option<nat>)
    ensures r.Some? ==> r.value <= i && EndAt(b, r.value)
    ensures r.Some? ==> forall j :: r.value < j <= i ==> !EndAt(b, j)
    ensures r.None? ==> forall j :: 0 <= j <= i ==> !EndAt(b, j)
  {
    if EndAt(b, i) then Some(i) else if i == 0 then None else LastEnd(b, i - 1)
  }

  /** The backward search over the last 65557 bytes misses no end record: a comment is at most 65535 bytes. */
  method FindEnd(b: Bytes) returns (end: Option<nat>)
    requires |b| >= 22
    ensures end == LastEnd(b, |b| - 22)
  {
    var i := |b| - 22;
    var least := if |b| < 65557 then 0 else |b| - 65557;
    while i >= least
      invariant least - 1 <= i <= |b| - 22
      invariant i >= 0 ==> LastEnd(b, |b| - 22) == LastEnd(b, i)
      invariant forall j :: i < j <= |b| - 22 ==> !EndAt(b, j)
    {
      if U32(b, i) == END_SIGNATURE && i + 22 + U16(b, i + 20) == |b| {
        return Some(i);
      }
      i := i - 1;
    }
    forall j | 0 <= j <= |b| - 22
      ensures !EndAt(b, j)
    {
    }
    return None;
  }

  /** One disk, no ZIP64, a number of entries within the limit and a directory that ends at the end record. */
  predicate EndSound(l: Limits, b: Bytes, end: nat)
    requires end + 22 <= |b|
  {
    var count, size, offset := U16(b, end + 10), U32(b, end + 12), U32(b, end + 16);
    && U16(b, end + 4) == 0 && U16(b, end + 6) == 0 && U16(b, end + 8) == count
    && count != 0xffff && size != NO_ZIP64 && offset != NO_ZIP64
    && 0 < count <= l.entries && offset + size == end
  }

  // ---- names ---------------------------------------------------------------------------------

  predicate ForbiddenChar(c: char) { c == '\\' || c == ':' || c as int < 0x20 || c as int == 0x7f }

  predicate SafePart(names: Names, part: string)
  {
    && part != "" && part != "." && part != ".." && part[|part| - 1] != '.' && part[|part| - 1] != ' '
    && !names.reserved(part)
  }

  predicate IsDirectory(raw: string) { raw != [] && raw[|raw| - 1] == '/' }

  /** `raw` without the slash that marks a directory. */
  function PathOf(raw: string): string
  {
    if IsDirectory(raw) then raw[..|raw| - 1] else raw
  }

  predicate SafePath(names: Names, l: Limits, raw: string)
  {
    var parts := SlashPaths.Split(PathOf(raw));
    && raw != [] && |Utf8.Encode(raw)| <= l.pathBytes && raw[0] != '/' && names.nfc(raw)
    && (forall c :: c in raw ==> !ForbiddenChar(c))
    && |parts| <= l.depth && (forall part :: part in parts ==> SafePart(names, part))
  }

  // ---- the records of one entry --------------------------------------------------------------

  /** The fixed fields of a central record that the preflight reads. */
  datatype Central = Central(host: nat, flags: nat, compression: nat, crc: nat, compressed: nat, expanded: nat,
                             nameLength: nat, extraLength: nat, commentLength: nat, disk: nat, attributes: nat, local: nat)

  function CentralAt(b: Bytes, p: nat): Central
    requires p + 46 <= |b|
  {
    Central(b[p + 5] as nat, U16(b, p + 8), U16(b, p + 10), U32(b, p + 16), U32(b, p + 20), U32(b, p + 24),
            U16(b, p + 28), U16(b, p + 30), U16(b, p + 32), U16(b, p + 34), U32(b, p + 38), U32(b, p + 42))
  }

  /** `!(flags & ~0x080e)`: only bits 1, 2, 3 and 11. */
  predicate AllowedFlags(flags: nat) { flags % 2 == 0 && flags / 16 % 128 == 0 && flags / 4096 == 0 }

  predicate HasDescriptor(c: Central) { c.flags / 8 % 2 == 1 }

  predicate IsUtf8(c: Central) { c.flags / 2048 % 2 == 1 }

  predicate FieldsSound(c: Central)
  {
    && c.disk == 0 && c.compressed != NO_ZIP64 && c.expanded != NO_ZIP64 && c.local != NO_ZIP64
    && AllowedFlags(c.flags) && (c.compression == 0 || c.compression == 8)
    && (c.compression == 0 ==> c.flags / 2 % 4 == 0) && c.nameLength > 0
  }

  function Mode(c: Central): nat { if c.host == 3 then c.attributes / 0x1_0000 else 0 }

  /** No special file, no set-id or sticky bit, and a type that agrees with the name. */
  predicate ModeSound(c: Central, directory: bool)
  {
    var kind := Mode(c) / 0x1000;
    && (kind == 0 || kind == if directory then 4 else 8)
    && Mode(c) / 0x200 % 8 == 0
    && (c.attributes / 0x10 % 2 == 1 ==> directory)
  }

  predicate SizesSound(l: Limits, c: Central, directory: bool)
  {
    && c.expanded <= l.fileBytes && c.expanded <= (if c.compressed < 1 then 1 else c.compressed) * l.ratio
    && (directory ==> c.expanded == 0 && c.compressed == 0)
  }

  /** The extra fields in `[i, end)` are whole blocks, none of them ZIP64 or a Unicode path. */
  predicate ExtrasSound(b: Bytes, i: nat, end: nat)
    decreases end - i
  {
    end <= |b| &&
    (i < end ==>
      && i + 4 <= end && U16(b, i) != 1 && U16(b, i) != 0x7075
      && i + 4 + U16(b, i + 2) <= end
      && ExtrasSound(b, i + 4 + U16(b, i + 2), end))
  }

  /** `extras`. */
  method Extras(b: Bytes, start: nat, size: nat) returns (ok: bool)
    ensures ok <==> ExtrasSound(b, start, start + size)
  {
    var i, end := start, start + size;
    if end > |b| {
      return false;
    }
    while i < end
      invariant i <= end
      invariant ExtrasSound(b, start, end) == ExtrasSound(b, i, end)
      decreases end - i
    {
      if i + 4 > end {
        return false;
      }
      var id, n := U16(b, i), U16(b, i + 2);
      if i + 4 + n > end || id == 1 || id == 0x7075 {
        return false;
      }
      i := i + 4 + n;
    }
    return true;
  }

  /** A data descriptor at `i`, after its optional signature. */
  predicate DescriptorAt(b: Bytes, i: nat, c: Central)
    requires i + 12 <= |b|
  {
    U32(b, i) == c.crc && U32(b, i + 4) == c.compressed && U32(b, i + 8) == c.expanded
  }

  /** Where the local record ends whose data ends at `dataEnd`; `None` when its sizes disagree. */
  function Finish(b: Bytes, offset: nat, h: Header, c: Central, dataEnd: nat): (r: Option<nat>)
    requires offset <= |b|
    ensures r.Some? ==> dataEnd <= r.value
    ensures r.Some? && dataEnd <= offset ==> r.value <= offset
  {
    if !HasDescriptor(c) then
      if h.crc == c.crc && h.compressed == c.compressed && h.expanded == c.expanded then Some(dataEnd) else None
    else if dataEnd + 12 > offset then None
    else
      var start := if U32(b, dataEnd) == DESCRIPTOR_SIGNATURE then dataEnd + 4 else dataEnd;
      if start + 12 <= offset && DescriptorAt(b, start, c) then Some(start + 12) else None
  }

  /** Which names pass and when two names clash: the checks on one entry know no more of names. */
  datatype Policy = Policy(safe: string -> bool, lower: string -> string)

  function PolicyOf(names: Names, l: Limits): Policy { Policy(raw => SafePath(names, l, raw), names.lower) }

  /** Everything the preflight learns about one entry. */
  datatype Row = Row(pos: nat, c: Central, nameBytes: Bytes, raw: string, data: nat, finish: nat)

  function Path(row: Row): string { PathOf(row.raw) }

  function NextPos(row: Row): nat { row.pos + 46 + row.c.nameLength + row.c.extraLength + row.c.commentLength }

  /** A well-formed name, ASCII or flagged as UTF-8, that passes. */
  predicate NameSound(policy: Policy, c: Central, nameBytes: Bytes)
  {
    && (IsUtf8(c) || forall x :: x in nameBytes ==> x < 0x80)
    && Utf8.FatalDecode(nameBytes).Some?
    && policy.safe(Utf8.FatalDecode(nameBytes).value)
  }

  /** A central record at `p` that ends before the end record. */
  predicate RecordAt(b: Bytes, end: nat, p: nat)
    requires end <= |b|
  {
    && p + 46 <= end && U32(b, p) == CENTRAL_SIGNATURE
    && var c := CentralAt(b, p);
    && FieldsSound(c) && p + 46 + c.nameLength + c.extraLength + c.commentLength <= end
  }

  function NameAt(b: Bytes, end: nat, p: nat): Bytes
    requires end <= |b| && RecordAt(b, end, p)
  {
    b[p + 46..p + 46 + CentralAt(b, p).nameLength]
  }

  /** The checks on a name and on the fields that must agree with it. */
  predicate EntrySound(policy: Policy, l: Limits, c: Central, nameBytes: Bytes)
  {
    && NameSound(policy, c, nameBytes)
    && var directory := IsDirectory(Utf8.FatalDecode(nameBytes).value);
    && ModeSound(c, directory) && SizesSound(l, c, directory)
  }

  predicate CentralSound(policy: Policy, l: Limits, b: Bytes, end: nat, p: nat)
    requires end <= |b|
  {
    && RecordAt(b, end, p)
    && var c := CentralAt(b, p);
    && EntrySound(policy, l, c, NameAt(b, end, p))
    && ExtrasSound(b, p + 46 + c.nameLength, p + 46 + c.nameLength + c.extraLength)
  }

  /** Where the data of the local record starts. */
  function DataAt(b: Bytes, i: nat): nat
    requires i + 30 <= |b|
  {
    i + 30 + HeaderOf(b, i).nameLength + HeaderOf(b, i).extraLength
  }

  predicate LocalSound(b: Bytes, offset: nat, c: Central, nameBytes: Bytes)
    requires offset <= |b|
  {
    && c.local + 30 <= offset && U32(b, c.local) == LOCAL_SIGNATURE
    && var h, data := HeaderOf(b, c.local), DataAt(b, c.local);
    && data + c.compressed <= offset && h.flags == c.flags && h.compression == c.compression
    && b[c.local + 30..c.local + 30 + h.nameLength] == nameBytes
    && ExtrasSound(b, c.local + 30 + h.nameLength, data)
    && Finish(b, offset, h, c, data + c.compressed).Some?
  }

  /** The central record at `p` and the local record it names are sound. */
  predicate RowSound(policy: Policy, l: Limits, b: Bytes, end: nat, offset: nat, p: nat)
    requires offset <= end <= |b|
  {
    CentralSound(policy, l, b, end, p) && LocalSound(b, offset, CentralAt(b, p), NameAt(b, end, p))
  }

  function RowAt(policy: Policy, l: Limits, b: Bytes, end: nat, offset: nat, p: nat): (row: Row)
    requires offset <= end <= |b| && RowSound(policy, l, b, end, offset, p)
    ensures row.pos == p < NextPos(row) <= end
  {
    var c, nameBytes := CentralAt(b, p), NameAt(b, end, p);
    var data := DataAt(b, c.local);
    Row(p, c, nameBytes, Utf8.FatalDecode(nameBytes).value, data,
        Finish(b, offset, HeaderOf(b, c.local), c, data + c.compressed).value)
  }

  /** The local half of the checks on one entry: where its data starts and where the record ends. */
  method ReadLocalRecord(b: Bytes, offset: nat, c: Central, nameBytes: Bytes) returns (r: Option<(nat, nat)>)
    requires offset <= |b|
    ensures r.Some? <==> LocalSound(b, offset, c, nameBytes)
    ensures r.Some? ==> r.value.0 == DataAt(b, c.local)
    ensures r.Some? ==> Some(r.value.1) == Finish(b, offset, HeaderOf(b, c.local), c, r.value.0 + c.compressed)
  {
    if c.local + 30 > offset || U32(b, c.local) != LOCAL_SIGNATURE {
      return None;
    }
    var h := HeaderOf(b, c.local);
    var data := c.local + 30 + h.nameLength + h.extraLength;
    if data + c.compressed > offset || h.flags != c.flags || h.compression != c.compression {
      return None;
    }
    if b[c.local + 30..c.local + 30 + h.nameLength] != nameBytes {
      return None;
    }
    var extras := Extras(b, c.local + 30 + h.nameLength, h.extraLength);
    if !extras {
      return None;
    }
    var finish := Finish(b, offset, h, c, data + c.compressed);
    match finish
    case None => return None;
    case Some(f) => return Some((data, f));
  }

  /** The name of an entry, and whether the other fields agree with it. */
  method ReadName(policy: Policy, l: Limits, c: Central, nameBytes: Bytes) returns (raw: Option<string>)
    ensures raw.Some? <==> EntrySound(policy, l, c, nameBytes)
    ensures raw.Some? ==> raw == Utf8.FatalDecode(nameBytes)
  {
    if !IsUtf8(c) && exists x :: x in nameBytes && x >= 0x80 {
      return None;
    }
    raw := Utf8.FatalDecode(nameBytes);
    if raw.None? || !policy.safe(raw.value) {
      return None;
    }
    if !ModeSound(c, IsDirectory(raw.value)) || !SizesSound(l, c, IsDirectory(raw.value)) {
      return None;
    }
  }

  /** The central half of the checks on one entry. */
  method ReadCentral(policy: Policy, l: Limits, b: Bytes, end: nat, p: nat) returns (r: Option<string>)
    requires end <= |b|
    ensures r.Some? <==> CentralSound(policy, l, b, end, p)
    ensures r.Some? ==> r == Utf8.FatalDecode(NameAt(b, end, p))
  {
    if !RecordAt(b, end, p) {
      return None;
    }
    var c := CentralAt(b, p);
    var raw := ReadName(policy, l, c, NameAt(b, end, p));
    if raw.None? {
      return None;
    }
    var extras := Extras(b, p + 46 + c.nameLength, c.extraLength);
    return if extras then raw else None;
  }

  /** All the checks on one entry that do not depend on the other entries. */
  method ReadRow(policy: Policy, l: Limits, b: Bytes, end: nat, offset: nat, p: nat) returns (r: Option<Row>)
    requires offset <= end <= |b|
    ensures r.Some? <==> RowSound(policy, l, b, end, offset, p)
    ensures r.Some? ==> r.value == RowAt(policy, l, b, end, offset, p)
  {
    var raw := ReadCentral(policy, l, b, end, p);
    if raw.None? {
      return None;
    }
    var c, nameBytes := CentralAt(b, p), NameAt(b, end, p);
    var local := ReadLocalRecord(b, offset, c, nameBytes);
    match local
    case None => return None;
    case Some(found) => return Some(Row(p, c, nameBytes, raw.value, found.0, found.1));
  }
}
