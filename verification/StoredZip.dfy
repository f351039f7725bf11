/**
 * The incident-bundle archive: the writer `makeZip` and the reader `parseStoredZip`, and the
 * round trip between them. The layout is PKWARE APPNOTE sections 4.3.7, 4.3.12 and 4.3.16.
 */
module StoredZip {
  import opened Wrappers
  import opened ZipBytes
  import opened JsText
  import Crc32
  import Utf8
  import SlashPaths

  const LOCAL_SIGNATURE: nat := 0x0403_4b50
  const CENTRAL_SIGNATURE: nat := 0x0201_4b50
  const END_SIGNATURE: nat := 0x0605_4b50

  const MAX_FILES: nat := 10000
  const MAX_INPUT: nat := 256 * 1024 * 1024
  const MAX_ARCHIVE: nat := 536870912
  const MAX_NAME: nat := 1024

  datatype File = File(name: string, data: Bytes)

  type Entries = map<string, Bytes>

  // ---- the writer ----------------------------------------------------------------------------

  /** `name.replace(/\\/g, '/')`. */
  function Slashed(s: string): (r: string)
    ensures |r| == |s|
  {
    seq(|s|, i requires 0 <= i < |s| => if s[i] == '\\' then '/' else s[i])
  }

  function StoredName(f: File): string { Slashed(f.name) }

  function NameBytes(f: File): Bytes { Utf8.Encode(StoredName(f)) }

  function LocalFields(crc: nat, size: nat, nameLength: nat): seq<Field>
  {
    [W4(LOCAL_SIGNATURE), W2(20), W2(0), W2(0), W2(0), W2(0), W4(crc), W4(size), W4(size), W2(nameLength), W2(0)]
  }

  function CentralFields(crc: nat, size: nat, nameLength: nat, offset: nat): seq<Field>
  {
    [W4(CENTRAL_SIGNATURE), W2(20), W2(20), W2(0), W2(0), W2(0), W2(0), W4(crc), W4(size), W4(size),
     W2(nameLength), W2(0), W2(0), W2(0), W2(0), W4(0), W4(offset)]
  }

  function EndFields(count: nat, size: nat, offset: nat): seq<Field>
  {
    [W4(END_SIGNATURE), W2(0), W2(0), W2(count), W2(count), W4(size), W4(offset), W2(0)]
  }

  function LocalOf(f: File): seq<Field> { LocalFields(Crc32.Crc(f.data), |f.data|, |NameBytes(f)|) }

  function CentralOf(f: File, offset: nat): seq<Field>
  {
    CentralFields(Crc32.Crc(f.data), |f.data|, |NameBytes(f)|, offset)
  }

  function LocalRecord(f: File): Bytes { Pack(LocalOf(f)) + NameBytes(f) + f.data }

  function CentralRecord(f: File, offset: nat): Bytes { Pack(CentralOf(f, offset)) + NameBytes(f) }

  /** The two record layouts of a writer. */
  datatype Layout = Layout(local: File -> Bytes, central: (File, nat) -> Bytes)

  function ZipLayout(): Layout { Layout(f => LocalRecord(f), (f, offset: nat) => CentralRecord(f, offset)) }

  function LocalsIn(w: Layout, fs: seq<File>): Bytes
    decreases |fs|
  {
    if fs == [] then [] else w.local(fs[0]) + LocalsIn(w, fs[1..])
  }

  /** The central records of files whose local records start at `offset`. */
  function CentralsIn(w: Layout, fs: seq<File>, offset: nat): Bytes
    decreases |fs|
  {
    if fs == [] then [] else w.central(fs[0], offset) + CentralsIn(w, fs[1..], offset + |w.local(fs[0])|)
  }

  function Locals(fs: seq<File>): Bytes { LocalsIn(ZipLayout(), fs) }

  function Centrals(fs: seq<File>): Bytes { CentralsIn(ZipLayout(), fs, 0) }

  function Directory(fs: seq<File>): Bytes
  {
    Centrals(fs) + Pack(EndFields(|fs|, |Centrals(fs)|, |Locals(fs)|))
  }

  function Archive(fs: seq<File>): Bytes { Locals(fs) + Directory(fs) }

  function TotalInput(fs: seq<File>): nat
  {
    if fs == [] then 0 else |fs[0].data| + TotalInput(fs[1..])
  }

  predicate Fits(fs: seq<File>) { |fs| <= MAX_FILES && TotalInput(fs) <= MAX_INPUT }

  datatype WriteError = TooManyFiles | TooManyBytes

  lemma {:induction false} LocalsAppend(w: Layout, a: seq<File>, b: seq<File>)
    ensures LocalsIn(w, a + b) == LocalsIn(w, a) + LocalsIn(w, b)
    decreases |a|
  {
    if a == [] {
      assert a + b == b;
    } else {
      assert (a + b)[1..] == a[1..] + b;
      LocalsAppend(w, a[1..], b);
      Assoc(w.local(a[0]), LocalsIn(w, a[1..]), LocalsIn(w, b));
    }
  }

  lemma {:induction false} CentralsAppend(w: Layout, a: seq<File>, b: seq<File>, offset: nat)
    ensures CentralsIn(w, a + b, offset) == CentralsIn(w, a, offset) + CentralsIn(w, b, offset + |LocalsIn(w, a)|)
    decreases |a|
  {
    if a == [] {
      assert a + b == b;
    } else {
      assert (a + b)[1..] == a[1..] + b;
      var next := offset + |w.local(a[0])|;
      CentralsAppend(w, a[1..], b, next);
      assert offset + |LocalsIn(w, a)| == next + |LocalsIn(w, a[1..])|;
      Assoc(w.central(a[0], offset), CentralsIn(w, a[1..], next), CentralsIn(w, b, offset + |LocalsIn(w, a)|));
    }
  }

  lemma {:induction false} TotalAppend(a: seq<File>, b: seq<File>)
    ensures TotalInput(a + b) == TotalInput(a) + TotalInput(b)
    decreases |a|
  {
    if a == [] {
      assert a + b == b;
    } else {
      assert (a + b)[1..] == a[1..] + b;
      TotalAppend(a[1..], b);
    }
  }

  /** What one more file adds to each accumulator. */
  lemma {:induction false} OneMore(w: Layout, fs: seq<File>, i: nat)
    requires i < |fs|
    ensures LocalsIn(w, fs[..i + 1]) == LocalsIn(w, fs[..i]) + w.local(fs[i])
    ensures CentralsIn(w, fs[..i + 1], 0) == CentralsIn(w, fs[..i], 0) + w.central(fs[i], |LocalsIn(w, fs[..i])|)
    ensures TotalInput(fs[..i + 1]) == TotalInput(fs[..i]) + |fs[i].data| <= TotalInput(fs)
  {
    var a, f := fs[..i], fs[i];
    assert fs[..i + 1] == a + [f];
    LocalsAppend(w, a, [f]);
    CentralsAppend(w, a, [f], 0);
    TotalAppend(a, [f]);
    assert LocalsIn(w, [f]) == w.local(f);
    assert CentralsIn(w, [f], |LocalsIn(w, a)|) == w.central(f, |LocalsIn(w, a)|);
    assert fs == (a + [f]) + fs[i + 1..];
    TotalAppend(a + [f], fs[i + 1..]);
  }

  /** The records of one file, its checksum from the table-driven loop. */
  method Records(f: File, offset: nat) returns (local: Bytes, central: Bytes)
    ensures local == ZipLayout().local(f) && central == ZipLayout().central(f, offset)
  {
    var name := NameBytes(f);
    var bits := Crc32.TableCrc(f.data);
    var crc := Crc32.NatOf(bits);
    local := Pack(LocalFields(crc, |f.data|, |name|)) + name + f.data;
    central := Pack(CentralFields(crc, |f.data|, |name|, offset)) + name;
  }

  /** The writer's loop: both record lists and the offset, one file at a time. */
  method WriteRecords(ghost w: Layout, ordered: seq<File>) returns (r: Result<(Bytes, Bytes), WriteError>)
    requires w == ZipLayout()
    ensures r.Ok? <==> TotalInput(ordered) <= MAX_INPUT
    ensures r.Ok? ==> r.value == (LocalsIn(w, ordered), CentralsIn(w, ordered, 0))
    ensures r.Err? ==> r.error == TooManyBytes
  {
    var total, locals, centrals, offset := 0, [], [], 0;
    var i := 0;
    while i < |ordered|
      invariant 0 <= i <= |ordered|
      invariant total == TotalInput(ordered[..i]) <= MAX_INPUT
      invariant locals == LocalsIn(w, ordered[..i]) && centrals == CentralsIn(w, ordered[..i], 0)
      invariant offset == |locals|
    {
      OneMore(w, ordered, i);
      total := total + |ordered[i].data|;
      if total > MAX_INPUT {
        return Err(TooManyBytes);
      }
      var local, central := Records(ordered[i], offset);
      locals, centrals, offset := locals + local, centrals + central, offset + |local|;
      i := i + 1;
    }
    assert ordered[..i] == ordered;
    return Ok((locals, centrals));
  }

  /** `makeZip` on the files in the order its locale comparison left them. */
  method MakeZip(ordered: seq<File>) returns (r: Result<Bytes, WriteError>)
    ensures r.Ok? <==> |ordered| <= 10000 && TotalInput(ordered) <= 268435456
    ensures r.Ok? ==> r.value == Archive(ordered)
    ensures r == Err(TooManyFiles) <==> |ordered| > 10000
  {
    if |ordered| > MAX_FILES {
      return Err(TooManyFiles);
    }
    var records :- WriteRecords(ZipLayout(), ordered);
    var end := Pack(EndFields(|ordered|, |records.1|, |records.0|));
    return Ok(records.0 + (records.1 + end));
  }

  // ---- the reader ----------------------------------------------------------------------------

  datatype ReadError =
    | TooLarge
    | Unsupported(offset: nat)
    | TruncatedHeader
    | DataDescriptor
    | UnsupportedMethod(method_: nat)
    | TruncatedEntry
    | Unsafe(name: string)
    | TooManyEntries
    | SizeMismatch(name: string)
    | Duplicate(name: string)

  /** `buffer.toString('utf8')`; `lossy` renders ill-formed bytes. */
  function Shown(lossy: Bytes -> string, b: Bytes): string
  {
    match Utf8.Decode(b)
    case Some(s) => s
    case None => lossy(b)
  }

  predicate SafeName(name: string)
  {
    && name != []
    && Utf8.JsLength(name) <= MAX_NAME
    && name[0] != '/'
    && '\\' !in name
    && forall part :: part in SlashPaths.Split(name) ==> part != "" && part != "." && part != ".."
  }

  /** How the reader turns name bytes into a name, and which names it lets through. */
  datatype Rules = Rules(shown: Bytes -> string, safe: string -> bool)

  function ReaderRules(lossy: Bytes -> string): Rules { Rules(b => Shown(lossy, b), name => SafeName(name)) }

  /** The reader's checks on a name and its bytes, in its order, and the entry they let in. */
  function Accept(rules: Rules, name: string, data: Bytes, expanded: nat, entries: Entries): (r: Result<Entries, ReadError>)
    ensures r.Ok? ==> r.value == entries[name := data] && name !in entries
  {
    if !rules.safe(name) then Err(Unsafe(name))
    else if |entries| >= MAX_FILES then Err(TooManyEntries)
    else if |data| != expanded then Err(SizeMismatch(name))
    else if name in entries then Err(Duplicate(name))
    else Ok(entries[name := data])
  }

  /** One turn of the reader's loop: the map after it and where it goes on. */
  datatype Turn = Turn(entries: Entries, next: nat)

  function TurnOf(r: Result<Entries, ReadError>, next: nat): Result<Turn, ReadError>
  {
    match r
    case Ok(m) => Ok(Turn(m, next))
    case Err(e) => Err(e)
  }

  /** What both readers take from the 30 fixed bytes of a local record. */
  datatype Header = Header(flags: nat, compression: nat, crc: nat, compressed: nat, expanded: nat,
                           nameLength: nat, extraLength: nat)

  function HeaderOf(b: Bytes, i: nat): Header
    requires i + 30 <= |b|
  {
    Header(U16(b, i + 6), U16(b, i + 8), U32(b, i + 14), U32(b, i + 18), U32(b, i + 22),
           U16(b, i + 26), U16(b, i + 28))
  }

  function ReadBody(rules: Rules, b: Bytes, i: nat, h: Header, entries: Entries): (r: Result<Turn, ReadError>)
    requires i + 30 <= |b|
    ensures r.Ok? ==> i < r.value.next <= |b|
  {
    var dataStart := i + 30 + h.nameLength + h.extraLength;
    var dataEnd := dataStart + h.compressed;
    if h.flags / 8 % 2 == 1 then Err(DataDescriptor)
    else if h.compression != 0 then Err(UnsupportedMethod(h.compression))
    else if dataEnd > |b| then Err(TruncatedEntry)
    else
      TurnOf(Accept(rules, rules.shown(b[i + 30..i + 30 + h.nameLength]), b[dataStart..dataEnd], h.expanded, entries),
             dataEnd)
  }

  function ReadLocal(rules: Rules, b: Bytes, i: nat, entries: Entries): (r: Result<Turn, ReadError>)
    requires i + 4 <= |b|
    ensures r.Ok? ==> i < r.value.next <= |b|
  {
    if U32(b, i) != LOCAL_SIGNATURE then Err(Unsupported(i))
    else if i + 30 > |b| then Err(TruncatedHeader)
    else ReadBody(rules, b, i, HeaderOf(b, i), entries)
  }

  /** The local records end where no four bytes are left or another signature starts. */
  predicate LocalsEnd(b: Bytes, i: nat)
  {
    i + 4 > |b| || U32(b, i) == CENTRAL_SIGNATURE || U32(b, i) == END_SIGNATURE
  }

  function ParseFrom(rules: Rules, b: Bytes, i: nat, entries: Entries): Result<Entries, ReadError>
    decreases |b| - i
  {
    if LocalsEnd(b, i) then Ok(entries)
    else
      var turn :- ReadLocal(rules, b, i, entries);
      ParseFrom(rules, b, turn.next, turn.entries)
  }

  function Parse(lossy: Bytes -> string, b: Bytes): Result<Entries, ReadError>
  {
    if |b| > MAX_ARCHIVE then Err(TooLarge) else ParseFrom(ReaderRules(lossy), b, 0, map[])
  }

  method ParseStoredZip(lossy: Bytes -> string, b: Bytes) returns (r: Result<Entries, ReadError>)
    ensures r == Parse(lossy, b)
  {
    if |b| > MAX_ARCHIVE {
      return Err(TooLarge);
    }
    var entries: Entries, offset := map[], 0;
    while offset + 4 <= |b|
      invariant 0 <= offset <= |b|
      invariant Parse(lossy, b) == ParseFrom(ReaderRules(lossy), b, offset, entries)
      decreases |b| - offset
    {
      if LocalsEnd(b, offset) {
        break;
      }
      var turn :- ReadLocal(ReaderRules(lossy), b, offset, entries);
      entries, offset := turn.entries, turn.next;
    }
    return Ok(entries);
  }
}
