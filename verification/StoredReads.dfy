/** Exactly which buffers `parseStoredZip` accepts and what it then gives, by the numbers in the buffer. */
module StoredReads {
  import opened Wrappers
  import opened ZipBytes
  import opened StoredZip
  import SlashPaths
  import Utf8

  // ---- names ---------------------------------------------------------------------------------

  predicate GoodPart(part: string) { part !in ["", ".", ".."] && '/' !in part && '\\' !in part }

  /** A name passes if and only if it is good parts joined by slashes, of at most 1024 UTF-16 units. */
  lemma {:induction false} SafeNameIff(name: string)
    ensures SafeName(name) <==>
              && Utf8.JsLength(name) <= 1024
              && exists parts :: parts != [] && name == SlashPaths.Join(parts) && forall part :: part in parts ==> GoodPart(part)
  {
    hide Utf8.JsLength;
    if SafeName(name) {
      var parts := SlashPaths.Split(name);
      SlashPaths.JoinSplit(name);
      SlashPaths.SplitChars(name);
      forall part | part in parts ensures GoodPart(part) {
        var i :| 0 <= i < |parts| && parts[i] == part;
      }
    }
    if parts :| parts != [] && name == SlashPaths.Join(parts) && forall part :: part in parts ==> GoodPart(part) {
      assert forall i :: 0 <= i < |parts| ==> parts[i] in parts;
      SlashPaths.SplitJoin(parts);
      SlashPaths.JoinEnds(parts);
      SlashPaths.JoinChars(parts);
      assert parts[0][0] in parts[0];
    }
  }

  // ---- records -------------------------------------------------------------------------------

  /** A local record that can be read stands at `o`, and the next one at `next`. */
  predicate Readable(b: Bytes, o: nat, next: nat)
  {
    && o + 30 <= |b| && U32(b, o) == 0x0403_4b50
    && U16(b, o + 6) / 8 % 2 == 0 && U16(b, o + 8) == 0
    && U32(b, o + 22) == U32(b, o + 18)
    && next == o + 30 + U16(b, o + 26) + U16(b, o + 28) + U32(b, o + 18) <= |b|
  }

  function NameAt(lossy: Bytes -> string, b: Bytes, o: nat, next: nat): string
    requires Readable(b, o, next)
  {
    Shown(lossy, b[o + 30..o + 30 + U16(b, o + 26)])
  }

  function DataAt(b: Bytes, o: nat, next: nat): Bytes
    requires Readable(b, o, next)
  {
    b[next - U32(b, o + 18)..next]
  }

  /** The buffer ends here, or the directory starts. */
  predicate Stops(b: Bytes, o: nat) { |b| < o + 4 || U32(b, o) == 0x0201_4b50 || U32(b, o) == 0x0605_4b50 }

  /** Local records follow one another from each place to the next. */
  ghost predicate Chain(b: Bytes, os: seq<nat>)
  {
    && os != [] && Stops(b, os[|os| - 1])
    && forall k, next :: 0 <= k && next == k + 1 < |os| ==> Readable(b, os[k], os[next])
  }

  function Name(lossy: Bytes -> string, b: Bytes, os: seq<nat>, k: nat): string
    requires Chain(b, os) && k < |os| - 1
  {
    NameAt(lossy, b, os[k], os[k + 1])
  }

  function Data(b: Bytes, os: seq<nat>, k: nat): Bytes
    requires Chain(b, os) && k < |os| - 1
  {
    DataAt(b, os[k], os[k + 1])
  }

  /** The names of the records pass, differ from one another and are new. */
  ghost predicate NamesPass(lossy: Bytes -> string, b: Bytes, os: seq<nat>, entries: Entries)
    requires Chain(b, os)
  {
    && (forall k :: 0 <= k < |os| - 1 ==> SafeName(Name(lossy, b, os, k)) && Name(lossy, b, os, k) !in entries)
    && forall j, k :: 0 <= j < k < |os| - 1 ==> Name(lossy, b, os, j) != Name(lossy, b, os, k)
  }

  /** `m` is `entries` and the records, and nothing else. */
  ghost predicate Gives(lossy: Bytes -> string, b: Bytes, os: seq<nat>, entries: Entries, m: Entries)
    requires Chain(b, os)
  {
    && (forall k :: 0 <= k < |os| - 1 ==> Name(lossy, b, os, k) in m && m[Name(lossy, b, os, k)] == Data(b, os, k))
    && (forall name :: name in entries ==> name in m && m[name] == entries[name])
    && (forall name :: name in m && name !in entries ==> exists k :: 0 <= k < |os| - 1 && Name(lossy, b, os, k) == name)
  }

  ghost predicate Reads(lossy: Bytes -> string, b: Bytes, os: seq<nat>, entries: Entries)
  {
    Chain(b, os) && |entries| + |os| <= 10001 && NamesPass(lossy, b, os, entries)
  }

  lemma {:induction false} ChainCons(b: Bytes, o: nat, os: seq<nat>)
    requires Chain(b, os) && Readable(b, o, os[0])
    ensures Chain(b, [o] + os)
  {
  }

  lemma {:induction false} ChainRest(b: Bytes, os: seq<nat>)
    requires Chain(b, os) && |os| > 1
    ensures Chain(b, os[1..]) && Readable(b, os[0], os[1])
  {
  }

  lemma {:induction false} NamesShift(lossy: Bytes -> string, b: Bytes, os: seq<nat>, rest: seq<nat>, k: nat, j: nat)
    requires Chain(b, os) && |os| > 1 && rest == os[1..] && Chain(b, rest) && k < |rest| - 1 && j == k + 1
    ensures Name(lossy, b, os, j) == Name(lossy, b, rest, k) && Data(b, os, j) == Data(b, rest, k)
  {
  }

  lemma {:induction false} BodyTurn(rules: Rules, b: Bytes, i: nat, h: Header, entries: Entries, turn: Turn)
    requires i + 30 <= |b| && ReadBody(rules, b, i, h, entries) == Ok(turn)
    ensures h.flags / 8 % 2 == 0 && h.compression == 0 && h.expanded == h.compressed
    ensures turn.next == i + 30 + h.nameLength + h.extraLength + h.compressed <= |b| && |entries| < 10000
    ensures var name := rules.shown(b[i + 30..i + 30 + h.nameLength]);
            rules.safe(name) && name !in entries && turn.entries == entries[name := b[turn.next - h.compressed..turn.next]]
  {
  }

  /** One turn of the loop at a place where the records do not end. */
  lemma {:induction false} OneTurn(lossy: Bytes -> string, b: Bytes, i: nat, entries: Entries)
    requires !LocalsEnd(b, i)
    ensures var turn := ReadLocal(ReaderRules(lossy), b, i, entries);
            turn.Ok? ==>
              && Readable(b, i, turn.value.next)
              && |entries| < 10000 && SafeName(NameAt(lossy, b, i, turn.value.next))
              && NameAt(lossy, b, i, turn.value.next) !in entries
              && turn.value.entries == entries[NameAt(lossy, b, i, turn.value.next) := DataAt(b, i, turn.value.next)]
  {
    hide SafeName, Shown, U16, U32, ReadBody;
    var turn := ReadLocal(ReaderRules(lossy), b, i, entries);
    if turn.Ok? {
      BodyTurn(ReaderRules(lossy), b, i, HeaderOf(b, i), entries, turn.value);
    }
  }

  lemma {:induction false} TurnTaken(lossy: Bytes -> string, b: Bytes, i: nat, next: nat, entries: Entries)
    requires Readable(b, i, next) && |entries| < 10000
    requires SafeName(NameAt(lossy, b, i, next)) && NameAt(lossy, b, i, next) !in entries
    ensures !LocalsEnd(b, i)
    ensures ReadLocal(ReaderRules(lossy), b, i, entries)
            == Ok(Turn(entries[NameAt(lossy, b, i, next) := DataAt(b, i, next)], next))
  {
    hide SafeName, Shown, U16, U32;
  }

  // ---- the loop ------------------------------------------------------------------------------

  /** `all` is one more record in front of `os`. */
  ghost predicate Fronts(b: Bytes, all: seq<nat>, os: seq<nat>) { |all| > 1 && os == all[1..] && Chain(b, all) && Chain(b, os) }

  lemma {:induction false} NamesCons(lossy: Bytes -> string, b: Bytes, all: seq<nat>, os: seq<nat>, name: string, data: Bytes,
                                     entries: Entries)
    requires Fronts(b, all, os) && Name(lossy, b, all, 0) == name
    requires SafeName(name) && name !in entries && NamesPass(lossy, b, os, entries[name := data])
    ensures NamesPass(lossy, b, all, entries)
  {
    hide SafeName, NameAt, Chain, Data, Name;
    forall k | 0 < k < |all| - 1
      ensures SafeName(Name(lossy, b, all, k)) && Name(lossy, b, all, k) !in entries && Name(lossy, b, all, k) != name
    {
      NamesShift(lossy, b, all, os, k - 1, k);
    }
    forall j, k | 0 < j < k < |all| - 1
      ensures Name(lossy, b, all, j) != Name(lossy, b, all, k)
    {
      NamesShift(lossy, b, all, os, j - 1, j);
      NamesShift(lossy, b, all, os, k - 1, k);
    }
  }

  lemma {:induction false} GivesCons(lossy: Bytes -> string, b: Bytes, all: seq<nat>, os: seq<nat>, name: string, data: Bytes,
                                     entries: Entries, m: Entries)
    requires Fronts(b, all, os) && Name(lossy, b, all, 0) == name && Data(b, all, 0) == data && name !in entries
    requires NamesPass(lossy, b, os, entries[name := data]) && Gives(lossy, b, os, entries[name := data], m)
    ensures Gives(lossy, b, all, entries, m)
  {
    hide SafeName, NameAt, Chain, Data, Name, NamesPass;
    forall k | 0 <= k < |all| - 1
      ensures Name(lossy, b, all, k) in m && m[Name(lossy, b, all, k)] == Data(b, all, k)
    {
      if k > 0 {
        NamesShift(lossy, b, all, os, k - 1, k);
      }
    }
    forall n | n in m && n !in entries
      ensures exists k :: 0 <= k < |all| - 1 && Name(lossy, b, all, k) == n
    {
      if n != name {
        var k :| 0 <= k < |os| - 1 && Name(lossy, b, os, k) == n;
        NamesShift(lossy, b, all, os, k, k + 1);
      }
    }
  }

  /** One more record in front of some that are read after it. */
  lemma {:induction false} ReadsCons(lossy: Bytes -> string, b: Bytes, o: nat, os: seq<nat>, entries: Entries, m: Entries)
    requires os != [] && Readable(b, o, os[0]) && |entries| < 10000
    requires SafeName(NameAt(lossy, b, o, os[0])) && NameAt(lossy, b, o, os[0]) !in entries
    requires var next := entries[NameAt(lossy, b, o, os[0]) := DataAt(b, o, os[0])];
             Reads(lossy, b, os, next) && Gives(lossy, b, os, next, m)
    ensures Reads(lossy, b, [o] + os, entries) && Gives(lossy, b, [o] + os, entries, m)
  {
    hide SafeName, NameAt, DataAt, Readable, Chain, NamesPass, Gives;
    var all := [o] + os;
    ChainCons(b, o, os);
    assert all[1..] == os;
    var name, data := NameAt(lossy, b, o, os[0]), DataAt(b, o, os[0]);
    assert Name(lossy, b, all, 0) == name && Data(b, all, 0) == data;
    NamesCons(lossy, b, all, os, name, data, entries);
    GivesCons(lossy, b, all, os, name, data, entries, m);
  }

  /** What is left to read after the first record. */
  lemma {:induction false} ReadsRest(lossy: Bytes -> string, b: Bytes, os: seq<nat>, entries: Entries)
    requires |os| > 1 && Reads(lossy, b, os, entries)
    ensures Readable(b, os[0], os[1]) && |entries| < 10000
    ensures var name := NameAt(lossy, b, os[0], os[1]);
            && SafeName(name) && name !in entries
            && Reads(lossy, b, os[1..], entries[name := DataAt(b, os[0], os[1])])
  {
    hide SafeName, NameAt, DataAt, Readable, Stops;
    var rest := os[1..];
    ChainRest(b, os);
    assert Name(lossy, b, os, 0) == NameAt(lossy, b, os[0], os[1]);
    forall k, j: nat | 0 <= k < |rest| - 1 && j == k + 1
      ensures Name(lossy, b, os, j) == Name(lossy, b, rest, k)
    {
      NamesShift(lossy, b, os, rest, k, j);
    }
    forall k | 0 <= k < |rest| - 1
      ensures SafeName(Name(lossy, b, rest, k)) && Name(lossy, b, rest, k) !in entries
      ensures Name(lossy, b, rest, k) != NameAt(lossy, b, os[0], os[1])
    {
      assert Name(lossy, b, os, k + 1) == Name(lossy, b, rest, k);
    }
    forall j, k | 0 <= j < k < |rest| - 1
      ensures Name(lossy, b, rest, j) != Name(lossy, b, rest, k)
    {
      assert Name(lossy, b, os, j + 1) == Name(lossy, b, rest, j) && Name(lossy, b, os, k + 1) == Name(lossy, b, rest, k);
    }
  }

  /** What the loop reads is a chain of records. */
  lemma {:induction false} ReadIsChain(lossy: Bytes -> string, b: Bytes, i: nat, entries: Entries) returns (os: seq<nat>)
    requires ParseFrom(ReaderRules(lossy), b, i, entries).Ok? && |entries| <= 10000
    ensures os != [] && os[0] == i && Reads(lossy, b, os, entries)
    ensures Gives(lossy, b, os, entries, ParseFrom(ReaderRules(lossy), b, i, entries).value)
    decreases |b| - i
  {
    hide ReadLocal, SafeName, NameAt, DataAt, Readable, NamesPass, Gives, Chain, ReaderRules;
    if LocalsEnd(b, i) {
      os := [i];
      NoRecords(lossy, b, i, entries);
    } else {
      OneTurn(lossy, b, i, entries);
      var turn := ReadLocal(ReaderRules(lossy), b, i, entries).value;
      var rest := ReadIsChain(lossy, b, turn.next, turn.entries);
      os := [i] + rest;
      ReadsCons(lossy, b, i, rest, entries, ParseFrom(ReaderRules(lossy), b, i, entries).value);
    }
  }

  lemma {:induction false} NoRecords(lossy: Bytes -> string, b: Bytes, i: nat, entries: Entries)
    requires LocalsEnd(b, i) && |entries| <= 10000
    ensures Reads(lossy, b, [i], entries) && Gives(lossy, b, [i], entries, entries)
  {
  }

  /** A chain of records is read. */
  lemma {:induction false} ChainIsRead(lossy: Bytes -> string, b: Bytes, os: seq<nat>, entries: Entries)
    requires Reads(lossy, b, os, entries)
    ensures os != [] && ParseFrom(ReaderRules(lossy), b, os[0], entries).Ok?
    decreases |os|
  {
    hide ReadLocal, SafeName, NameAt, DataAt, Readable, NamesPass, ReaderRules;
    if |os| > 1 {
      ReadsRest(lossy, b, os, entries);
      TurnTaken(lossy, b, os[0], os[1], entries);
      ChainIsRead(lossy, b, os[1..], entries[NameAt(lossy, b, os[0], os[1]) := DataAt(b, os[0], os[1])]);
    }
  }

  /** From the same place there is only one chain. */
  lemma {:induction false} OneChain(b: Bytes, os: seq<nat>, other: seq<nat>)
    requires Chain(b, os) && Chain(b, other) && os[0] == other[0]
    ensures os == other
    decreases |os|
  {
    hide U16, U32;
    if |os| > 1 {
      ChainRest(b, os);
      if |other| > 1 {
        ChainRest(b, other);
        OneChain(b, os[1..], other[1..]);
        assert os == [os[0]] + os[1..] && other == [other[0]] + other[1..];
      }
    } else if |other| > 1 {
      ChainRest(b, other);
    }
  }

  /**
   * A buffer is read if and only if it has at most 512 MiB, is a chain of at most 10000 readable local
   * records up to its end or a directory, and their names pass and differ; it is read as
   * exactly these names and contents.
   */
  lemma {:induction false} ParseIff(lossy: Bytes -> string, b: Bytes)
    ensures Parse(lossy, b).Ok? <==>
              && |b| <= 536870912
              && exists os :: os != [] && os[0] == 0 && |os| <= 10001 && Chain(b, os) && NamesPass(lossy, b, os, map[])
    ensures forall os :: Parse(lossy, b).Ok? && os != [] && os[0] == 0 && Chain(b, os) ==>
                           Gives(lossy, b, os, map[], Parse(lossy, b).value)
  {
    hide ParseFrom, NamesPass, Gives, Chain;
    if Parse(lossy, b).Ok? {
      var os := ReadIsChain(lossy, b, 0, map[]);
      forall other | other != [] && Chain(b, other) && other[0] == 0
        ensures Gives(lossy, b, other, map[], Parse(lossy, b).value)
      {
        OneChain(b, os, other);
      }
    }
    if os :| os != [] && Chain(b, os) && os[0] == 0 && |os| <= 10001 && NamesPass(lossy, b, os, map[]) && |b| <= 536870912 {
      ChainIsRead(lossy, b, os, map[]);
    }
  }
}
