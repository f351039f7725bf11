/**
 * The extraction loop of `extractCandidateZip` over a file system that may find one file under several
 * paths: after an accepted preflight it leaves exactly the listed tree, in any order of the entries, if
 * and only if the contents are good and no entries clash; folding letter case makes none clash.
 */
module CandidateExtraction {
  import opened Wrappers
  import opened ZipBytes
  import opened CandidateZip
  import opened CandidatePreflight
  import opened SlashPaths
  import CandidateTiling
  import Crc32
  import ZipRoundTrip

  // ---- the file system -----------------------------------------------------------------------

  datatype Node = Dir(path: string) | File(path: string, data: Bytes)

  /** What is below the fresh root, by the key under which the file system finds a path. */
  type Files = map<string, Node>

  /** The root directory being written to; `fold` identifies the paths that name one file. */
  class Disk {
    const fold: string -> string
    var files: Files

    constructor (fold: string -> string)
      ensures this.fold == fold && files == map[]
    {
      this.fold := fold;
      files := map[];
    }

    /** `mkdirSync(path, {recursive: true})` for the first `n` parts of an entry's path. */
    method MakeDirectories(row: Row, n: nat) returns (ok: bool)
      requires n <= |Parts(row)|
      modifies this
      ensures ok <==> MakeDirs(fold, old(files), row, n).Some?
      ensures ok ==> Some(files) == MakeDirs(fold, old(files), row, n)
      ensures ok <==> !FileInTheWay(fold, old(files), row, n)
      ensures ok ==> OnlyDirsAdded(fold, old(files), files, row, n)
    {
      hide MakeDir, Parts, FileInTheWay, OnlyDirsAdded;
      DirsExact(fold, files, row, n);
      var i := 0;
      ghost var start := files;
      while i < n
        invariant 0 <= i <= n
        invariant MakeDirs(fold, start, row, i) == Some(files)
      {
        var made := MakeDir(fold, files, Prefix(row, i + 1));
        i := i + 1;
        if made.None? {
          DirsStop(fold, start, row, i, n);
          return false;
        }
        files := made.value;
      }
      return true;
    }

    /** `writeFileSync(path, data, {flag: 'wx'})` below an existing directory. */
    method WriteNew(path: string, data: Bytes) returns (ok: bool)
      modifies this
      ensures ok <==> fold(path) !in old(files)
      ensures files == if ok then old(files)[fold(path) := File(path, data)] else old(files)
    {
      ok := fold(path) !in files;
      if ok {
        files := files[fold(path) := File(path, data)];
      }
    }
  }

  /** One directory: an existing directory is kept, an existing file is an error. */
  function MakeDir(fold: string -> string, files: Files, path: string): Option<Files>
  {
    if fold(path) !in files then Some(files[fold(path) := Dir(path)])
    else if files[fold(path)].Dir? then Some(files)
    else None
  }

  function MakeDirs(fold: string -> string, files: Files, row: Row, n: nat): Option<Files>
    requires n <= |Parts(row)|
    decreases n
  {
    if n == 0 then Some(files)
    else match MakeDirs(fold, files, row, n - 1)
      case None => None
      case Some(made) => MakeDir(fold, made, Prefix(row, n))
  }

  /** A file stands where one of the first `n` directories of the path is needed. */
  ghost predicate FileInTheWay(fold: string -> string, files: Files, row: Row, n: nat)
    requires n <= |Parts(row)|
  {
    exists i: nat :: 1 <= i <= n && fold(Prefix(row, i)) in files && files[fold(Prefix(row, i))].File?
  }

  /** Everything that was there stays, each directory of the path is there, and nothing else is new. */
  ghost predicate OnlyDirsAdded(fold: string -> string, before: Files, after: Files, row: Row, n: nat)
    requires n <= |Parts(row)|
  {
    && (forall key :: key in before ==> key in after && after[key] == before[key])
    && (forall i: nat :: 1 <= i <= n ==> fold(Prefix(row, i)) in after && after[fold(Prefix(row, i))].Dir?)
    && (forall key :: key in after && key !in before ==>
          exists i: nat :: 1 <= i <= n && key == fold(Prefix(row, i)) && after[key] == Dir(Prefix(row, i)))
  }

  /** The directories of a path can be made exactly when no file stands in their way. */
  lemma {:induction false} DirsExact(fold: string -> string, files: Files, row: Row, n: nat)
    requires n <= |Parts(row)|
    ensures MakeDirs(fold, files, row, n).None? <==> FileInTheWay(fold, files, row, n)
    ensures MakeDirs(fold, files, row, n).Some? ==>
              OnlyDirsAdded(fold, files, MakeDirs(fold, files, row, n).value, row, n)
    decreases n
  {
    hide Parts, Prefix;
    if n > 0 {
      DirsExact(fold, files, row, n - 1);
      if MakeDirs(fold, files, row, n - 1).Some? {
        OneDirExact(fold, files, MakeDirs(fold, files, row, n - 1).value, row, n - 1, n);
      }
    }
  }

  lemma {:induction false} OneDirExact(fold: string -> string, files: Files, made: Files, row: Row, n: nat, k: nat)
    requires k == n + 1 <= |Parts(row)| && !FileInTheWay(fold, files, row, n)
    requires OnlyDirsAdded(fold, files, made, row, n)
    ensures MakeDir(fold, made, Prefix(row, k)).None? <==> FileInTheWay(fold, files, row, k)
    ensures MakeDir(fold, made, Prefix(row, k)).Some? ==>
              OnlyDirsAdded(fold, files, MakeDir(fold, made, Prefix(row, k)).value, row, k)
  {
    hide Parts, Prefix;
    var key := fold(Prefix(row, k));
    if key in made && key !in files {
      var i: nat :| 1 <= i <= n && key == fold(Prefix(row, i)) && made[key] == Dir(Prefix(row, i));
    }
    if MakeDir(fold, made, Prefix(row, k)).Some? {
      var after := MakeDir(fold, made, Prefix(row, k)).value;
      forall x | x in after && x !in files
        ensures exists i: nat :: 1 <= i <= k && x == fold(Prefix(row, i)) && after[x] == Dir(Prefix(row, i))
      {
        if x in made {
          var i: nat :| 1 <= i <= n && x == fold(Prefix(row, i)) && made[x] == Dir(Prefix(row, i));
        }
      }
    }
  }

  lemma {:induction false} DirsStop(fold: string -> string, files: Files, row: Row, i: nat, n: nat)
    requires i <= n <= |Parts(row)| && MakeDirs(fold, files, row, i).None?
    ensures MakeDirs(fold, files, row, n).None?
    decreases n
  {
    if i < n {
      DirsStop(fold, files, row, i, n - 1);
    }
  }

  // ---- the loop ------------------------------------------------------------------------------

  datatype Failure = BadContent | Conflict

  /** The bytes of an entry: stored, or what inflating gives; `None` when size or checksum is wrong. */
  function Content(inflate: Bytes -> Option<Bytes>, b: Bytes, row: Row): Option<Bytes>
  {
    if row.data + row.c.compressed > |b| then None
    else
      var compressed := b[row.data..row.data + row.c.compressed];
      match if row.c.compression == 0 then Some(compressed) else inflate(compressed)
      case None => None
      case Some(data) => if |data| == row.c.expanded && Crc32.Crc(data) == row.c.crc then Some(data) else None
  }

  type Contents = Row -> Option<Bytes>

  function ExtractRow(fold: string -> string, contents: Contents, files: Files, row: Row): Result<Files, Failure>
  {
    if IsDirectory(row.raw) then
      match MakeDirs(fold, files, row, |Parts(row)|)
      case None => Err(Conflict)
      case Some(made) => Ok(made)
    else match contents(row)
      case None => Err(BadContent)
      case Some(data) =>
        match MakeDirs(fold, files, row, |Parts(row)| - 1)
        case None => Err(Conflict)
        case Some(made) =>
          if fold(Path(row)) in made then Err(Conflict) else Ok(made[fold(Path(row)) := File(Path(row), data)])
  }

  function ExtractAll(fold: string -> string, contents: Contents, files: Files, rows: seq<Row>): Result<Files, Failure>
    decreases |rows|
  {
    if rows == [] then Ok(files)
    else
      var next :- ExtractRow(fold, contents, files, rows[0]);
      ExtractAll(fold, contents, next, rows[1..])
  }

  method ExtractEntry(disk: Disk, contents: Contents, row: Row) returns (r: Option<Failure>)
    modifies disk
    ensures r == match ExtractRow(disk.fold, contents, old(disk.files), row)
                 case Err(e) => Some(e)
                 case Ok(_) => None
    ensures r.None? ==> Ok(disk.files) == ExtractRow(disk.fold, contents, old(disk.files), row)
  {
    if IsDirectory(row.raw) {
      var made := disk.MakeDirectories(row, |Parts(row)|);
      return if made then None else Some(Conflict);
    }
    var data := contents(row);
    if data.None? {
      return Some(BadContent);
    }
    var made := disk.MakeDirectories(row, |Parts(row)| - 1);
    if !made {
      return Some(Conflict);
    }
    var wrote := disk.WriteNew(Path(row), data.value);
    return if wrote then None else Some(Conflict);
  }

  /** The loop of `extractCandidateZip`. */
  method Extract(disk: Disk, contents: Contents, rows: seq<Row>) returns (r: Option<Failure>)
    modifies disk
    ensures r == match ExtractAll(disk.fold, contents, old(disk.files), rows)
                 case Err(e) => Some(e)
                 case Ok(_) => None
    ensures r.None? ==> Ok(disk.files) == ExtractAll(disk.fold, contents, old(disk.files), rows)
  {
    hide ExtractRow;
    ghost var start := disk.files;
    var i := 0;
    assert rows[0..] == rows;
    while i < |rows|
      invariant 0 <= i <= |rows|
      invariant ExtractAll(disk.fold, contents, start, rows) == ExtractAll(disk.fold, contents, disk.files, rows[i..])
    {
      assert rows[i..][1..] == rows[i + 1..];
      var failed := ExtractEntry(disk, contents, rows[i]);
      if failed.Some? {
        return failed;
      }
      i := i + 1;
    }
    return None;
  }

  // ---- the listed tree -----------------------------------------------------------------------

  /** What an entry leaves at its path. */
  function NodeOf(contents: Contents, row: Row): Node
  {
    if IsDirectory(row.raw) then Dir(Path(row))
    else File(Path(row), match contents(row) case Some(data) => data case None => [])
  }

  ghost predicate HoldsEntry(fold: string -> string, contents: Contents, files: Files, row: Row)
  {
    && fold(Path(row)) in files && files[fold(Path(row))] == NodeOf(contents, row)
    && forall i: nat :: 1 <= i < |Parts(row)| ==> HoldsDir(fold, files, Prefix(row, i))
  }

  ghost predicate HoldsDir(fold: string -> string, files: Files, path: string)
  {
    fold(path) in files && files[fold(path)] == Dir(path)
  }

  /** `key` is the key of a prefix of one of `rows`. */
  ghost predicate KeyOf(fold: string -> string, rows: seq<Row>, key: string)
  {
    exists x, i: nat :: x in rows && 1 <= i <= |Parts(x)| && key == fold(Prefix(x, i))
  }

  /** `files` is exactly the tree the entries list: their files, their directories and the implied ones. */
  ghost predicate Tree(fold: string -> string, contents: Contents, files: Files, rows: seq<Row>)
  {
    && (forall x :: x in rows ==> HoldsEntry(fold, contents, files, x))
    && (forall key :: key in files ==> KeyOf(fold, rows, key))
  }

  // ---- what the preflight's path checks give --------------------------------------------------

  lemma {:induction false} FullPrefix(row: Row)
    ensures Prefix(row, |Parts(row)|) == Path(row)
  {
    assert Parts(row)[..|Parts(row)|] == Parts(row);
    JoinSplit(Path(row));
  }

  /** Paths of entries that are one file to the file system. */
  ghost predicate PathsAgree(fold: string -> string, rows: seq<Row>)
  {
    forall x, y, i: nat, j: nat ::
      (x in rows && y in rows && 1 <= i <= |Parts(x)| && 1 <= j <= |Parts(y)| && fold(Prefix(x, i)) == fold(Prefix(y, j)))
      ==> Prefix(x, i) == Prefix(y, j)
  }

  ghost predicate FilesAreLeaves(fold: string -> string, rows: seq<Row>)
  {
    forall x, y, i: nat :: x in rows && y in rows && 1 <= i < |Parts(x)| && fold(Path(y)) == fold(Prefix(x, i)) ==>
      IsDirectory(y.raw)
  }

  ghost predicate DistinctPaths(fold: string -> string, rows: seq<Row>)
  {
    forall i, j :: 0 <= i < j < |rows| ==> fold(Path(rows[i])) != fold(Path(rows[j]))
  }

  ghost predicate Compatible(fold: string -> string, rows: seq<Row>)
  {
    PathsAgree(fold, rows) && FilesAreLeaves(fold, rows) && DistinctPaths(fold, rows)
  }

  /** The file system tells apart at least what differs in more than case. */
  ghost predicate Finer(fold: string -> string, lower: string -> string)
  {
    forall p, q :: fold(p) == fold(q) ==> lower(p) == lower(q)
  }

  lemma {:induction false} ListCompatible(fold: string -> string, lower: string -> string, rows: seq<Row>)
    requires Finer(fold, lower) && DistinctKeys(lower, rows)
    requires OneCase(lower, AllPrefixes(rows)) && ParentsAreDirectories(lower, rows)
    ensures Compatible(fold, rows)
  {
    hide Prefix, Parts, Path, AllPrefixes;
    forall x, y, i: nat, j: nat | x in rows && y in rows && 1 <= i <= |Parts(x)| && 1 <= j <= |Parts(y)|
        && fold(Prefix(x, i)) == fold(Prefix(y, j))
      ensures Prefix(x, i) == Prefix(y, j)
    {
      PrefixListed(rows, x, i);
      PrefixListed(rows, y, j);
    }
    forall x, y, i: nat | x in rows && y in rows && 1 <= i < |Parts(x)| && fold(Path(y)) == fold(Prefix(x, i))
      ensures IsDirectory(y.raw)
    {
      assert ParentsOf(lower, rows, x) && ParentAt(lower, rows, x, i);
    }
    forall i, j | 0 <= i < j < |rows|
      ensures fold(Path(rows[i])) != fold(Path(rows[j]))
    {
      assert Key(lower, rows[i]) != Key(lower, rows[j]);
    }
  }

  // ---- one step of the loop ------------------------------------------------------------------

  /** `done` are laid out, and the first `n` directories on the way to `row`. */
  ghost predicate Under(fold: string -> string, contents: Contents, files: Files, done: seq<Row>, row: Row, n: nat)
    requires n <= |Parts(row)|
  {
    && (forall x :: x in done ==> HoldsEntry(fold, contents, files, x))
    && (forall i: nat :: 1 <= i <= n ==> HoldsDir(fold, files, Prefix(row, i)))
    && (forall key :: key in files ==> KeyOf(fold, done, key) || OnTheWay(fold, row, n, key))
  }

  ghost predicate OnTheWay(fold: string -> string, row: Row, n: nat, key: string)
    requires n <= |Parts(row)|
  {
    exists i: nat :: 1 <= i <= n && key == fold(Prefix(row, i))
  }

  /** An entry that stands at a directory that `row` needs is that directory. */
  lemma {:induction false} EntryOnTheWay(fold: string -> string, done: seq<Row>, row: Row, k: nat, x: Row)
    requires 1 <= k <= |Parts(row)| && (k < |Parts(row)| || IsDirectory(row.raw)) && x in done
    requires Compatible(fold, done + [row]) && fold(Path(x)) == fold(Prefix(row, k))
    ensures IsDirectory(x.raw) && Path(x) == Prefix(row, k)
  {
    hide Prefix, Parts, Path, IsDirectory;
    assert row in done + [row] && x in done + [row];
    FullPrefix(x);
    FullPrefix(row);
    OtherPath(fold, done, row, x);
  }

  lemma {:induction false} OtherPath(fold: string -> string, done: seq<Row>, row: Row, x: Row)
    requires DistinctPaths(fold, done + [row]) && x in done
    ensures fold(Path(x)) != fold(Path(row))
  {
    hide Path;
    var i :| 0 <= i < |done| && done[i] == x;
    assert (done + [row])[i] == x && (done + [row])[|done|] == row;
  }

  lemma {:induction false} ListedOnTheWay(fold: string -> string, contents: Contents, files: Files, done: seq<Row>,
                                          row: Row, k: nat, x: Row, i: nat)
    requires 1 <= k <= |Parts(row)| && (k < |Parts(row)| || IsDirectory(row.raw)) && x in done
    requires HoldsEntry(fold, contents, files, x) && Compatible(fold, done + [row])
    requires 1 <= i <= |Parts(x)| && fold(Prefix(x, i)) == fold(Prefix(row, k))
    ensures fold(Prefix(x, i)) in files && files[fold(Prefix(x, i))] == Dir(Prefix(row, k))
  {
    hide Prefix, Parts, Path, IsDirectory;
    FullPrefix(x);
    if i == |Parts(x)| {
      EntryOnTheWay(fold, done, row, k, x);
    } else {
      assert HoldsDir(fold, files, Prefix(x, i));
      assert x in done + [row] && row in done + [row];
    }
  }

  /** A key that is taken on the way to `row` is taken by the same directory. */
  lemma {:induction false} TakenByDirectory(fold: string -> string, contents: Contents, files: Files, done: seq<Row>,
                                            row: Row, n: nat, k: nat)
    requires k == n + 1 <= |Parts(row)| && Under(fold, contents, files, done, row, n) && Compatible(fold, done + [row])
    requires k < |Parts(row)| || IsDirectory(row.raw)
    requires fold(Prefix(row, k)) in files
    ensures files[fold(Prefix(row, k))] == Dir(Prefix(row, k))
  {
    hide Prefix, Parts, Path, HoldsEntry, PathsAgree, FilesAreLeaves, DistinctPaths;
    var key := fold(Prefix(row, k));
    if KeyOf(fold, done, key) {
      var x, i: nat :| x in done && 1 <= i <= |Parts(x)| && key == fold(Prefix(x, i));
      ListedOnTheWay(fold, contents, files, done, row, k, x, i);
    } else {
      var i: nat :| 1 <= i <= n && key == fold(Prefix(row, i));
      assert HoldsDir(fold, files, Prefix(row, i));
      SamePrefix(fold, done + [row], row, i, k);
    }
  }

  lemma {:induction false} SamePrefix(fold: string -> string, rows: seq<Row>, row: Row, i: nat, k: nat)
    requires PathsAgree(fold, rows) && row in rows && 1 <= i <= |Parts(row)| && 1 <= k <= |Parts(row)|
    requires fold(Prefix(row, i)) == fold(Prefix(row, k))
    ensures Prefix(row, i) == Prefix(row, k)
  {
  }

  lemma {:induction false} OneMoreDir(fold: string -> string, contents: Contents, files: Files, done: seq<Row>, row: Row,
                                      n: nat, k: nat)
    requires k == n + 1 <= |Parts(row)| && Under(fold, contents, files, done, row, n) && Compatible(fold, done + [row])
    requires k < |Parts(row)| || IsDirectory(row.raw)
    ensures MakeDir(fold, files, Prefix(row, k)).Some?
    ensures Under(fold, contents, MakeDir(fold, files, Prefix(row, k)).value, done, row, k)
  {
    hide Prefix, Parts, Path, Compatible, NodeOf, IsDirectory;
    var path := Prefix(row, k);
    if fold(path) in files {
      TakenByDirectory(fold, contents, files, done, row, n, k);
    }
    var made := MakeDir(fold, files, path).value;
    forall x | x in done
      ensures HoldsEntry(fold, contents, made, x)
    {
      assert HoldsEntry(fold, contents, files, x);
      assert forall i: nat :: 1 <= i < |Parts(x)| ==> HoldsDir(fold, files, Prefix(x, i));
    }
    forall i: nat | 1 <= i <= k
      ensures HoldsDir(fold, made, Prefix(row, i))
    {
      if i <= n {
        assert HoldsDir(fold, files, Prefix(row, i));
      }
    }
    forall key | key in made
      ensures KeyOf(fold, done, key) || OnTheWay(fold, row, k, key)
    {
      if key in files && !KeyOf(fold, done, key) {
        var i: nat :| 1 <= i <= n && key == fold(Prefix(row, i));
      }
    }
  }

  lemma {:induction false} AllDirs(fold: string -> string, contents: Contents, files: Files, done: seq<Row>, row: Row, n: nat)
    requires n <= |Parts(row)| && Tree(fold, contents, files, done) && Compatible(fold, done + [row])
    requires n < |Parts(row)| || IsDirectory(row.raw)
    ensures MakeDirs(fold, files, row, n).Some?
    ensures Under(fold, contents, MakeDirs(fold, files, row, n).value, done, row, n)
    decreases n
  {
    hide Prefix, Parts, Path, Compatible, HoldsEntry, KeyOf, MakeDir;
    if n > 0 {
      AllDirs(fold, contents, files, done, row, n - 1);
      OneMoreDir(fold, contents, MakeDirs(fold, files, row, n - 1).value, done, row, n - 1, n);
    }
  }

  lemma {:induction false} NotAKey(fold: string -> string, done: seq<Row>, row: Row, x: Row, i: nat)
    requires x in done && 1 <= i <= |Parts(x)| && Compatible(fold, done + [row]) && !IsDirectory(row.raw)
    ensures fold(Path(row)) != fold(Prefix(x, i))
  {
    hide Prefix, Parts, Path, IsDirectory;
    assert row in done + [row] && x in done + [row];
    FullPrefix(x);
    OtherPath(fold, done, row, x);
  }

  lemma {:induction false} FreePath(fold: string -> string, contents: Contents, files: Files, done: seq<Row>, row: Row)
    requires Under(fold, contents, files, done, row, |Parts(row)| - 1) && Compatible(fold, done + [row])
    requires !IsDirectory(row.raw)
    ensures fold(Path(row)) !in files
  {
    hide Prefix, Parts, Path, HoldsEntry, PathsAgree, DistinctPaths, IsDirectory;
    var key := fold(Path(row));
    forall x, i: nat | x in done && 1 <= i <= |Parts(x)|
      ensures key != fold(Prefix(x, i))
    {
      NotAKey(fold, done, row, x, i);
    }
    assert row in done + [row];
  }

  /** One entry added to a listed tree never conflicts and gives the tree with that entry. */
  lemma {:induction false} ExtractsOne(fold: string -> string, contents: Contents, files: Files, done: seq<Row>, row: Row)
    requires Tree(fold, contents, files, done) && Compatible(fold, done + [row])
    ensures ExtractRow(fold, contents, files, row).Err? <==> !IsDirectory(row.raw) && contents(row).None?
    ensures ExtractRow(fold, contents, files, row).Err? ==> ExtractRow(fold, contents, files, row).error == BadContent
    ensures ExtractRow(fold, contents, files, row).Ok? ==>
              Tree(fold, contents, ExtractRow(fold, contents, files, row).value, done + [row])
  {
    hide Prefix, Parts, Path, Compatible, Tree, MakeDirs, Under, IsDirectory;
    if IsDirectory(row.raw) {
      AllDirs(fold, contents, files, done, row, |Parts(row)|);
      DirectoryDone(fold, contents, MakeDirs(fold, files, row, |Parts(row)|).value, done, row);
    } else {
      AllDirs(fold, contents, files, done, row, |Parts(row)| - 1);
      var made := MakeDirs(fold, files, row, |Parts(row)| - 1).value;
      FreePath(fold, contents, made, done, row);
      if contents(row).Some? {
        FileDone(fold, contents, made, done, row);
      }
    }
  }

  lemma {:induction false} WidenKeys(fold: string -> string, done: seq<Row>, row: Row, key: string)
    requires KeyOf(fold, done, key) || OnTheWay(fold, row, |Parts(row)|, key)
    ensures KeyOf(fold, done + [row], key)
  {
    hide Prefix, Parts;
    if KeyOf(fold, done, key) {
      var x, i: nat :| x in done && 1 <= i <= |Parts(x)| && key == fold(Prefix(x, i));
      assert x in done + [row];
    } else {
      assert row in done + [row];
    }
  }

  lemma {:induction false} DirectoryDone(fold: string -> string, contents: Contents, files: Files, done: seq<Row>, row: Row)
    requires Under(fold, contents, files, done, row, |Parts(row)|) && IsDirectory(row.raw)
    ensures Tree(fold, contents, files, done + [row])
  {
    hide Prefix, Parts, Path, KeyOf, OnTheWay;
    FullPrefix(row);
    assert HoldsDir(fold, files, Prefix(row, |Parts(row)|));
    assert forall x :: x in done + [row] ==> x in done || x == row;
    forall key | key in files
      ensures KeyOf(fold, done + [row], key)
    {
      WidenKeys(fold, done, row, key);
    }
  }

  lemma {:induction false} FileDone(fold: string -> string, contents: Contents, files: Files, done: seq<Row>, row: Row)
    requires Under(fold, contents, files, done, row, |Parts(row)| - 1) && !IsDirectory(row.raw) && contents(row).Some?
    requires fold(Path(row)) !in files
    ensures Tree(fold, contents, files[fold(Path(row)) := File(Path(row), contents(row).value)], done + [row])
  {
    hide Prefix, Parts, Path, KeyOf;
    var after := files[fold(Path(row)) := File(Path(row), contents(row).value)];
    forall x | x in done + [row]
      ensures HoldsEntry(fold, contents, after, x)
    {
      if x in done {
        assert HoldsEntry(fold, contents, files, x);
        assert forall i: nat :: 1 <= i < |Parts(x)| ==> HoldsDir(fold, files, Prefix(x, i));
      } else {
        assert forall i: nat :: 1 <= i < |Parts(row)| ==> HoldsDir(fold, files, Prefix(row, i));
      }
    }
    forall key | key in after
      ensures KeyOf(fold, done + [row], key)
    {
      if key == fold(Path(row)) {
        FullPrefix(row);
        assert OnTheWay(fold, row, |Parts(row)|, key);
      } else if !KeyOf(fold, done, key) {
        var i: nat :| 1 <= i <= |Parts(row)| - 1 && key == fold(Prefix(row, i));
      }
      WidenKeys(fold, done, row, key);
    }
  }

  // ---- the whole loop ------------------------------------------------------------------------

  ghost predicate ContentsGood(contents: Contents, rows: seq<Row>)
  {
    forall x :: x in rows && !IsDirectory(x.raw) ==> contents(x).Some?
  }

  lemma {:induction false} CompatiblePrefix(fold: string -> string, rows: seq<Row>, more: seq<Row>)
    requires Compatible(fold, rows + more)
    ensures Compatible(fold, rows)
  {
    hide Prefix, Parts, Path;
    assert forall x :: x in rows ==> x in rows + more;
    forall i, j | 0 <= i < j < |rows|
      ensures fold(Path(rows[i])) != fold(Path(rows[j]))
    {
      assert (rows + more)[i] == rows[i] && (rows + more)[j] == rows[j];
    }
  }

  lemma {:induction false} ExtractsRest(fold: string -> string, contents: Contents, files: Files, done: seq<Row>,
                                        rest: seq<Row>)
    requires Tree(fold, contents, files, done) && Compatible(fold, done + rest)
    ensures var r := ExtractAll(fold, contents, files, rest);
            && (r.Ok? <==> ContentsGood(contents, rest))
            && (r.Err? ==> r.error == BadContent)
            && (r.Ok? ==> Tree(fold, contents, r.value, done + rest))
    decreases |rest|
  {
    hide Compatible, Tree, ExtractRow;
    if rest == [] {
      assert done + rest == done;
    } else {
      var row := rest[0];
      assert done + rest == (done + [row]) + rest[1..];
      CompatiblePrefix(fold, done + [row], rest[1..]);
      ExtractsOne(fold, contents, files, done, row);
      assert forall x :: x in rest <==> x == row || x in rest[1..];
      var r := ExtractRow(fold, contents, files, row);
      if r.Ok? {
        ExtractsRest(fold, contents, r.value, done + [row], rest[1..]);
      }
    }
  }

  lemma {:induction false} EmptyTree(fold: string -> string, contents: Contents)
    ensures Tree(fold, contents, map[], [])
  {
  }

  lemma {:induction false} CompatiblePermuted(fold: string -> string, rows: seq<Row>, ordered: seq<Row>)
    requires multiset(rows) == multiset(ordered) && Compatible(fold, rows)
    ensures Compatible(fold, ordered)
    ensures forall x :: x in ordered ==> x in rows
  {
    hide Prefix, Parts, Path;
    forall x | x in ordered
      ensures x in rows
    {
      ZipRoundTrip.MemberOfPermutation(ordered, rows, x);
    }
    forall i, j | 0 <= i < j < |ordered|
      ensures fold(Path(ordered[i])) != fold(Path(ordered[j]))
    {
      assert ordered[i] in ordered && ordered[j] in ordered;
      var k :| 0 <= k < |rows| && rows[k] == ordered[i];
      var n :| 0 <= n < |rows| && rows[n] == ordered[j];
      if ordered[i] == ordered[j] {
        ZipRoundTrip.TwiceInMultiset(ordered, i, j);
        OnlyOnce(fold, rows, k);
      }
    }
  }

  lemma {:induction false} OnlyOnce(fold: string -> string, rows: seq<Row>, k: nat)
    requires DistinctPaths(fold, rows) && k < |rows|
    ensures multiset(rows)[rows[k]] == 1
  {
    ZipRoundTrip.OnceInMultiset(rows, k);
  }

  /** Entries at distinct paths whose tree the files hold are compatible. */
  lemma {:induction false} TreeIsCompatible(fold: string -> string, contents: Contents, files: Files, rows: seq<Row>)
    requires Tree(fold, contents, files, rows)
    requires forall i, j :: 0 <= i < j < |rows| ==> Path(rows[i]) != Path(rows[j])
    ensures Compatible(fold, rows)
  {
    hide Prefix, Parts, Path, KeyOf, IsDirectory;
    forall x, y, i: nat, j: nat | x in rows && y in rows && 1 <= i <= |Parts(x)| && 1 <= j <= |Parts(y)|
        && fold(Prefix(x, i)) == fold(Prefix(y, j))
      ensures Prefix(x, i) == Prefix(y, j)
    {
      HeldAt(fold, contents, files, x, i);
      HeldAt(fold, contents, files, y, j);
    }
    forall x, y, i: nat | x in rows && y in rows && 1 <= i < |Parts(x)| && fold(Path(y)) == fold(Prefix(x, i))
      ensures IsDirectory(y.raw)
    {
      assert HoldsEntry(fold, contents, files, x) && HoldsDir(fold, files, Prefix(x, i));
      assert HoldsEntry(fold, contents, files, y);
    }
    forall i, j | 0 <= i < j < |rows|
      ensures fold(Path(rows[i])) != fold(Path(rows[j]))
    {
      assert HoldsEntry(fold, contents, files, rows[i]) && HoldsEntry(fold, contents, files, rows[j]);
      NodePath(contents, rows[i]);
      NodePath(contents, rows[j]);
    }
  }

  lemma {:induction false} NodePath(contents: Contents, row: Row)
    ensures NodeOf(contents, row).path == Path(row)
  {
  }

  lemma {:induction false} HeldAt(fold: string -> string, contents: Contents, files: Files, row: Row, i: nat)
    requires HoldsEntry(fold, contents, files, row) && 1 <= i <= |Parts(row)|
    ensures fold(Prefix(row, i)) in files && files[fold(Prefix(row, i))].path == Prefix(row, i)
  {
    hide Prefix, Parts, Path, IsDirectory;
    if i == |Parts(row)| {
      FullPrefix(row);
      NodePath(contents, row);
    } else {
      assert HoldsDir(fold, files, Prefix(row, i));
    }
  }

  lemma {:induction false} ExtractedIsGood(fold: string -> string, contents: Contents, files: Files, rows: seq<Row>)
    requires ExtractAll(fold, contents, files, rows).Ok?
    ensures ContentsGood(contents, rows)
    decreases |rows|
  {
    hide MakeDirs, Path, IsDirectory;
    if rows != [] {
      ExtractedIsGood(fold, contents, ExtractRow(fold, contents, files, rows[0]).value, rows[1..]);
      assert forall x :: x in rows <==> x == rows[0] || x in rows[1..];
    }
  }

  lemma {:induction false} DistinctPermuted(lower: string -> string, rows: seq<Row>, ordered: seq<Row>)
    requires DistinctKeys(lower, rows) && multiset(rows) == multiset(ordered)
    ensures forall i, j :: 0 <= i < j < |ordered| ==> Path(ordered[i]) != Path(ordered[j])
  {
    hide Path;
    forall i, j | 0 <= i < j < |ordered|
      ensures Path(ordered[i]) != Path(ordered[j])
    {
      assert ordered[i] in multiset(rows) && ordered[j] in multiset(rows);
      var k :| 0 <= k < |rows| && rows[k] == ordered[i];
      var n :| 0 <= n < |rows| && rows[n] == ordered[j];
      if ordered[i] == ordered[j] {
        ZipRoundTrip.TwiceInMultiset(ordered, i, j);
        OnceAmong(lower, rows, k);
      } else {
        assert Key(lower, rows[k]) != Key(lower, rows[n]);
      }
    }
  }

  lemma {:induction false} OnceAmong(lower: string -> string, rows: seq<Row>, k: nat)
    requires DistinctKeys(lower, rows) && k < |rows|
    ensures multiset(rows)[rows[k]] == 1
  {
    hide Path;
    ZipRoundTrip.OnceInMultiset(rows, k);
  }

  /**
   * On every file system and in any order of the entries: after an accepted preflight the extraction
   * leaves exactly the listed tree if and only if the contents are good and no two entries clash on
   * that file system; where none clash, only a wrong content makes it fail.
   */
  lemma {:induction false} ExtractionIsExact(names: Names, l: Limits, b: Bytes, end: nat, rows: seq<Row>,
                                             ordered: seq<Row>, fold: string -> string, contents: Contents)
    requires Accepted(names, l, b, end, rows) && multiset(ordered) == multiset(rows)
    ensures var r := ExtractAll(fold, contents, map[], ordered);
            && (r.Ok? && Tree(fold, contents, r.value, ordered) <==>
                ContentsGood(contents, ordered) && Compatible(fold, rows))
            && (Compatible(fold, rows) ==> (r.Ok? <==> ContentsGood(contents, ordered))
                                           && (r.Err? ==> r.error == BadContent))
  {
    hide Tree, ExtractAll, ContentsGood, Compatible, OneCase, ParentsAreDirectories, DistinctKeys, Listed, LastEnd, Path;
    var r := ExtractAll(fold, contents, map[], ordered);
    if Compatible(fold, rows) {
      CompatiblePermuted(fold, rows, ordered);
      EmptyTree(fold, contents);
      assert [] + ordered == ordered;
      ExtractsRest(fold, contents, map[], [], ordered);
    } else if r.Ok? && Tree(fold, contents, r.value, ordered) {
      DistinctPermuted(names.lower, rows, ordered);
      TreeIsCompatible(fold, contents, r.value, ordered);
      CompatiblePermuted(fold, ordered, rows);
    }
  }

  /**
   * A file system that folds no more than letter case, as the preflight's lower-case function does:
   * the extraction fails only for a wrong content and otherwise leaves exactly the listed tree.
   */
  lemma {:induction false} CaseFoldingIsHarmless(names: Names, l: Limits, b: Bytes, end: nat, rows: seq<Row>,
                                                 ordered: seq<Row>, fold: string -> string, contents: Contents)
    requires Accepted(names, l, b, end, rows) && multiset(ordered) == multiset(rows) && Finer(fold, names.lower)
    ensures var r := ExtractAll(fold, contents, map[], ordered);
            && (r.Ok? <==> ContentsGood(contents, ordered))
            && (r.Err? ==> r.error == BadContent)
            && (r.Ok? ==> Tree(fold, contents, r.value, ordered))
  {
    hide Tree, ExtractAll, ContentsGood, Compatible, Finer, OneCase, ParentsAreDirectories, DistinctKeys, Listed, LastEnd;
    ListCompatible(fold, names.lower, rows);
    ExtractionIsExact(names, l, b, end, rows, ordered, fold, contents);
  }

  /** What inflating or copying gives for an entry has the listed size and checksum. */
  ghost predicate SoundContent(inflate: Bytes -> Option<Bytes>, b: Bytes, row: Row, data: Bytes)
  {
    && row.data + row.c.compressed <= |b|
    && (if row.c.compression == 0 then data == b[row.data..row.data + row.c.compressed]
        else inflate(b[row.data..row.data + row.c.compressed]) == Some(data))
    && |data| == row.c.expanded && Crc32.Crc(data) == row.c.crc
  }

  lemma {:induction false} ContentIff(inflate: Bytes -> Option<Bytes>, b: Bytes, row: Row, data: Bytes)
    ensures Content(inflate, b, row) == Some(data) <==> SoundContent(inflate, b, row, data)
  {
    hide Crc32.Crc;
  }

  /** The contents that the source extracts. */
  function ContentsOf(inflate: Bytes -> Option<Bytes>, b: Bytes): Contents { row => Content(inflate, b, row) }

  /** The file of an entry, with a sound content. */
  ghost predicate HoldsSoundFile(
      fold: string -> string, inflate: Bytes -> Option<Bytes>, b: Bytes, files: Files, row: Row)
  {
    && fold(Path(row)) in files && files[fold(Path(row))].File? && files[fold(Path(row))].path == Path(row)
    && SoundContent(inflate, b, row, files[fold(Path(row))].data)
  }

  /**
   * The source's extraction succeeds exactly when the data of every listed file has the listed size
   * and checksum, unless entries clash on the file system; then every listed file is there with that content.
   */
  lemma {:induction false} ExtractedFilesAreSound(
      names: Names, l: Limits, b: Bytes, end: nat, rows: seq<Row>, ordered: seq<Row>, fold: string -> string,
      inflate: Bytes -> Option<Bytes>)
    requires Accepted(names, l, b, end, rows) && multiset(ordered) == multiset(rows) && Compatible(fold, rows)
    ensures var r := ExtractAll(fold, ContentsOf(inflate, b), map[], ordered);
            && (r.Ok? <==> forall x :: x in ordered && !IsDirectory(x.raw) ==>
                             exists data :: SoundContent(inflate, b, x, data))
            && (r.Ok? ==> forall x :: x in ordered && !IsDirectory(x.raw) ==>
                            HoldsSoundFile(fold, inflate, b, r.value, x))
  {
    hide Accepted, ExtractAll, Content, SoundContent, Path, IsDirectory, Compatible, Prefix, Parts;
    var contents := ContentsOf(inflate, b);
    ExtractionIsExact(names, l, b, end, rows, ordered, fold, contents);
    forall x | x in ordered
      ensures contents(x).Some? <==> exists data :: SoundContent(inflate, b, x, data)
    {
      if contents(x).Some? {
        ContentIff(inflate, b, x, contents(x).value);
      }
      forall data | SoundContent(inflate, b, x, data) ensures contents(x).Some? {
        ContentIff(inflate, b, x, data);
      }
    }
    var r := ExtractAll(fold, contents, map[], ordered);
    if r.Ok? {
      forall x | x in ordered && !IsDirectory(x.raw)
        ensures HoldsSoundFile(fold, inflate, b, r.value, x)
      {
        assert HoldsEntry(fold, contents, r.value, x);
        ContentIff(inflate, b, x, contents(x).value);
      }
    }
  }

  // ---- staying under the root ----------------------------------------------------------------

  /** `path.join(root, ...)`: empty parts and `.` disappear, `..` removes the part before it. */
  function Resolve(root: seq<string>, parts: seq<string>): seq<string>
    decreases |parts|
  {
    if parts == [] then root
    else if parts[0] == "" || parts[0] == "." then Resolve(root, parts[1..])
    else if parts[0] == ".." then Resolve(if root == [] then [] else root[..|root| - 1], parts[1..])
    else Resolve(root + [parts[0]], parts[1..])
  }

  lemma {:induction false} PlainPartsResolve(root: seq<string>, parts: seq<string>)
    requires forall part :: part in parts ==> part != "" && part != "." && part != ".."
    ensures Resolve(root, parts) == root + parts
    decreases |parts|
  {
    if parts == [] {
      assert root + parts == root;
    } else {
      assert parts[0] in parts && forall part :: part in parts[1..] ==> part in parts;
      PlainPartsResolve(root + [parts[0]], parts[1..]);
      assert (root + [parts[0]]) + parts[1..] == root + parts;
    }
  }

  /** `n` parts `..` in front climb that many levels, and empty parts and `.` stay: what is refused would leave the root. */
  lemma {:induction false} DotsClimb(root: seq<string>, n: nat, parts: seq<string>)
    ensures Resolve(root, seq(n, _ => "..") + parts) == Resolve(root[..if n < |root| then |root| - n else 0], parts)
    ensures Resolve(root, seq(n, _ => "") + parts) == Resolve(root, parts) == Resolve(root, seq(n, _ => ".") + parts)
    decreases n
  {
    if n == 0 {
      assert seq(0, _ => "..") + parts == parts && seq(0, _ => "") + parts == parts && seq(0, _ => ".") + parts == parts;
      assert root[..|root|] == root;
    } else {
      DotsRest(n, "..", parts);
      DotsRest(n, "", parts);
      DotsRest(n, ".", parts);
      var up := if root == [] then [] else root[..|root| - 1];
      DotsClimb(up, n - 1, parts);
      DotsClimb(root, n - 1, parts);
      assert up[..if n - 1 < |up| then |up| - (n - 1) else 0] == root[..if n < |root| then |root| - n else 0];
    }
  }

  lemma {:induction false} DotsRest(n: nat, part: string, parts: seq<string>)
    requires n > 0
    ensures (seq(n, _ => part) + parts)[0] == part && (seq(n, _ => part) + parts)[1..] == seq(n - 1, _ => part) + parts
  {
  }

  /** Every path of an accepted archive resolves to a place strictly below the root, whatever the root. */
  lemma {:induction false} StaysUnderRoot(names: Names, l: Limits, b: Bytes, end: nat, rows: seq<Row>, row: Row,
                                          root: seq<string>)
    requires Accepted(names, l, b, end, rows) && row in rows
    ensures Resolve(root, Parts(row)) == root + Parts(row) && |Parts(row)| <= l.depth
  {
    hide U16, U32, ListSound, LastEnd, Listed, EndSound;
    CandidateTiling.AcceptedRows(names, l, b, end, rows);
    RowIsSafe(names, l, b, end, U32(b, end + 16), row);
    assert forall part :: part in Parts(row) ==> SafePart(names, part);
    PlainPartsResolve(root, Parts(row));
  }

  lemma {:induction false} RowIsSafe(names: Names, l: Limits, b: Bytes, end: nat, offset: nat, row: Row)
    requires offset <= end <= |b| && Reader(PolicyOf(names, l), l, b, end, offset)(row.pos) == Some(row)
    ensures SafePath(names, l, row.raw)
  {
  }
}
