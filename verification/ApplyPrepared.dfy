/** `applyPrepared`: file writes and deletions that happen completely or not at all. */
module ApplyPrepared {
  import opened Wrappers

  // A write replaces its file by a rename, so it may also fail after the file was replaced.

  type Path = string

  /** `mode` is the twelve permission bits, of which the code keeps nine. */
  datatype File = File(content: seq<nat>, mode: nat)

  type Files = map<Path, File>

  const MAX_FILE_BYTES: nat := 2 * 1024 * 1024

  datatype Row = Write(path: Path, content: seq<nat>) | Delete(path: Path)

  /** How a step fails: not at all, before it did anything, or, for a write, after the rename. */
  datatype Fault = NoFault | Early | Late(mode: nat)

  function Get(files: Files, p: Path): Option<File> { if p in files then Some(files[p]) else None }

  /** The permission bits captured for a path before the first write. */
  function CapturedMode(start: Files, p: Path): nat { if p in start then start[p].mode % 512 else 0x1A4 }

  /** The file that a write leaves; a captured mode of 0 means the default. */
  function Written(start: Files, row: Row): File
    requires row.Write?
  {
    var mode := CapturedMode(start, row.path);
    File(row.content, if mode == 0 then 0x1A4 else mode)
  }

  predicate Fits(content: seq<nat>) { |content| <= MAX_FILE_BYTES }

  /** Does the step return normally? */
  predicate Works(files: Files, row: Row, fault: Fault)
  {
    fault.NoFault? && if row.Write? then Fits(row.content) else row.path in files
  }

  function Done(start: Files, files: Files, row: Row): Files
  {
    if row.Write? then files[row.path := Written(start, row)] else files - {row.path}
  }

  /** What a failing step leaves behind: a late failure has already replaced the file. */
  function Failed(files: Files, row: Row, fault: Fault): Files
  {
    if row.Write? && Fits(row.content) && fault.Late? then files[row.path := File(row.content, fault.mode)] else files
  }

  /** The files after the first `k` rows. */
  function Forward(start: Files, rows: seq<Row>, k: nat): Files
    requires k <= |rows|
    decreases k
  {
    if k == 0 then start else Done(start, Forward(start, rows, k - 1), rows[k - 1])
  }

  /** Rolling back one row; a file over the limit cannot be written again, and the error is swallowed. */
  function UndoOne(start: Files, files: Files, p: Path): Files
  {
    if p !in start then files - {p}
    else if Fits(start[p].content) then files[p := File(start[p].content, start[p].mode % 512)]
    else files
  }

  /** Rolling back the first `k` rows, last one first. */
  function Undo(start: Files, files: Files, rows: seq<Row>, k: nat): Files
    requires k <= |rows|
    decreases k
  {
    if k == 0 then files else Undo(start, UndoOne(start, files, rows[k - 1].path), rows, k - 1)
  }

  type Faults = nat -> Fault

  /** The first `k` rows work. */
  ghost predicate WorkUpTo(start: Files, rows: seq<Row>, faults: Faults, k: nat)
    requires k <= |rows|
  {
    forall i :: 0 <= i < k ==> Works(Forward(start, rows, i), rows[i], faults(i))
  }

  /** Row `k` is the first that fails. */
  ghost predicate FailsAt(start: Files, rows: seq<Row>, faults: Faults, k: nat)
    requires k < |rows|
  {
    WorkUpTo(start, rows, faults, k) && !Works(Forward(start, rows, k), rows[k], faults(k))
  }

  /** What is on disk after the rollback from a failure at row `k`. */
  function RolledBack(start: Files, rows: seq<Row>, faults: Faults, k: nat): Files
    requires k < |rows|
  {
    Undo(start, Failed(Forward(start, rows, k), rows[k], faults(k)), rows, k)
  }

  // ---- the procedure ---------------------------------------------------------------------------

  class Disk {
    var files: Files

    constructor (files: Files)
      ensures this.files == files
    {
      this.files := files;
    }

    /** `atomicWriteFileSync` with the size limit. */
    method AtomicWrite(path: Path, content: seq<nat>, mode: nat, fault: Fault) returns (ok: bool)
      modifies this
      ensures ok <==> Fits(content) && fault.NoFault?
      ensures ok ==> files == old(files)[path := File(content, mode)]
      ensures !ok ==> files == if Fits(content) && fault.Late? then old(files)[path := File(content, fault.mode)] else old(files)
    {
      if |content| > MAX_FILE_BYTES || fault.Early? {
        return false;
      }
      files := files[path := File(content, if fault.Late? then fault.mode else mode)];
      return fault.NoFault?;
    }

    /** `rmSync`; without `force` a missing file is an error. */
    method Remove(path: Path, force: bool, fault: Fault) returns (ok: bool)
      modifies this
      ensures ok <==> fault.NoFault? && (force || path in old(files))
      ensures files == if ok then old(files) - {path} else old(files)
    {
      if !fault.NoFault? || (!force && path !in files) {
        return false;
      }
      files := files - {path};
      return true;
    }
  }

  /** `originals`: captured for every row before the first write. */
  function Captured(start: Files, rows: seq<Row>): (originals: seq<Option<File>>)
    ensures |originals| == |rows|
  {
    seq(|rows|, i requires 0 <= i < |rows| =>
      match Get(start, rows[i].path)
      case Some(f) => Some(File(f.content, f.mode % 512))
      case None => None)
  }

  lemma {:induction false} NothingDone(start: Files, rows: seq<Row>, faults: Faults)
    ensures WorkUpTo(start, rows, faults, 0) && Forward(start, rows, 0) == start
  {
  }

  lemma {:induction false} ForwardNext(start: Files, rows: seq<Row>, k: nat, next: nat)
    requires next == k + 1 <= |rows|
    ensures Forward(start, rows, next) == Done(start, Forward(start, rows, k), rows[k])
  {
  }

  lemma {:induction false} OneMoreWorks(start: Files, rows: seq<Row>, faults: Faults, k: nat, next: nat)
    requires next == k + 1 <= |rows| && WorkUpTo(start, rows, faults, k)
    requires Works(Forward(start, rows, k), rows[k], faults(k))
    ensures WorkUpTo(start, rows, faults, next)
  {
    hide Works, Forward;
  }

  /** The forward loop; returns how many rows were done. */
  method Perform(disk: Disk, rows: seq<Row>, originals: seq<Option<File>>, faults: Faults) returns (done: nat)
    requires originals == Captured(disk.files, rows)
    modifies disk
    ensures done <= |rows| && WorkUpTo(old(disk.files), rows, faults, done)
    ensures done == |rows| ==> disk.files == Forward(old(disk.files), rows, done)
    ensures done < |rows| ==> FailsAt(old(disk.files), rows, faults, done)
    ensures done < |rows| ==> disk.files == Failed(Forward(old(disk.files), rows, done), rows[done], faults(done))
  {
    hide WorkUpTo, Forward, Fits;
    done := 0;
    NothingDone(disk.files, rows, faults);
    while done < |rows|
      invariant done <= |rows| && WorkUpTo(old(disk.files), rows, faults, done)
      invariant disk.files == Forward(old(disk.files), rows, done)
    {
      var c, ok := rows[done], true;
      if c.Write? {
        var mode := if originals[done].Some? then originals[done].value.mode else 0x1A4;
        ok := disk.AtomicWrite(c.path, c.content, if mode == 0 then 0x1A4 else mode, faults(done));
      } else {
        ok := disk.Remove(c.path, false, faults(done));
      }
      if !ok {
        return;
      }
      ForwardNext(old(disk.files), rows, done, done + 1);
      OneMoreWorks(old(disk.files), rows, faults, done, done + 1);
      done := done + 1;
    }
  }

  /** The rollback loop, each error swallowed. */
  method RollBack(disk: Disk, rows: seq<Row>, originals: seq<Option<File>>, done: nat, ghost start: Files)
    requires done <= |rows| && originals == Captured(start, rows)
    modifies disk
    ensures disk.files == Undo(start, old(disk.files), rows, done)
  {
    var i := done;
    while i > 0
      invariant 0 <= i <= done
      invariant Undo(start, old(disk.files), rows, done) == Undo(start, disk.files, rows, i)
    {
      i := i - 1;
      match originals[i]
      case Some(o) => var _ := disk.AtomicWrite(rows[i].path, o.content, o.mode, NoFault);
      case None => var _ := disk.Remove(rows[i].path, true, NoFault);
    }
  }

  /** `applyPrepared`: `None` when every row was done, otherwise the row that failed. */
  method Apply(disk: Disk, rows: seq<Row>, faults: Faults) returns (failed: Option<nat>)
    modifies disk
    ensures failed.None? ==> WorkUpTo(old(disk.files), rows, faults, |rows|)
                             && disk.files == Forward(old(disk.files), rows, |rows|)
    ensures failed.Some? ==> failed.value < |rows| && FailsAt(old(disk.files), rows, faults, failed.value)
                             && disk.files == RolledBack(old(disk.files), rows, faults, failed.value)
  {
    var originals := Captured(disk.files, rows);
    ghost var start := disk.files;
    var done := Perform(disk, rows, originals, faults);
    if done == |rows| {
      return None;
    }
    RollBack(disk, rows, originals, done, start);
    return Some(done);
  }

  // ---- what the rows do ------------------------------------------------------------------------

  /** Row `j` is the last of the first `k` rows that names `p`. */
  ghost predicate Latest(rows: seq<Row>, k: nat, p: Path, j: nat)
    requires k <= |rows|
  {
    j < k && rows[j].path == p && forall i :: j < i < k ==> rows[i].path != p
  }

  /**
   * After `k` rows a path holds what the last row that names it says: nothing, or its content under
   * the nine permission bits the file had at the start, or 0644 when it had none.
   */
  lemma {:induction false} ForwardAt(start: Files, rows: seq<Row>, k: nat, p: Path, j: nat)
    requires k <= |rows| && Latest(rows, k, p, j)
    ensures rows[j].Delete? ==> p !in Forward(start, rows, k)
    ensures rows[j].Write? ==>
              var bits := if p in start then start[p].mode % 512 else 0;
              Get(Forward(start, rows, k), p) == Some(File(rows[j].content, if bits == 0 then 420 else bits))
    decreases k
  {
    if j < k - 1 {
      ForwardAt(start, rows, k - 1, p, j);
    }
  }

  ghost predicate Touched(rows: seq<Row>, k: nat, p: Path)
    requires k <= |rows|
  {
    exists i :: 0 <= i < k && rows[i].path == p
  }

  /** A path that no row names never changes, whatever happens. */
  lemma {:induction false} ForwardElsewhere(start: Files, rows: seq<Row>, k: nat, p: Path)
    requires k <= |rows| && !Touched(rows, k, p)
    ensures Get(Forward(start, rows, k), p) == Get(start, p)
    decreases k
  {
    if k > 0 {
      assert rows[k - 1].path != p;
      assert forall i :: 0 <= i < k - 1 ==> rows[i].path != p;
      ForwardElsewhere(start, rows, k - 1, p);
    }
  }

  lemma {:induction false} HasLatest(rows: seq<Row>, k: nat, p: Path) returns (j: nat)
    requires k <= |rows| && Touched(rows, k, p)
    ensures Latest(rows, k, p, j)
    decreases k
  {
    if rows[k - 1].path == p {
      j := k - 1;
    } else {
      assert Touched(rows, k - 1, p);
      j := HasLatest(rows, k - 1, p);
    }
  }

  /** Before row `k` its path has a file: the last row that names it wrote one, or no row names it and it had one. */
  ghost predicate Present(start: Files, rows: seq<Row>, k: nat)
    requires k < |rows|
  {
    var p := rows[k].path;
    if Touched(rows, k, p) then exists j: nat :: Latest(rows, k, p, j) && rows[j].Write? else p in start
  }

  lemma {:induction false} PresentIff(start: Files, rows: seq<Row>, k: nat)
    requires k < |rows|
    ensures rows[k].path in Forward(start, rows, k) <==> Present(start, rows, k)
  {
    hide Forward, Touched;
    var p := rows[k].path;
    if Touched(rows, k, p) {
      var j := HasLatest(rows, k, p);
      ForwardAt(start, rows, k, p, j);
      if i: nat :| i < k && Latest(rows, k, p, i) && rows[i].Write? {
        OneLatest(rows, k, p, i, j);
      }
    } else {
      ForwardElsewhere(start, rows, k, p);
      assert Get(Forward(start, rows, k), p).Some? <==> p in start;
    }
  }

  lemma {:induction false} OneLatest(rows: seq<Row>, k: nat, p: Path, i: nat, j: nat)
    requires k <= |rows| && Latest(rows, k, p, i) && Latest(rows, k, p, j)
    ensures i == j
  {
  }

  /** The first `k` rows work if and only if no fault hits them, no content is over the limit, and each deleted file is there. */
  lemma {:induction false} WorkIff(start: Files, rows: seq<Row>, faults: Faults, k: nat)
    requires k <= |rows|
    ensures WorkUpTo(start, rows, faults, k) <==>
            forall i :: 0 <= i < k ==>
              && faults(i) == NoFault
              && (rows[i].Write? ==> |rows[i].content| <= 2097152)
              && (rows[i].Delete? ==> Present(start, rows, i))
  {
    hide Forward, Present;
    forall i | 0 <= i < k
      ensures Works(Forward(start, rows, i), rows[i], faults(i)) <==>
                && faults(i) == NoFault
                && (rows[i].Write? ==> |rows[i].content| <= 2097152)
                && (rows[i].Delete? ==> Present(start, rows, i))
    {
      PresentIff(start, rows, i);
    }
  }

  // ---- what is restored ------------------------------------------------------------------------

  lemma {:induction false} UndoAt(start: Files, files: Files, rows: seq<Row>, k: nat, p: Path)
    requires k <= |rows|
    ensures !Touched(rows, k, p) || (p in start && |start[p].content| > 2097152) ==>
              Get(Undo(start, files, rows, k), p) == Get(files, p)
    ensures Touched(rows, k, p) && p !in start ==> p !in Undo(start, files, rows, k)
    ensures Touched(rows, k, p) && p in start && |start[p].content| <= 2097152 ==>
              Get(Undo(start, files, rows, k), p) == Some(File(start[p].content, start[p].mode % 512))
    decreases k
  {
    if k > 0 {
      var next := UndoOne(start, files, rows[k - 1].path);
      UndoAt(start, next, rows, k - 1, p);
      assert Touched(rows, k, p) <==> rows[k - 1].path == p || Touched(rows, k - 1, p);
    }
  }

  /** Where rows worked there is no file over the limit. */
  lemma {:induction false} ForwardSmall(start: Files, rows: seq<Row>, faults: Faults, k: nat, p: Path)
    requires k <= |rows| && WorkUpTo(start, rows, faults, k) && Touched(rows, k, p)
    ensures p in Forward(start, rows, k) ==> |Forward(start, rows, k)[p].content| <= 2097152
  {
    hide Works, Forward, Present;
    var j := HasLatest(rows, k, p);
    ForwardAt(start, rows, k, p, j);
    WorkIff(start, rows, faults, k);
    assert p in Forward(start, rows, k) ==> Get(Forward(start, rows, k), p) == Some(Forward(start, rows, k)[p]);
  }

  /** The write of row `k` replaces its file and then fails. */
  ghost predicate FailsLate(rows: seq<Row>, faults: Faults, k: nat)
    requires k < |rows|
  {
    rows[k].Write? && |rows[k].content| <= 2097152 && faults(k).Late?
  }

  /** What is on disk after the rollback, path by path. */
  lemma {:induction false} RolledBackAt(start: Files, rows: seq<Row>, faults: Faults, k: nat, p: Path)
    requires k < |rows| && FailsAt(start, rows, faults, k)
    ensures Touched(rows, k, p) && p !in start ==> p !in RolledBack(start, rows, faults, k)
    ensures Touched(rows, k, p) && p in start && |start[p].content| <= 2097152 ==>
              Get(RolledBack(start, rows, faults, k), p) == Some(File(start[p].content, start[p].mode % 512))
    ensures Touched(rows, k, p) && p in start && |start[p].content| > 2097152 ==>
              Get(RolledBack(start, rows, faults, k), p) != Get(start, p)
    ensures !Touched(rows, k, p) ==>
              Get(RolledBack(start, rows, faults, k), p)
              == if p == rows[k].path && FailsLate(rows, faults, k) then Some(File(rows[k].content, faults(k).mode))
                 else Get(start, p)
  {
    hide Undo, Forward, Works;
    var left := Failed(Forward(start, rows, k), rows[k], faults(k));
    UndoAt(start, left, rows, k, p);
    if Touched(rows, k, p) {
      ForwardSmall(start, rows, faults, k, p);
    } else {
      ForwardElsewhere(start, rows, k, p);
    }
  }

  lemma {:induction false} SameFiles(a: Files, b: Files)
    ensures a == b <==> forall p :: Get(a, p) == Get(b, p)
  {
    if forall p :: Get(a, p) == Get(b, p) {
      assert forall p :: p in a <==> Get(a, p).Some?;
      assert forall p :: p in b <==> Get(b, p).Some?;
      forall p | p in a
        ensures a[p] == b[p]
      {
        assert Get(a, p) == Get(b, p);
      }
    }
  }

  /** The original at `p` can be written back as it was. */
  ghost predicate Restorable(start: Files, p: Path) { p in start ==> |start[p].content| <= 2097152 && start[p].mode < 512 }

  lemma {:induction false} RestoredIff(start: Files, rows: seq<Row>, faults: Faults, k: nat, p: Path)
    requires k < |rows| && FailsAt(start, rows, faults, k) && Touched(rows, k, p)
    ensures Get(RolledBack(start, rows, faults, k), p) == Get(start, p) <==> Restorable(start, p)
  {
    hide RolledBack, FailsAt, Touched;
    RolledBackAt(start, rows, faults, k, p);
  }

  /**
   * The rollback restores exactly the starting files if and only if no touched original is over
   * the size limit or has a permission bit beyond the nine that are kept, and the failing write
   * did not itself replace a file that no earlier row names.
   */
  lemma {:induction false} RestoresIff(start: Files, rows: seq<Row>, faults: Faults, k: nat)
    requires k < |rows| && FailsAt(start, rows, faults, k)
    ensures RolledBack(start, rows, faults, k) == start <==>
              && (forall i :: 0 <= i < k && rows[i].path in start ==>
                    |start[rows[i].path].content| <= 2097152 && start[rows[i].path].mode < 512)
              && (FailsLate(rows, faults, k) ==>
                    || (exists i :: 0 <= i < k && rows[i].path == rows[k].path)
                    || Get(start, rows[k].path) == Some(File(rows[k].content, faults(k).mode)))
  {
    hide RolledBack, FailsAt, FailsLate;
    var back := RolledBack(start, rows, faults, k);
    SameFiles(back, start);
    RolledBackAt(start, rows, faults, k, rows[k].path);
    assert forall i :: 0 <= i < k ==> Touched(rows, k, rows[i].path);
    forall i | 0 <= i < k
      ensures Get(back, rows[i].path) == Get(start, rows[i].path) <==> Restorable(start, rows[i].path)
    {
      RestoredIff(start, rows, faults, k, rows[i].path);
    }
    forall p | !Touched(rows, k, p) && (p == rows[k].path ==> !FailsLate(rows, faults, k))
      ensures Get(back, p) == Get(start, p)
    {
      RolledBackAt(start, rows, faults, k, p);
    }
  }

  /** Paths that are not listed never change, whether the rows were applied or rolled back. */
  lemma {:induction false} OthersUnchanged(start: Files, rows: seq<Row>, faults: Faults, k: nat, p: Path)
    requires k < |rows| && FailsAt(start, rows, faults, k) && forall i :: 0 <= i < |rows| ==> rows[i].path != p
    ensures Get(RolledBack(start, rows, faults, k), p) == Get(start, p)
    ensures Get(Forward(start, rows, |rows|), p) == Get(start, p)
  {
    hide RolledBack, Forward;
    RolledBackAt(start, rows, faults, k, p);
    ForwardElsewhere(start, rows, |rows|, p);
  }

  /** The second of two rows fails before it does anything. */
  function SecondFails(): Faults { i => if i == 1 then Early else NoFault }

  lemma {:induction false} SecondFailing(start: Files, first: Row, second: Row)
    requires Works(start, first, NoFault)
    ensures var rows := [first, second];
            && FailsAt(start, rows, SecondFails(), 1)
            && RolledBack(start, rows, SecondFails(), 1) == UndoOne(start, Done(start, start, first), first.path)
  {
    var rows := [first, second];
    assert Forward(start, rows, 0) == start;
    ForwardNext(start, rows, 0, 1);
    var after := Done(start, start, first);
    assert Undo(start, after, rows, 1) == Undo(start, UndoOne(start, after, first.path), rows, 0);
  }

  /** A deleted file over the limit is lost when the next deletion fails. */
  lemma {:induction false} OversizeOriginalIsLost(a: Path, b: Path, f: File, g: File)
    requires a != b && |f.content| > 2097152
    ensures var start: Files := map[a := f, b := g];
            var rows := [Delete(a), Delete(b)];
            FailsAt(start, rows, SecondFails(), 1) && a !in RolledBack(start, rows, SecondFails(), 1)
  {
    SecondFailing(map[a := f, b := g], Delete(a), Delete(b));
  }

  /** A file with a set-user-id bit gets its content back, and loses the bit. */
  lemma {:induction false} SpecialModeIsLost(a: Path, b: Path, f: File, g: File, text: seq<nat>)
    requires a != b && |f.content| <= 2097152 && |text| <= 2097152 && f.mode >= 512
    ensures var start: Files := map[a := f, b := g];
            var rows := [Write(a, text), Delete(b)];
            && FailsAt(start, rows, SecondFails(), 1)
            && Get(RolledBack(start, rows, SecondFails(), 1), a) == Some(File(f.content, f.mode % 512)) != Some(f)
  {
    SecondFailing(map[a := f, b := g], Write(a, text), Delete(b));
  }

  /** A write that fails after its rename stays. */
  lemma {:induction false} LateWriteStays(a: Path, f: File, text: seq<nat>, mode: nat)
    requires |text| <= 2097152 && text != f.content
    ensures var start: Files := map[a := f];
            var rows := [Write(a, text)];
            var faults: Faults := _ => Late(mode);
            && FailsAt(start, rows, faults, 0)
            && Get(RolledBack(start, rows, faults, 0), a) == Some(File(text, mode)) != Get(start, a)
  {
    var start: Files := map[a := f];
    var rows := [Write(a, text)];
    assert Forward(start, rows, 0) == start;
    assert Undo(start, start[a := File(text, mode)], rows, 0) == start[a := File(text, mode)];
  }
}
