/** The rotating file sink: numbered log files, of which number 0 is written to and higher is older. */
module RotatingSink {
  import opened Bytes
  import opened Options

  const MAX_FILES: nat := 200000

  /** The log files on disk by number. */
  type Files = map<nat, seq<byte>>

  function Look(f: Files, j: nat): Option<seq<byte>> {
    if j in f then Some(f[j]) else None
  }

  // ----- Rotation, stated per file number -----

  /**
   * File j after the descending renames have dealt with the targets n, n-1, ..., i+1: each of those took the
   * file below it. The oldest stays when there was nothing to take its place.
   */
  function ShiftedAt(f: Files, n: nat, i: nat, j: nat): Option<seq<byte>>
    requires i <= n
  {
    if j > n || j < i then Look(f, j)
    else if j == i then (if i == n then Look(f, j) else None)
    else if j == n && n - 1 !in f then Look(f, n)
    else Look(f, j - 1)
  }

  /** The disk after a rotation: all renames done and file 0 truncated. */
  function Rotated(f: Files, n: nat): (f': Files)
    ensures forall j: nat :: Look(f', j) == if j == 0 then Some([]) else ShiftedAt(f, n, 0, j)
  {
    var candidates := f.Keys + (set j | j in f.Keys :: j + 1);
    var shifted := map j | j in candidates && ShiftedAt(f, n, 0, j).Some? :: ShiftedAt(f, n, 0, j).value;
    assert forall j: nat :: ShiftedAt(f, n, 0, j).Some? ==> j in candidates by {
      forall j: nat | ShiftedAt(f, n, 0, j).Some? ensures j in candidates {
        if j !in f {
          assert j - 1 in f.Keys;
        }
      }
    }
    shifted[0 := []]
  }

  lemma SameFiles(f: Files, g: Files)
    requires forall j: nat :: Look(f, j) == Look(g, j)
    ensures f == g
  {
    forall j | j in f.Keys ensures j in g && f[j] == g[j] {
      assert Look(f, j) == Look(g, j);
    }
    forall j | j in g.Keys ensures j in f {
      assert Look(f, j) == Look(g, j);
    }
  }

  // ----- What the files hold together -----

  function Content(f: Files, j: nat): seq<byte> {
    if j in f then f[j] else []
  }

  /** The files n, n-1, ..., 0 one behind the other: the log, oldest first. */
  function Concat(f: Files, n: nat): seq<byte> {
    Content(f, n) + (if n == 0 then [] else Concat(f, n - 1))
  }

  lemma {:induction false} ConcatShift(f: Files, g: Files, k: nat)
    requires Content(g, 0) == [] && forall j: nat :: 1 <= j <= k ==> Content(g, j) == Content(f, j - 1)
    ensures Concat(g, k) == if k == 0 then [] else Concat(f, k - 1)
  {
    if k > 0 {
      ConcatShift(f, g, k - 1);
      assert Concat(g, k) == Content(f, k - 1) + Concat(g, k - 1);
      assert k > 1 ==> Concat(f, k - 1) == Content(f, k - 1) + Concat(f, k - 2);
      assert k == 1 ==> Concat(f, k - 1) == Content(f, k - 1) + [];
    } else {
      assert Concat(g, k) == Content(g, 0) + [];
    }
  }

  lemma ShiftedContent(f: Files, n: nat, j: nat)
    requires j <= n
    ensures var g := Rotated(f, n);
            && Content(g, 0) == []
            && (j >= 1 && (j < n || n - 1 in f) ==> Content(g, j) == Content(f, j - 1))
            && (j == n >= 1 && n - 1 !in f ==> Content(g, j) == Content(f, n))
  {
    assert Look(Rotated(f, n), 0) == Some([]);
    assert j > 0 ==> Look(Rotated(f, n), j) == ShiftedAt(f, n, 0, j);
  }

  /** The renames move the files below k up by one, and the oldest out unless there is a gap just below it. */
  lemma ShiftsBelow(f: Files, n: nat, k: nat)
    requires k <= n && (k < n || n == 0 || n - 1 in f)
    ensures Concat(Rotated(f, n), k) == if k == 0 then [] else Concat(f, k - 1)
  {
    var g := Rotated(f, n);
    forall j: nat | j <= k ensures Content(g, 0) == [] && (1 <= j ==> Content(g, j) == Content(f, j - 1)) {
      ShiftedContent(f, n, j);
    }
    ConcatShift(f, g, k);
  }

  lemma OneFile(f: Files, n: nat)
    requires n >= 1
    ensures Concat(f, n) == Content(f, n) + Concat(f, n - 1)
  {
  }

  lemma OverGap(f: Files, n: nat)
    requires n >= 2 && n - 1 !in f
    ensures Concat(f, n - 1) == Concat(f, n - 2)
  {
    OneFile(f, n - 1);
    assert [] + Concat(f, n - 2) == Concat(f, n - 2);
  }

  /** Files that moved up below a gap that is now filled. */
  lemma GapFilled(f: Files, g: Files, n: nat)
    requires n >= 2 && n - 1 !in f
    requires Concat(g, n - 1) == Concat(f, n - 2) && Content(g, n) == Content(f, n)
    ensures Concat(g, n) == Concat(f, n)
  {
    OneFile(g, n);
    OneFile(f, n);
    OverGap(f, n);
  }

  /** With a gap just below the oldest, nothing is lost. */
  lemma RotationFillsGap(f: Files, n: nat)
    requires n >= 2 && n - 1 !in f
    ensures Concat(Rotated(f, n), n) == Concat(f, n)
  {
    ShiftsBelow(f, n, n - 1);
    ShiftedContent(f, n, n);
    GapFilled(f, Rotated(f, n), n);
  }

  /** A rotation loses exactly the oldest file, and that only if the file below takes its place. */
  lemma RotationDropsOldest(f: Files, n: nat)
    requires 0 in f
    ensures Concat(Rotated(f, n), n) ==
            if n == 0 then [] else if n - 1 in f then Concat(f, n - 1) else Concat(f, n)
  {
    if n == 0 || n - 1 in f {
      ShiftsBelow(f, n, n);
    } else {
      RotationFillsGap(f, n);
    }
  }

  // ----- The sink as a value -----

  datatype Sink = Sink(files: Files, currentSize: nat)

  function Opened(f: Files, maxFiles: nat, rotateOnOpen: bool): Sink {
    var f' := if 0 in f then f else f[0 := []];
    if rotateOnOpen && |f'[0]| > 0 then Sink(Rotated(f', maxFiles), 0) else Sink(f', |f'[0]|)
  }

  function Logged(s: Sink, maxSize: nat, maxFiles: nat, msg: seq<byte>): Sink
    requires 0 in s.files
  {
    var rotates := s.currentSize + |msg| > maxSize && |s.files[0]| > 0;
    var f := if rotates then Rotated(s.files, maxFiles) else s.files;
    assert rotates ==> Look(f, 0) == Some([]);
    Sink(f[0 := f[0] + msg], if rotates then |msg| else s.currentSize + |msg|)
  }

  /** `rotate_now` leaves the cached size as it was. */
  function RotatedNow(s: Sink, maxFiles: nat): Sink {
    s.(files := Rotated(s.files, maxFiles))
  }

  // ----- The objects -----

  /** The file system and the one open file, number 0. */
  class Disk {
    var files: Files

    constructor (files: Files)
      ensures this.files == files
    {
      this.files := files;
    }

    /** rename_file_: removes the target and renames the source to it. */
    method RenameFile(source: nat, target: nat)
      requires source in files && source != target
      modifies this
      ensures forall j: nat :: Look(files, j) ==
                (if j == target then Look(old(files), source) else if j == source then None else Look(old(files), j))
    {
      files := files - {target};
      files := files[target := files[source]] - {source};
    }

    /** Opens file 0 to append, empty if `truncate`. */
    method Open(truncate: bool)
      modifies this
      ensures files == old(files)[0 := if truncate || 0 !in old(files) then [] else old(files)[0]]
    {
      if truncate || 0 !in files {
        files := files[0 := []];
      }
    }

    method Append(data: seq<byte>)
      requires 0 in files
      modifies this
      ensures files == old(files)[0 := old(files)[0] + data]
    {
      files := files[0 := files[0] + data];
    }
  }

  class RotatingFileSink {
    const disk: Disk
    const maxSize: nat
    const maxFiles: nat
    var currentSize: nat

    predicate Valid()
      reads this, disk
    {
      0 in disk.files && 0 < maxSize && maxFiles <= MAX_FILES
    }

    function View(): Sink
      reads this, disk
    {
      Sink(disk.files, currentSize)
    }

    /** Used by Create once the arguments are checked. */
    constructor Checked(disk: Disk, maxSize: nat, maxFiles: nat, rotateOnOpen: bool)
      requires 0 < maxSize && maxFiles <= MAX_FILES
      modifies disk
      ensures Valid() && this.disk == disk && this.maxSize == maxSize && this.maxFiles == maxFiles
      ensures View() == Opened(old(disk.files), maxFiles, rotateOnOpen)
    {
      this.disk := disk;
      this.maxSize := maxSize;
      this.maxFiles := maxFiles;
      this.currentSize := 0;
      new;
      disk.Open(false);
      assert disk.files == if 0 in old(disk.files) then old(disk.files) else old(disk.files)[0 := []];
      currentSize := |disk.files[0]|;
      if rotateOnOpen && currentSize > 0 {
        Rotate();
        currentSize := 0;
      }
    }

    /** The constructor of the program; null where it throws. */
    static method Create(disk: Disk, maxSize: nat, maxFiles: nat, rotateOnOpen: bool) returns (r: RotatingFileSink?)
      modifies disk
      ensures r == null <==> maxSize == 0 || maxFiles > MAX_FILES
      ensures r == null ==> disk.files == old(disk.files)
      ensures r != null ==>
        && r.Valid() && r.disk == disk && r.maxSize == maxSize && r.maxFiles == maxFiles
        && r.View() == Opened(old(disk.files), maxFiles, rotateOnOpen)
    {
      if maxSize == 0 {
        return null;
      }
      if maxFiles > MAX_FILES {
        return null;
      }
      r := new RotatingFileSink.Checked(disk, maxSize, maxFiles, rotateOnOpen);
    }

    /** Renames downwards from the oldest number, then truncates file 0. */
    method Rotate()
      requires Valid()
      modifies disk
      ensures Valid() && disk.files == Rotated(old(disk.files), maxFiles)
    {
      ghost var f := disk.files;
      var i := maxFiles;
      while i > 0
        invariant 0 <= i <= maxFiles
        invariant forall j: nat :: Look(disk.files, j) == ShiftedAt(f, maxFiles, i, j)
      {
        assert Look(disk.files, i - 1) == Look(f, i - 1);
        if i - 1 in disk.files {
          disk.RenameFile(i - 1, i);
        }
        i := i - 1;
      }
      disk.Open(true);
      assert forall j: nat :: Look(disk.files, j) == Look(Rotated(f, maxFiles), j);
      SameFiles(disk.files, Rotated(f, maxFiles));
    }

    method RotateNow()
      requires Valid()
      modifies disk
      ensures Valid() && View() == RotatedNow(old(View()), maxFiles)
    {
      Rotate();
    }

    method SinkIt(msg: seq<byte>)
      requires Valid()
      modifies this, disk
      ensures Valid() && View() == Logged(old(View()), maxSize, maxFiles, msg)
    {
      var newSize := currentSize + |msg|;
      if newSize > maxSize {
        if |disk.files[0]| > 0 {
          Rotate();
          newSize := |msg|;
          assert Look(disk.files, 0) == Some([]);
        }
      }
      disk.Append(msg);
      currentSize := newSize;
    }
  }

  // ----- Runs -----

  datatype Op = Log(msg: seq<byte>) | RotateNow

  function Apply(s: Sink, maxSize: nat, maxFiles: nat, op: Op): (s': Sink)
    requires 0 in s.files
    ensures 0 in s'.files
  {
    match op
    case Log(msg) => Logged(s, maxSize, maxFiles, msg)
    case RotateNow =>
      assert Look(Rotated(s.files, maxFiles), 0) == Some([]);
      RotatedNow(s, maxFiles)
  }

  function Run(s: Sink, maxSize: nat, maxFiles: nat, ops: seq<Op>): (s': Sink)
    requires 0 in s.files
    ensures 0 in s'.files
  {
    if ops == [] then s
    else Apply(Run(s, maxSize, maxFiles, ops[..|ops| - 1]), maxSize, maxFiles, ops[|ops| - 1])
  }

  /** Everything logged by the operations. */
  function LoggedBytes(ops: seq<Op>): seq<byte> {
    if ops == [] then []
    else
      var op := ops[|ops| - 1];
      LoggedBytes(ops[..|ops| - 1]) + (if op.Log? then op.msg else [])
  }

  predicate IsSuffix(a: seq<byte>, b: seq<byte>) {
    |a| <= |b| && b[|b| - |a|..] == a
  }

  lemma SuffixOfSuffix(a: seq<byte>, b: seq<byte>, c: seq<byte>)
    requires IsSuffix(a, b) && IsSuffix(b, c)
    ensures IsSuffix(a, c)
  {
    assert c[|c| - |b|..][|b| - |a|..] == c[|c| - |a|..];
  }

  lemma SuffixExtends(a: seq<byte>, b: seq<byte>, m: seq<byte>)
    requires IsSuffix(a, b)
    ensures IsSuffix(a + m, b + m)
  {
    assert (b + m)[|b| - |a|..] == b[|b| - |a|..] + m;
  }

  lemma SuffixStep(a: seq<byte>, all: seq<byte>, m: seq<byte>, b: seq<byte>)
    requires IsSuffix(a, all) && IsSuffix(b, a + m)
    ensures IsSuffix(b, all + m)
  {
    SuffixExtends(a, all, m);
    SuffixOfSuffix(b, a + m, all + m);
  }

  lemma RotationKeepsSuffix(f: Files, n: nat)
    requires 0 in f
    ensures IsSuffix(Concat(Rotated(f, n), n), Concat(f, n))
  {
    RotationDropsOldest(f, n);
    if n > 0 && n - 1 in f {
      assert Concat(f, n)[|Content(f, n)|..] == Concat(f, n - 1);
    }
  }

  lemma {:induction false} AppendAtEnd(f: Files, n: nat, m: seq<byte>)
    requires 0 in f
    ensures Concat(f[0 := f[0] + m], n) == Concat(f, n) + m
  {
    var g := f[0 := f[0] + m];
    if n == 0 {
      assert Concat(g, 0) == f[0] + m && Concat(f, 0) == f[0];
    } else {
      AppendAtEnd(f, n - 1, m);
      assert Content(g, n) == Content(f, n);
      assert Content(f, n) + (Concat(f, n - 1) + m) == Content(f, n) + Concat(f, n - 1) + m;
    }
  }

  lemma ApplyKeepsSuffix(s: Sink, maxSize: nat, maxFiles: nat, op: Op)
    requires 0 in s.files
    ensures IsSuffix(Concat(Apply(s, maxSize, maxFiles, op).files, maxFiles),
                     Concat(s.files, maxFiles) + (if op.Log? then op.msg else []))
  {
    var before := Concat(s.files, maxFiles);
    RotationKeepsSuffix(s.files, maxFiles);
    assert Look(Rotated(s.files, maxFiles), 0) == Some([]);
    match op
    case Log(msg) =>
      AppendAtEnd(s.files, maxFiles, msg);
      AppendAtEnd(Rotated(s.files, maxFiles), maxFiles, msg);
      SuffixExtends(Concat(Rotated(s.files, maxFiles), maxFiles), before, msg);
    case RotateNow =>
      assert before + [] == before;
  }

  /**
   * Over every sequence of logs and rotations, gaps in the numbering or not, the files from the oldest down to
   * the active one hold a suffix of what was there at first followed by everything logged.
   */
  lemma {:induction false} KeepsSuffix(s: Sink, maxSize: nat, maxFiles: nat, ops: seq<Op>)
    requires 0 in s.files
    ensures IsSuffix(Concat(Run(s, maxSize, maxFiles, ops).files, maxFiles),
                     Concat(s.files, maxFiles) + LoggedBytes(ops))
  {
    if ops == [] {
      assert Concat(s.files, maxFiles) + [] == Concat(s.files, maxFiles);
    } else {
      var rest, op := ops[..|ops| - 1], ops[|ops| - 1];
      var s1 := Run(s, maxSize, maxFiles, rest);
      var all, last := Concat(s.files, maxFiles) + LoggedBytes(rest), if op.Log? then op.msg else [];
      var before := Concat(s.files, maxFiles);
      KeepsSuffix(s, maxSize, maxFiles, rest);
      ApplyKeepsSuffix(s1, maxSize, maxFiles, op);
      assert LoggedBytes(ops) == LoggedBytes(rest) + last;
      assert before + LoggedBytes(rest) + last == before + (LoggedBytes(rest) + last);
      SuffixStep(Concat(s1.files, maxFiles), all, last, Concat(Apply(s1, maxSize, maxFiles, op).files, maxFiles));
    }
  }

  lemma {:induction false} EmptyActiveFile(f: Files, n: nat)
    requires 0 !in f
    ensures Concat(f[0 := []], n) == Concat(f, n)
  {
    if n > 0 {
      EmptyActiveFile(f, n - 1);
    }
  }

  /** The same from the files that the sink finds on disk when it is opened, rotating or not. */
  lemma KeepsSuffixFromDisk(f: Files, rotateOnOpen: bool, maxSize: nat, maxFiles: nat, ops: seq<Op>)
    ensures 0 in Opened(f, maxFiles, rotateOnOpen).files
    ensures IsSuffix(Concat(Run(Opened(f, maxFiles, rotateOnOpen), maxSize, maxFiles, ops).files, maxFiles),
                     Concat(f, maxFiles) + LoggedBytes(ops))
  {
    var s, f' := Opened(f, maxFiles, rotateOnOpen), if 0 in f then f else f[0 := []];
    assert Look(Rotated(f', maxFiles), 0) == Some([]);
    if 0 !in f {
      EmptyActiveFile(f, maxFiles);
    }
    RotationKeepsSuffix(f', maxFiles);
    KeepsSuffix(s, maxSize, maxFiles, ops);
    SuffixStep(Concat(s.files, maxFiles), Concat(f, maxFiles), LoggedBytes(ops),
               Concat(Run(s, maxSize, maxFiles, ops).files, maxFiles));
  }

  // ----- How much survives -----

  /** How many rotations the operations cause. */
  function Rotations(s: Sink, maxSize: nat, maxFiles: nat, ops: seq<Op>): nat
    requires 0 in s.files
  {
    if ops == [] then 0
    else
      var rest, op := ops[..|ops| - 1], ops[|ops| - 1];
      Rotations(s, maxSize, maxFiles, rest) + (if Rotates(Run(s, maxSize, maxFiles, rest), maxSize, op) then 1 else 0)
  }

  predicate Rotates(s: Sink, maxSize: nat, op: Op)
    requires 0 in s.files
  {
    match op
    case Log(msg) => s.currentSize + |msg| > maxSize && |s.files[0]| > 0
    case RotateNow => true
  }

  /** A rotation takes the files 0 to j on to 1 to j + 1. */
  lemma RotationKeepsRecent(f: Files, n: nat, j: nat)
    requires 0 in f && j < n
    ensures IsSuffix(Concat(f, j), Concat(Rotated(f, n), j + 1))
  {
    if j + 1 < n || n - 1 in f {
      ShiftsBelow(f, n, j + 1);
    } else {
      RotationFillsGap(f, n);
      ConcatMore(f, j);
    }
  }

  lemma ConcatMore(f: Files, j: nat)
    ensures IsSuffix(Concat(f, j), Concat(f, j + 1))
  {
    assert Concat(f, j + 1) == Content(f, j + 1) + Concat(f, j);
  }

  lemma {:induction false} ConcatUpTo(f: Files, j: nat, n: nat)
    requires j <= n
    ensures IsSuffix(Concat(f, j), Concat(f, n))
    decreases n - j
  {
    if j < n {
      ConcatMore(f, j);
      ConcatUpTo(f, j + 1, n);
      SuffixOfSuffix(Concat(f, j), Concat(f, j + 1), Concat(f, n));
    }
  }

  /** One operation keeps what the files 0 to j hold, in one file more after a rotation, and what is logged. */
  lemma ApplyKeepsRecent(s: Sink, maxSize: nat, maxFiles: nat, op: Op, j: nat)
    requires 0 in s.files && (Rotates(s, maxSize, op) ==> j < maxFiles)
    ensures IsSuffix(Concat(s.files, j) + (if op.Log? then op.msg else []),
                     Concat(Apply(s, maxSize, maxFiles, op).files, if Rotates(s, maxSize, op) then j + 1 else j))
  {
    var g := Rotated(s.files, maxFiles);
    assert Look(g, 0) == Some([]);
    if Rotates(s, maxSize, op) {
      RotationKeepsRecent(s.files, maxFiles, j);
    }
    match op
    case Log(msg) =>
      if Rotates(s, maxSize, op) {
        AppendAtEnd(g, j + 1, msg);
        SuffixExtends(Concat(s.files, j), Concat(g, j + 1), msg);
      } else {
        AppendAtEnd(s.files, j, msg);
      }
    case RotateNow =>
      assert Concat(s.files, j) + [] == Concat(s.files, j);
  }

  lemma SuffixOver(all: seq<byte>, mid: seq<byte>, m: seq<byte>, out: seq<byte>)
    requires IsSuffix(all, mid) && IsSuffix(mid + m, out)
    ensures IsSuffix(all + m, out)
  {
    SuffixExtends(all, mid, m);
    SuffixOfSuffix(all + m, mid + m, out);
  }

  /** The last of the operations. */
  lemma LastApplied(s: Sink, maxSize: nat, maxFiles: nat, ops: seq<Op>, rest: seq<Op>, op: Op)
    requires 0 in s.files && ops == rest + [op]
    ensures Run(s, maxSize, maxFiles, ops) == Apply(Run(s, maxSize, maxFiles, rest), maxSize, maxFiles, op)
    ensures Rotations(s, maxSize, maxFiles, ops)
         == Rotations(s, maxSize, maxFiles, rest)
            + (if Rotates(Run(s, maxSize, maxFiles, rest), maxSize, op) then 1 else 0)
    ensures LoggedBytes(ops) == LoggedBytes(rest) + (if op.Log? then op.msg else [])
  {
    assert ops[..|ops| - 1] == rest;
  }

  lemma NothingYet(s: Sink, maxSize: nat, maxFiles: nat, ops: seq<Op>)
    requires 0 in s.files && ops == []
    ensures Run(s, maxSize, maxFiles, ops) == s && Rotations(s, maxSize, maxFiles, ops) == 0 && LoggedBytes(ops) == []
    ensures IsSuffix(s.files[0] + LoggedBytes(ops),
                     Concat(Run(s, maxSize, maxFiles, ops).files, Rotations(s, maxSize, maxFiles, ops)))
  {
    assert Concat(s.files, 0) == s.files[0] + [];
  }

  /**
   * As long as no more than maxFiles rotations happen, nothing is lost of the active file and of what is logged:
   * it lies in the active file and as many of the newest others as there were rotations.
   */
  lemma {:induction false} RecentSurvives(s: Sink, maxSize: nat, maxFiles: nat, ops: seq<Op>)
    requires 0 in s.files && Rotations(s, maxSize, maxFiles, ops) <= maxFiles
    ensures IsSuffix(s.files[0] + LoggedBytes(ops),
                     Concat(Run(s, maxSize, maxFiles, ops).files, Rotations(s, maxSize, maxFiles, ops)))
    decreases |ops|
  {
    if ops == [] {
      NothingYet(s, maxSize, maxFiles, ops);
    } else {
      var rest, op := ops[..|ops| - 1], ops[|ops| - 1];
      LastApplied(s, maxSize, maxFiles, ops, rest, op);
      RecentSurvives(s, maxSize, maxFiles, rest);
      RecentValues(s.files[0], LoggedBytes(rest), LoggedBytes(ops), Run(s, maxSize, maxFiles, rest),
                   Run(s, maxSize, maxFiles, ops), maxSize, maxFiles, op,
                   Rotations(s, maxSize, maxFiles, rest), Rotations(s, maxSize, maxFiles, ops));
    }
  }

  lemma RecentValues(active: seq<byte>, before: seq<byte>, after: seq<byte>, s1: Sink, s2: Sink,
                     maxSize: nat, maxFiles: nat, op: Op, j: nat, j': nat)
    requires 0 in s1.files && after == before + (if op.Log? then op.msg else [])
    requires IsSuffix(active + before, Concat(s1.files, j)) && j' <= maxFiles
    requires s2 == Apply(s1, maxSize, maxFiles, op) && j' == if Rotates(s1, maxSize, op) then j + 1 else j
    ensures IsSuffix(active + after, Concat(s2.files, j'))
  {
    assert active + after == active + before + (if op.Log? then op.msg else []);
    RecentStep(active + before, s1, maxSize, maxFiles, op, j);
  }

  lemma RecentStep(recent: seq<byte>, s: Sink, maxSize: nat, maxFiles: nat, op: Op, j: nat)
    requires 0 in s.files && IsSuffix(recent, Concat(s.files, j)) && (Rotates(s, maxSize, op) ==> j < maxFiles)
    ensures IsSuffix(recent + (if op.Log? then op.msg else []),
                     Concat(Apply(s, maxSize, maxFiles, op).files, if Rotates(s, maxSize, op) then j + 1 else j))
  {
    ApplyKeepsRecent(s, maxSize, maxFiles, op, j);
    SuffixOver(recent, Concat(s.files, j), if op.Log? then op.msg else [],
               Concat(Apply(s, maxSize, maxFiles, op).files, if Rotates(s, maxSize, op) then j + 1 else j));
  }

  lemma {:induction false} RunAdd(s: Sink, maxSize: nat, maxFiles: nat, a: seq<Op>, b: seq<Op>)
    requires 0 in s.files
    ensures Run(s, maxSize, maxFiles, a + b) == Run(Run(s, maxSize, maxFiles, a), maxSize, maxFiles, b)
    decreases |b|
  {
    if b == [] {
      assert a + b == a;
    } else {
      assert (a + b)[..|a + b| - 1] == a + b[..|b| - 1];
      RunAdd(s, maxSize, maxFiles, a, b[..|b| - 1]);
    }
  }

  /**
   * How long the suffix of `KeepsSuffix` is: at least back to the start of the active file as it was at any moment
   * since which no more than maxFiles rotations happened.
   */
  lemma SuffixReachesBack(s: Sink, maxSize: nat, maxFiles: nat, before: seq<Op>, since: seq<Op>)
    requires 0 in s.files
    requires Rotations(Run(s, maxSize, maxFiles, before), maxSize, maxFiles, since) <= maxFiles
    ensures IsSuffix(Run(s, maxSize, maxFiles, before).files[0] + LoggedBytes(since),
                     Concat(Run(s, maxSize, maxFiles, before + since).files, maxFiles))
    ensures IsSuffix(Concat(Run(s, maxSize, maxFiles, before + since).files, maxFiles),
                     Concat(s.files, maxFiles) + LoggedBytes(before + since))
  {
    var s1 := Run(s, maxSize, maxFiles, before);
    var s2, j := Run(s1, maxSize, maxFiles, since), Rotations(s1, maxSize, maxFiles, since);
    KeepsSuffix(s, maxSize, maxFiles, before + since);
    RunAdd(s, maxSize, maxFiles, before, since);
    RecentSurvives(s1, maxSize, maxFiles, since);
    ConcatUpTo(s2.files, j, maxFiles);
    SuffixOfSuffix(s1.files[0] + LoggedBytes(since), Concat(s2.files, j), Concat(s2.files, maxFiles));
  }

  /** The cached size never underestimates the active file, although rotations do not reset it. */
  lemma {:induction false} CachedSizeIsUpperBound(s: Sink, maxSize: nat, maxFiles: nat, ops: seq<Op>)
    requires 0 in s.files && |s.files[0]| <= s.currentSize
    ensures var s' := Run(s, maxSize, maxFiles, ops); |s'.files[0]| <= s'.currentSize
  {
    if ops != [] {
      CachedSizeIsUpperBound(s, maxSize, maxFiles, ops[..|ops| - 1]);
      var s1 := Run(s, maxSize, maxFiles, ops[..|ops| - 1]);
      assert Look(Rotated(s1.files, maxFiles), 0) == Some([]);
    }
  }

  /** After every log call the active file is within the limit or holds that one message. */
  lemma ActiveFileIsBounded(f: Files, rotateOnOpen: bool, maxSize: nat, maxFiles: nat, ops: seq<Op>, msg: seq<byte>)
    ensures 0 in Opened(f, maxFiles, rotateOnOpen).files
    ensures var s := Run(Opened(f, maxFiles, rotateOnOpen), maxSize, maxFiles, ops + [Log(msg)]);
            |s.files[0]| <= maxSize || s.files[0] == msg
  {
    var s0 := Opened(f, maxFiles, rotateOnOpen);
    var f' := if 0 in f then f else f[0 := []];
    assert Look(Rotated(f', maxFiles), 0) == Some([]);
    CachedSizeIsUpperBound(s0, maxSize, maxFiles, ops);
    var s := Run(s0, maxSize, maxFiles, ops);
    assert (ops + [Log(msg)])[..|ops|] == ops;
    assert Look(Rotated(s.files, maxFiles), 0) == Some([]);
    assert [] + msg == msg;
  }
}
