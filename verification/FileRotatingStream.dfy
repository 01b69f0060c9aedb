/**
 filerotatingstream.cc: log files that are rotated when full, and read back.  The directory is
 a map from file index to contents; opening, deleting and moving files succeed.
 */
module FileRotatingStream {
  import opened Common
  import opened Words

  const ROTATING_LOG_FILE_DEFAULT_SIZE: nat := 1024 * 1024

  datatype StreamResult = SR_SUCCESS | SR_EOS | SR_ERROR

  /** What the constructor is given: a plain stream's file size, or a call session's total limit. */
  datatype Config = Config(callSession: bool, limit: nat, numFiles: nat)

  // ----- The sizes of a call session -----

  function GetNumRotatingLogFiles(maxTotalLogSize: nat): nat {
    var n := (maxTotalLogSize / 2) / ROTATING_LOG_FILE_DEFAULT_SIZE;
    if n > 2 then n else 2
  }

  function GetRotatingLogSize(maxTotalLogSize: nat): nat {
    if GetNumRotatingLogFiles(maxTotalLogSize) > 2 then ROTATING_LOG_FILE_DEFAULT_SIZE else maxTotalLogSize / 4
  }

  ghost predicate ValidConfig(c: Config) {
    if c.callSession then c.limit >= 4 && c.numFiles == GetNumRotatingLogFiles(c.limit) + 1
    else c.limit > 0 && c.numFiles > 1
  }

  function CallSessionConfig(maxTotalLogSize: nat): Config {
    Config(true, maxTotalLogSize, GetNumRotatingLogFiles(maxTotalLogSize) + 1)
  }

  // ----- Writing: what one call does -----

  datatype Disk = Disk(maxFileSize: nat, rotationIndex: int, numRotations: nat, files: map<nat, seq<byte>>)

  ghost function Moved(files: map<nat, seq<byte>>, r: int): set<nat> {
    {0} + (set j | j in files && j < r :: j + 1) + (set j | j in files && j > r)
  }

  /** The file at the rotation index is gone, the ones below it have moved up by one, and file 0 is new. */
  ghost function Rotated(files: map<nat, seq<byte>>, r: int): map<nat, seq<byte>> {
    map i: nat {:trigger i in Moved(files, r)} | i in Moved(files, r) ::
      if i == 0 then [] else if i <= r then files[i - 1] else files[i]
  }

  lemma RotatedAt(files: map<nat, seq<byte>>, r: int, i: nat)
    ensures i in Rotated(files, r) <==> i == 0 || (if i <= r then i - 1 in files else i in files)
    ensures i in Rotated(files, r) ==>
              Rotated(files, r)[i] == if i == 0 then [] else if i <= r then files[i - 1] else files[i]
  {
    if 0 < i <= r && i - 1 in files { assert i in Moved(files, r); }
  }

  ghost function OnRotation(c: Config, d: Disk): Disk {
    if !c.callSession then d
    else
      var n := d.numRotations + 1;
      if n == 1 then d.(numRotations := n, maxFileSize := GetRotatingLogSize(c.limit))
      else if n == c.numFiles - 1 then
        d.(numRotations := n, rotationIndex := d.rotationIndex - 1)
      else d.(numRotations := n)
  }

  ghost predicate HasRoom(d: Disk) {
    0 in d.files && |d.files[0]| < d.maxFileSize
  }

  ghost function AfterWrite(c: Config, d: Disk, chunk: seq<byte>): Disk
    requires HasRoom(d)
  {
    var f := d.files[0 := d.files[0] + chunk];
    if |f[0]| < d.maxFileSize then d.(files := f)
    else OnRotation(c, d.(files := Rotated(f, d.rotationIndex)))
  }

  // ----- Writing: what the files hold -----

  /** The capacity of the m-th file created. */
  ghost function Size(c: Config, m: nat): nat {
    if c.callSession then if m == 0 then c.limit / 2 else GetRotatingLogSize(c.limit)
    else c.limit
  }

  /** Where in the log the m-th file created starts. */
  ghost function Cut(c: Config, m: nat): nat {
    if m == 0 then 0 else Cut(c, m - 1) + Size(c, m - 1)
  }

  lemma SizePositive(c: Config, m: nat)
    requires ValidConfig(c)
    ensures Size(c, m) > 0
  {
  }

  lemma {:induction false} CutMono(c: Config, a: nat, b: nat)
    requires a <= b
    ensures Cut(c, a) <= Cut(c, b)
    decreases b - a
  {
    if a < b { CutMono(c, a, b - 1); }
  }

  ghost predicate Starts(c: Config, m: nat, n: nat) {
    Cut(c, m) <= n
  }

  lemma CutStep(c: Config, m: nat)
    ensures Cut(c, m + 1) == Cut(c, m) + Size(c, m)
  {
  }

  lemma CutOne(c: Config)
    ensures Cut(c, 0) == 0 && Cut(c, 1) == Size(c, 0)
  {
  }

  /** The bytes of the log that went to the m-th file created. */
  ghost function Piece(c: Config, log: seq<byte>, m: nat): seq<byte>
    requires Starts(c, m, |log|)
  {
    if Cut(c, m + 1) <= |log| then log[Cut(c, m)..Cut(c, m + 1)] else log[Cut(c, m)..]
  }

  ghost function Top(c: Config, k: nat): nat
    requires c.numFiles > 0
  {
    if k < c.numFiles - 1 then k else c.numFiles - 1
  }

  /** After k rotations, the file at index j is the m-th one created. */
  ghost function Which(c: Config, k: nat, j: nat): nat
    requires c.numFiles > 0 && j <= Top(c, k)
  {
    if c.callSession && j == c.numFiles - 1 then 0 else k - j
  }

  ghost predicate Holds(c: Config, log: seq<byte>, k: nat, files: map<nat, seq<byte>>)
    requires c.numFiles > 0
  {
    && (forall j: nat :: j in files <==> j <= Top(c, k))
    && (forall j: nat | j <= Top(c, k) :: FileIs(c, log, k, files, j))
  }

  ghost predicate FileIs(c: Config, log: seq<byte>, k: nat, files: map<nat, seq<byte>>, j: nat)
    requires c.numFiles > 0 && j <= Top(c, k)
  {
    && j in files && Starts(c, Which(c, k, j), |log|)
    && files[j] == Piece(c, log, Which(c, k, j))
  }

  /** Where the k-th rotation leaves the rotation index. */
  ghost function RotationIndex(c: Config, k: nat): int {
    if c.callSession && k >= c.numFiles - 1 then c.numFiles - 2 else c.numFiles - 1
  }

  /** The disk after `log` has been written to a new stream with k rotations. */
  ghost predicate Layout(c: Config, log: seq<byte>, k: nat, d: Disk) {
    && ValidConfig(c)
    && Cut(c, k) <= |log| < Cut(c, k + 1)
    && d.maxFileSize == Size(c, k)
    && d.rotationIndex == RotationIndex(c, k)
    && d.numRotations == (if c.callSession then k else 0)
    && Holds(c, log, k, d.files)
  }

  ghost function NewDisk(c: Config): Disk
    requires ValidConfig(c)
  {
    Disk(Size(c, 0), c.numFiles - 1, 0, map[0 := []])
  }

  lemma NewLayout(c: Config)
    requires ValidConfig(c)
    ensures Layout(c, [], 0, NewDisk(c))
  {
    SizePositive(c, 0);
  }

  lemma PieceWhole(c: Config, log: seq<byte>, m: nat)
    requires Starts(c, m, |log|)
    ensures Cut(c, m + 1) <= |log| ==> Cut(c, m) <= Cut(c, m + 1) && Piece(c, log, m) == log[Cut(c, m)..Cut(c, m + 1)]
    ensures Cut(c, m + 1) > |log| ==> Piece(c, log, m) == log[Cut(c, m)..]
    ensures Cut(c, m) == |log| ==> Piece(c, log, m) == []
  {
    hide Size;
  }

  /** Pieces that were complete stay as they were. */
  lemma PieceStable(c: Config, log: seq<byte>, chunk: seq<byte>, m: nat, k: nat)
    requires m < k && Starts(c, k, |log|)
    ensures Starts(c, m, |log|) && Starts(c, m, |log + chunk|)
    ensures Piece(c, log + chunk, m) == Piece(c, log, m)
  {
    hide Size;
    CutMono(c, m + 1, k);
    CutMono(c, m, m + 1);
  }

  lemma CurrentPiece(c: Config, log: seq<byte>, chunk: seq<byte>, k: nat)
    requires Starts(c, k, |log|) && |log| + |chunk| <= Cut(c, k + 1)
    ensures Starts(c, k, |log + chunk|) && Piece(c, log + chunk, k) == log[Cut(c, k)..] + chunk
  {
    hide Size;
  }

  /** The closed form is kept by every write, whatever its length. */
  lemma WriteKeepsLayout(c: Config, log: seq<byte>, k: nat, d: Disk, chunk: seq<byte>)
    requires Layout(c, log, k, d)
    requires |d.files[0]| + |chunk| <= d.maxFileSize
    ensures HasRoom(d)
    ensures Layout(c, log + chunk, if |d.files[0]| + |chunk| < d.maxFileSize then k else k + 1, AfterWrite(c, d, chunk))
  {
    hide Cut, Size, Piece, Holds, Rotated;
    FileZero(c, log, k, d);
    CurrentPiece(c, log, chunk, k);
    var f := d.files[0 := d.files[0] + chunk];
    if |f[0]| < d.maxFileSize {
      AppendHolds(c, log, k, d.files, chunk);
    } else {
      SizePositive(c, k + 1);
      CutStep(c, k + 1);
      RotatedHolds(c, log, k, d.files, chunk);
      RotationFields(c, k, d.(files := Rotated(f, d.rotationIndex)));
    }
  }

  lemma FileZero(c: Config, log: seq<byte>, k: nat, d: Disk)
    requires Layout(c, log, k, d)
    ensures HasRoom(d) && d.files[0] == log[Cut(c, k)..]
    ensures Cut(c, k + 1) == Cut(c, k) + d.maxFileSize
  {
    assert FileIs(c, log, k, d.files, 0);
  }

  lemma RotationFields(c: Config, k: nat, d: Disk)
    requires ValidConfig(c)
    requires d.maxFileSize == Size(c, k) && d.rotationIndex == RotationIndex(c, k)
    requires d.numRotations == if c.callSession then k else 0
    ensures var r := OnRotation(c, d);
            && r.maxFileSize == Size(c, k + 1) && r.rotationIndex == RotationIndex(c, k + 1)
            && r.numRotations == (if c.callSession then k + 1 else 0) && r.files == d.files
  {
    hide GetRotatingLogSize;
  }

  lemma AppendHolds(c: Config, log: seq<byte>, k: nat, files: map<nat, seq<byte>>, chunk: seq<byte>)
    requires c.numFiles > 1 && Starts(c, k, |log|)
    requires Holds(c, log, k, files)
    requires Starts(c, k, |log + chunk|) && Piece(c, log + chunk, k) == files[0] + chunk
    ensures Holds(c, log + chunk, k, files[0 := files[0] + chunk])
  {
    hide Cut, Piece;
    var f, log' := files[0 := files[0] + chunk], log + chunk;
    forall j: nat | j <= Top(c, k)
      ensures FileIs(c, log', k, f, j)
    {
      assert FileIs(c, log, k, files, j);
      assert Which(c, k, 0) == k;
      if j > 0 {
        PieceStable(c, log, chunk, Which(c, k, j), k);
      }
    }
  }

  lemma RotatedHolds(c: Config, log: seq<byte>, k: nat, files: map<nat, seq<byte>>, chunk: seq<byte>)
    requires c.numFiles > 1 && (c.callSession ==> c.numFiles > 2)
    requires Starts(c, k, |log|) && Cut(c, k + 1) == |log| + |chunk|
    requires Holds(c, log, k, files)
    requires Starts(c, k, |log + chunk|) && Piece(c, log + chunk, k) == files[0] + chunk
    ensures Holds(c, log + chunk, k + 1, Rotated(files[0 := files[0] + chunk], RotationIndex(c, k)))
  {
    hide Cut, Size, Piece, Rotated, FileIs, Which;
    var f, r, log', k' := files[0 := files[0] + chunk], RotationIndex(c, k), log + chunk, k + 1;
    var f' := Rotated(f, r);
    forall j: nat ensures j in f' <==> j <= Top(c, k') {
      RotatedAt(f, r, j);
    }
    forall j: nat | j <= Top(c, k')
      ensures FileIs(c, log', k', f', j)
    {
      RotatedFile(c, log, k, files, chunk, j);
    }
  }

  /** The file that moves to index j keeps its place in the order of creation. */
  lemma WhichShifts(c: Config, k: nat, j: nat)
    requires c.numFiles > 1 && (c.callSession ==> c.numFiles > 2)
    requires j <= Top(c, k + 1)
    ensures Which(c, k + 1, 0) == k + 1 && Which(c, k, 0) == k
    ensures 0 < j <= RotationIndex(c, k) ==> j - 1 <= Top(c, k) && Which(c, k + 1, j) == Which(c, k, j - 1)
    ensures 1 < j <= RotationIndex(c, k) ==> Which(c, k, j - 1) < k
    ensures j > RotationIndex(c, k) ==> 0 < j <= Top(c, k) && k > 0 && Which(c, k + 1, j) == Which(c, k, j) == 0
  {
  }

  lemma RotatedFile(c: Config, log: seq<byte>, k: nat, files: map<nat, seq<byte>>, chunk: seq<byte>, j: nat)
    requires c.numFiles > 1 && (c.callSession ==> c.numFiles > 2)
    requires Starts(c, k, |log|) && Cut(c, k + 1) == |log| + |chunk|
    requires Holds(c, log, k, files) && j <= Top(c, k + 1)
    requires Starts(c, k, |log + chunk|) && Piece(c, log + chunk, k) == files[0] + chunk
    ensures FileIs(c, log + chunk, k + 1, Rotated(files[0 := files[0] + chunk], RotationIndex(c, k)), j)
  {
    hide Cut, Piece, Rotated, Which, Top;
    WhichShifts(c, k, j);
    RotatedAt(files[0 := files[0] + chunk], RotationIndex(c, k), j);
    assert j > 0 && j <= RotationIndex(c, k) ==> FileIs(c, log, k, files, j - 1);
    assert j > RotationIndex(c, k) ==> FileIs(c, log, k, files, j);
    if j == 0 {
      PieceWhole(c, log + chunk, k + 1);
    } else if j == 1 {
    } else if j <= RotationIndex(c, k) {
      PieceStable(c, log, chunk, Which(c, k, j - 1), k);
    } else {
      PieceStable(c, log, chunk, 0, k);
    }
  }

  // ----- Runs -----

  /** `d` can result from writing `chunks`, each taken whole, to a new stream. */
  ghost predicate Reaches(c: Config, chunks: seq<seq<byte>>, d: Disk)
    requires ValidConfig(c)
  {
    if chunks == [] then d == NewDisk(c)
    else
      var last := |chunks| - 1;
      exists p ::
        && Reaches(c, chunks[..last], p)
        && HasRoom(p) && |p.files[0]| + |chunks[last]| <= p.maxFileSize
        && d == AfterWrite(c, p, chunks[last])
  }

  ghost function Log(chunks: seq<seq<byte>>): seq<byte> {
    if chunks == [] then [] else Log(chunks[..|chunks| - 1]) + chunks[|chunks| - 1]
  }

  lemma {:induction false} ReachesLayout(c: Config, chunks: seq<seq<byte>>, d: Disk) returns (k: nat)
    requires ValidConfig(c) && Reaches(c, chunks, d)
    ensures Layout(c, Log(chunks), k, d)
    decreases |chunks|
  {
    if chunks == [] {
      NewLayout(c);
      k := 0;
    } else {
      hide Layout, AfterWrite;
      var last := |chunks| - 1;
      var p :|
        && Reaches(c, chunks[..last], p)
        && HasRoom(p) && |p.files[0]| + |chunks[last]| <= p.maxFileSize
        && d == AfterWrite(c, p, chunks[last]);
      k := ReachesLayout(c, chunks[..last], p);
      WriteKeepsLayout(c, Log(chunks[..last]), k, p, chunks[last]);
      if |p.files[0]| + |chunks[last]| >= p.maxFileSize { k := k + 1; }
    }
  }

  /** The files depend on the bytes written and not on how the writes cut them. */
  lemma ChunksDoNotMatter(c: Config, a: seq<seq<byte>>, d: Disk, b: seq<seq<byte>>, e: Disk)
    requires ValidConfig(c) && Reaches(c, a, d) && Reaches(c, b, e) && Log(a) == Log(b)
    ensures d == e
  {
    hide Reaches, Cut, Size, Piece;
    var k := ReachesLayout(c, a, d);
    var m := ReachesLayout(c, b, e);
    if k < m { CutMono(c, k + 1, m); }
    if m < k { CutMono(c, m + 1, k); }
    forall j: nat | j in d.files ensures d.files[j] == e.files[j] {
      assert FileIs(c, Log(a), k, d.files, j) && FileIs(c, Log(b), k, e.files, j);
    }
    assert d.files.Keys == e.files.Keys;
  }

  /** The files from index j down to 0, one after the other. */
  ghost function OldestFirst(files: map<nat, seq<byte>>, j: int): seq<byte>
    decreases j + 1
  {
    if j < 0 then [] else (if j in files then files[j] else []) + OldestFirst(files, j - 1)
  }

  ghost function Kept(c: Config, d: Disk): seq<byte> {
    OldestFirst(d.files, c.numFiles - 1)
  }

  lemma {:induction false} AbsentFiles(files: map<nat, seq<byte>>, top: nat, j: nat)
    requires top <= j && forall i: nat :: i in files <==> i <= top
    ensures OldestFirst(files, j) == OldestFirst(files, top)
    decreases j
  {
    if j > top {
      AbsentFiles(files, top, j - 1);
      assert [] + OldestFirst(files, j - 1) == OldestFirst(files, j - 1);
    }
  }

  lemma KeptIs(c: Config, log: seq<byte>, k: nat, d: Disk)
    requires Layout(c, log, k, d)
    ensures Kept(c, d) == OldestFirst(d.files, Top(c, k))
    ensures c.numFiles > 1 && (c.callSession ==> c.numFiles > 2)
    ensures Starts(c, k, |log|) && |log| < Cut(c, k + 1)
  {
    hide Size, Piece, FileIs;
    AbsentFiles(d.files, Top(c, k), c.numFiles - 1);
  }

  /** The rotating files hold a contiguous end of the log. */
  lemma {:induction false} EndOfLog(c: Config, log: seq<byte>, k: nat, files: map<nat, seq<byte>>, j: nat)
    requires c.numFiles > 1 && Holds(c, log, k, files) && Starts(c, k, |log|) && |log| < Cut(c, k + 1)
    requires j <= Top(c, k) && (c.callSession && j == c.numFiles - 1 ==> j == k)
    ensures Starts(c, k - j, |log|) && OldestFirst(files, j) == log[Cut(c, k - j)..]
    decreases j
  {
    hide Cut, Size, Piece;
    assert FileIs(c, log, k, files, j);
    CutMono(c, k - j, k);
    if j == 0 {
      PieceWhole(c, log, k);
      assert OldestFirst(files, -1) == [];
    } else {
      EndOfLog(c, log, k, files, j - 1);
      CutMono(c, k - j, k - j + 1);
      CutMono(c, k - j + 1, k);
      PieceWhole(c, log, k - j);
    }
  }

  /** Any m files after the first have the same size. */
  lemma {:induction false} CutSteps(c: Config, a: nat, m: nat)
    requires a > 0 || !c.callSession
    ensures Cut(c, a + m) == Cut(c, a) + m * Size(c, a)
    decreases m
  {
    if m > 0 {
      CutSteps(c, a, m - 1);
      var x := Size(c, a);
      assert Size(c, a + m - 1) == x;
      hide Size;
      OneMore(m - 1, x);
    }
  }

  lemma OneMore(m: nat, x: nat)
    ensures m * x + x == (m + 1) * x
  {
  }

  /**
   A call-session stream keeps the first half of its budget and an unbroken end of the log; as
   soon as anything is lost that end is all but one rotating file long; the budget is never exceeded.
   */
  lemma HeadAndTailKept(limit: nat, chunks: seq<seq<byte>>, d: Disk) returns (s: nat)
    requires limit >= 4 && Reaches(CallSessionConfig(limit), chunks, d)
    ensures var log, kept, head := Log(chunks), Kept(CallSessionConfig(limit), d), limit / 2;
            && |kept| <= limit
            && (|log| < head ==> kept == log)
            && (|log| >= head ==>
                  && head <= s <= |log|
                  && kept == log[..head] + log[s..]
                  && (s > head ==> |log| - s >= LeastTail(limit))
                  && (s > head ==> |log| - s >= (GetNumRotatingLogFiles(limit) - 1) * GetRotatingLogSize(limit)))
  {
    var c, log := CallSessionConfig(limit), Log(chunks);
    hide Layout, Kept, Reaches, GetNumRotatingLogFiles, GetRotatingLogSize, Log;
    var k := ReachesLayout(c, chunks, d);
    s := SessionTail(c, log, k, d);
    SessionBudget(limit);
    LeastTailIs(limit);
  }

  lemma SessionTail(c: Config, log: seq<byte>, k: nat, d: Disk) returns (s: nat)
    requires c.callSession && Layout(c, log, k, d)
    ensures var n, size := c.numFiles - 1, Size(c, 1);
            && (|log| < Size(c, 0) ==> Kept(c, d) == log)
            && (|log| >= Size(c, 0) ==>
                  && Size(c, 0) <= s <= |log|
                  && |log| - s < n * size
                  && Kept(c, d) == log[..Size(c, 0)] + log[s..]
                  && (s > Size(c, 0) ==> |log| - s >= (n - 1) * size))
  {
    hide Cut, Size, Piece, Holds, Kept, OldestFirst, Which, ValidConfig, RotationIndex;
    KeptIs(c, log, k, d);
    CutOne(c);
    if k == 0 {
      EndOfLog(c, log, k, d.files, 0);
      s := 0;
    } else {
      CutMono(c, 1, k);
      if k < c.numFiles {
        s := NothingDropped(c, log, k, d.files);
      } else {
        s := MiddleDropped(c, log, k, d.files);
      }
    }
  }

  lemma OldestStep(files: map<nat, seq<byte>>, j: nat)
    requires j in files
    ensures OldestFirst(files, j) == files[j] + OldestFirst(files, j - 1)
  {
  }

  lemma NothingDropped(c: Config, log: seq<byte>, k: nat, files: map<nat, seq<byte>>) returns (s: nat)
    requires c.callSession && c.numFiles > 2 && Holds(c, log, k, files)
    requires Starts(c, k, |log|) && |log| < Cut(c, k + 1)
    requires 0 < k < c.numFiles && Starts(c, 1, |log|)
    ensures s == Size(c, 0) <= |log| && |log| - s < (c.numFiles - 1) * Size(c, 1)
    ensures OldestFirst(files, Top(c, k)) == log[..s] + log[s..]
  {
    hide Cut, Size, Piece, Holds, OldestFirst, Which;
    CutOne(c);
    EndOfLog(c, log, k, files, k);
    CutSteps(c, 1, k);
    Products(k, c.numFiles - 1, Size(c, 1));
    s := Size(c, 0);
    assert log == log[..s] + log[s..];
  }

  lemma MiddleDropped(c: Config, log: seq<byte>, k: nat, files: map<nat, seq<byte>>) returns (s: nat)
    requires c.callSession && c.numFiles > 2 && Holds(c, log, k, files)
    requires Starts(c, k, |log|) && |log| < Cut(c, k + 1)
    requires k >= c.numFiles && Starts(c, 1, |log|)
    ensures Size(c, 0) <= s <= |log|
    ensures (c.numFiles - 2) * Size(c, 1) <= |log| - s < (c.numFiles - 1) * Size(c, 1)
    ensures OldestFirst(files, Top(c, k)) == log[..Size(c, 0)] + log[s..]
  {
    var n := c.numFiles - 1;
    var m := k - (n - 1);
    assert Size(c, m) == Size(c, 1);
    hide Cut, Size, Piece, Holds, OldestFirst, Which, GetRotatingLogSize;
    CutOne(c);
    TopFile(c, log, k, files);
    EndOfLog(c, log, k, files, n - 1);
    CutSteps(c, m, n - 1);
    CutSteps(c, m, n);
    CutMono(c, 1, m);
    s := Cut(c, m);
    OldestStep(files, n);
  }

  lemma TopFile(c: Config, log: seq<byte>, k: nat, files: map<nat, seq<byte>>)
    requires c.callSession && 0 < c.numFiles - 1 <= k
    requires Holds(c, log, k, files) && Starts(c, 1, |log|)
    ensures c.numFiles - 1 in files && files[c.numFiles - 1] == log[..Size(c, 0)]
  {
    assert FileIs(c, log, k, files, c.numFiles - 1);
  }

  lemma Products(a: nat, b: nat, x: nat)
    requires a <= b
    ensures a * x <= b * x
  {
  }

  /** The rotating files fit in the second half of the budget. */
  /**
   The head and the rotating files fit in the limit and use it up, but for less than 3 bytes with two
   rotating files, and for at most one file's size with more of them, which are of 1 MiB each.
   */
  lemma SessionBudget(limit: nat)
    ensures var n, size := GetNumRotatingLogFiles(limit), GetRotatingLogSize(limit);
            var unused := limit - (limit / 2 + n * size);
            && 2 <= n && 0 <= unused
            && (n == 2 ==> unused <= 2)
            && (n > 2 ==> size == 1048576 && unused <= 1048576)
            && (n > 2 <==> limit / 2 >= 3 * 1048576)
  {
  }

  /** What the tail of a call session has at least, once something is dropped. */
  function LeastTail(limit: nat): (r: nat) {
    if limit / 2 < 3 * 1048576 then limit / 4 else limit / 2 - 2 * 1048576
  }

  lemma LeastTailIs(limit: nat)
    ensures (GetNumRotatingLogFiles(limit) - 1) * GetRotatingLogSize(limit) >= LeastTail(limit)
  {
    SessionBudget(limit);
  }

  /** A plain stream keeps an unbroken end of the log, at least all but one of its files long once anything is lost. */
  lemma TailKept(c: Config, chunks: seq<seq<byte>>, d: Disk) returns (s: nat)
    requires ValidConfig(c) && !c.callSession && Reaches(c, chunks, d)
    ensures var log := Log(chunks);
            && s <= |log| && Kept(c, d) == log[s..]
            && |log| - s < c.numFiles * c.limit
            && (s > 0 ==> |log| - s >= (c.numFiles - 1) * c.limit)
  {
    hide Cut, Piece, Holds, Kept, OldestFirst, Which, Log, Reaches, RotationIndex, GetRotatingLogSize;
    var log := Log(chunks);
    var k := ReachesLayout(c, chunks, d);
    var top := Top(c, k);
    KeptIs(c, log, k, d);
    EndOfLog(c, log, k, d.files, top);
    s := Cut(c, k - top);
    CutSteps(c, k - top, top);
    CutSteps(c, k - top, top + 1);
    Products(top + 1, c.numFiles, c.limit);
    CutOne(c);
  }

  // ----- The writing stream -----

  /** The files above index i have moved up by one; index i is free. */
  ghost predicate Shifted(before: map<nat, seq<byte>>, files: map<nat, seq<byte>>, i: int, r: int) {
    && i !in files
    && (forall j: nat | j < i || j > r :: (j in files <==> j in before) && (j in files ==> files[j] == before[j]))
    && (forall j: nat | i < j <= r :: (j in files <==> j - 1 in before) && (j in files ==> files[j] == before[j - 1]))
  }

  lemma ShiftStep(before: map<nat, seq<byte>>, files: map<nat, seq<byte>>, i: int, r: int)
    requires 0 < i <= r && Shifted(before, files, i, r)
    ensures Shifted(before, if i - 1 in files then (files - {i - 1})[i := files[i - 1]] else files, i - 1, r)
  {
  }

  lemma RotatedIs(before: map<nat, seq<byte>>, r: int, files: map<nat, seq<byte>>)
    requires 0 <= r && Shifted(before, files, 0, r)
    ensures files[0 := []] == Rotated(before, r)
  {
    var f, g := Rotated(before, r), files[0 := []];
    forall j: nat ensures (j in g <==> j in f) && (j in g ==> g[j] == f[j]) {
      RotatedAt(before, r, j);
    }
    assert g.Keys == f.Keys;
  }

  class FileRotatingStream {
    const config: Config
    var maxFileSize: nat
    var rotationIndex: int
    var numRotations: nat
    var currentBytesWritten: nat
    var isOpen: bool
    var files: map<nat, seq<byte>>

    ghost function OnDisk(): Disk
      reads this
    {
      Disk(maxFileSize, rotationIndex, numRotations, files)
    }

    ghost predicate Valid()
      reads this
    {
      && ValidConfig(config)
      && maxFileSize == Size(config, numRotations)
      && rotationIndex == RotationIndex(config, numRotations)
      && (!config.callSession ==> numRotations == 0)
      && (isOpen ==> HasRoom(OnDisk()) && currentBytesWritten == |files[0]|)
      && (!isOpen ==> currentBytesWritten == 0)
    }

    /** `directory` holds what earlier streams left there. */
    constructor (c: Config, directory: map<nat, seq<byte>>)
      requires ValidConfig(c)
      ensures Valid() && config == c && !isOpen && files == directory
      ensures maxFileSize == Size(c, 0) && rotationIndex == c.numFiles - 1 && numRotations == 0
    {
      config := c;
      maxFileSize := if c.callSession then c.limit / 2 else c.limit;
      rotationIndex := c.numFiles - 1;
      numRotations := 0;
      currentBytesWritten := 0;
      isOpen := false;
      files := directory;
    }

    /** Existing files are deleted.  The first Open gives the new disk that runs start from. */
    method Open()
      requires Valid()
      modifies this
      ensures Valid() && isOpen
      ensures OnDisk() == old(OnDisk()).(files := map[0 := []])
      ensures old(numRotations) == 0 ==> OnDisk() == NewDisk(config)
    {
      SizePositive(config, numRotations);
      files := map[];
      OpenCurrentFile();
    }

    method OpenCurrentFile()
      requires !isOpen ==> currentBytesWritten == 0
      modifies this
      ensures isOpen && currentBytesWritten == 0
      ensures OnDisk() == old(OnDisk()).(files := old(files)[0 := []])
    {
      CloseCurrentFile();
      files := files[0 := []];
      isOpen := true;
    }

    method CloseCurrentFile()
      modifies this
      ensures OnDisk() == old(OnDisk()) && !isOpen
      ensures currentBytesWritten == if old(isOpen) then 0 else old(currentBytesWritten)
    {
      if isOpen {
        currentBytesWritten := 0;
        isOpen := false;
      }
    }

    /** One call takes what fits in the current file, or less if the file system takes less. */
    method Write(data: seq<byte>, accepts: nat) returns (r: StreamResult, written: nat)
      requires Valid() && accepts > 0
      modifies this
      ensures Valid() && isOpen == old(isOpen) && written <= |data| && written <= accepts
      ensures !isOpen ==> r == SR_ERROR && written == 0 && OnDisk() == old(OnDisk())
      ensures isOpen ==>
                && r == SR_SUCCESS && (data != [] ==> written > 0)
                && |old(files)[0]| + written <= old(maxFileSize)
                && (written == |data| || written == accepts || |old(files)[0]| + written == old(maxFileSize))
                && OnDisk() == AfterWrite(config, old(OnDisk()), data[..written])
    {
      written := 0;
      if !isOpen {
        return SR_ERROR, 0;
      }
      ghost var d := OnDisk();
      var remainingBytes := maxFileSize - currentBytesWritten;
      var writeLength := if |data| < remainingBytes then |data| else remainingBytes;
      written := if accepts < writeLength then accepts else writeLength;
      r := SR_SUCCESS;
      files := files[0 := files[0] + data[..written]];
      currentBytesWritten := currentBytesWritten + written;
      if currentBytesWritten >= maxFileSize {
        RotateFiles();
        SizePositive(config, numRotations);
      }
    }

    method RotateFiles()
      requires ValidConfig(config) && isOpen && (!config.callSession ==> numRotations == 0)
      requires maxFileSize == Size(config, numRotations) && rotationIndex == RotationIndex(config, numRotations)
      modifies this
      ensures isOpen && currentBytesWritten == 0 && 0 in files && files[0] == []
      ensures maxFileSize == Size(config, numRotations) && rotationIndex == RotationIndex(config, numRotations)
      ensures !config.callSession ==> numRotations == 0
      ensures OnDisk() == OnRotation(config, old(OnDisk()).(files := Rotated(old(files), old(rotationIndex))))
    {
      hide Rotated, OnRotation, GetRotatingLogSize;
      CloseCurrentFile();
      MoveFiles();
      OpenCurrentFile();
      RotationFields(config, numRotations, OnDisk());
      OnRotationHook();
    }

    /** Deletes the file at the rotation index and moves each file below it up by one. */
    method MoveFiles()
      requires rotationIndex >= 0
      modifies this`files
      ensures files[0 := []] == Rotated(old(files), rotationIndex)
    {
      ghost var before := files;
      if rotationIndex in files {
        files := files - {rotationIndex};
      }
      var i := rotationIndex;
      assert Shifted(before, files, i, rotationIndex);
      hide Rotated, Shifted;
      while i > 0
        invariant 0 <= i <= rotationIndex
        invariant Shifted(before, files, i, rotationIndex)
      {
        ShiftStep(before, files, i, rotationIndex);
        if i - 1 in files {
          files := (files - {i - 1})[i := files[i - 1]];
        }
        i := i - 1;
      }
      RotatedIs(before, rotationIndex, files);
    }

    /** OnRotation, which only a call-session stream overrides. */
    method OnRotationHook()
      modifies this`maxFileSize, this`rotationIndex, this`numRotations
      ensures OnDisk() == OnRotation(config, old(OnDisk()))
    {
      if config.callSession {
        numRotations := numRotations + 1;
        if numRotations == 1 {
          maxFileSize := GetRotatingLogSize(config.limit);
        } else if numRotations == config.numFiles - 1 {
          rotationIndex := rotationIndex - 1;
        }
      }
    }
  }

  lemma ReachesMore(c: Config, chunks: seq<seq<byte>>, d: Disk, chunk: seq<byte>)
    requires ValidConfig(c) && Reaches(c, chunks, d)
    requires HasRoom(d) && |d.files[0]| + |chunk| <= d.maxFileSize
    ensures Reaches(c, chunks + [chunk], AfterWrite(c, d, chunk))
    ensures Log(chunks + [chunk]) == Log(chunks) + chunk
  {
    hide AfterWrite, HasRoom;
    assert (chunks + [chunk])[..|chunks|] == chunks;
  }

  /** StreamInterface::WriteAll on an open stream: however little each call takes, all the data goes to the log. */
  method WriteAll(stream: FileRotatingStream, data: seq<byte>, accepts: seq<nat>, ghost chunks: seq<seq<byte>>)
    returns (r: StreamResult, totalWritten: nat, ghost chunks': seq<seq<byte>>)
    requires stream.Valid() && stream.isOpen && Reaches(stream.config, chunks, stream.OnDisk())
    modifies stream
    ensures stream.Valid() && stream.isOpen && r == SR_SUCCESS && totalWritten == |data|
    ensures Reaches(stream.config, chunks', stream.OnDisk()) && Log(chunks') == Log(chunks) + data
  {
    hide Reaches, Log, AfterWrite, HasRoom;
    r, totalWritten, chunks' := SR_SUCCESS, 0, chunks;
    var calls := 0;
    assert Log(chunks) + data[..0] == Log(chunks);
    while totalWritten < |data|
      invariant totalWritten <= |data| && r == SR_SUCCESS
      invariant stream.Valid() && stream.isOpen
      invariant Reaches(stream.config, chunks', stream.OnDisk())
      invariant Log(chunks') == Log(chunks) + data[..totalWritten]
      decreases |data| - totalWritten
    {
      ghost var d := stream.OnDisk();
      var rest := data[totalWritten..];
      var currentWritten;
      var takes := if calls < |accepts| && accepts[calls] > 0 then accepts[calls] else |rest|;
      r, currentWritten := stream.Write(rest, takes);
      ReachesMore(stream.config, chunks', d, rest[..currentWritten]);
      chunks' := chunks' + [rest[..currentWritten]];
      assert data[..totalWritten + currentWritten] == data[..totalWritten] + rest[..currentWritten];
      totalWritten := totalWritten + currentWritten;
      calls := calls + 1;
    }
    assert data[..totalWritten] == data;
  }

  // ----- File names -----

  function Decimal(n: nat): (s: string)
    ensures s != [] && (n > 0 ==> s[0] > '0')
  {
    if n < 10 then ['0' + n as char] else Decimal(n / 10) + ['0' + (n % 10) as char]
  }

  function Zeros(n: nat): (s: string)
    ensures |s| == n && forall i | 0 <= i < n :: s[i] == '0'
  {
    seq(n, _ => '0')
  }

  /** The private GetFilePath; `prefix` stands for the directory and the file prefix. */
  function GetFilePath(prefix: string, index: nat, numFiles: nat): string
    requires index < numFiles
  {
    var maxDigits := (numFiles - 1) / 10 + 1;
    var numDigits := index / 10 + 1;
    prefix + "_" + Zeros(maxDigits - numDigits) + Decimal(index)
  }

  /** The order std::sort uses on the paths. */
  ghost predicate Less(a: string, b: string) {
    b != [] && (a == [] || a[0] < b[0] || (a[0] == b[0] && Less(a[1..], b[1..])))
  }

  lemma {:induction false} LessAfter(p: string, a: string, b: string)
    requires Less(a, b)
    ensures Less(p + a, p + b)
  {
    if p == [] {
      assert p + a == a && p + b == b;
    } else {
      LessAfter(p[1..], a, b);
      assert (p + a)[1..] == p[1..] + a && (p + b)[1..] == p[1..] + b;
    }
  }

  lemma {:induction false} LessAsymmetric(a: string, b: string)
    ensures !(Less(a, b) && Less(b, a))
    decreases |a|
  {
    if a != [] && b != [] { LessAsymmetric(a[1..], b[1..]); }
  }

  lemma LastDigitOrders(i: nat, j: nat, head: string)
    requires i < j && i / 10 == j / 10
    ensures Less(head + Decimal(i), head + Decimal(j))
  {
    var tens := if i < 10 then [] else Decimal(i / 10);
    var a, b := ['0' + (i % 10) as char], ['0' + (j % 10) as char];
    assert Decimal(i) == tens + a && Decimal(j) == tens + b;
    assert Less(a, b);
    hide Less, Decimal;
    LessAfter(head + tens, a, b);
    assert head + tens + a == head + (tens + a) && head + tens + b == head + (tens + b);
  }

  lemma PaddingOrders(i: nat, j: nat, more: nat, head: string)
    requires j > 0 && more > 0
    ensures Less(head + (Zeros(more) + Decimal(i)), head + Decimal(j))
  {
    hide Decimal;
    var a := Zeros(more) + Decimal(i);
    assert a[0] == '0';
    assert Less(a, Decimal(j));
    hide Less;
    LessAfter(head, a, Decimal(j));
  }

  /** The paths sort as their indices do, although the padding is not to a common width. */
  lemma NamesInOrder(prefix: string, i: nat, j: nat, numFiles: nat)
    requires i < j < numFiles
    ensures Less(GetFilePath(prefix, i, numFiles), GetFilePath(prefix, j, numFiles))
  {
    hide Less, Decimal;
    var padI, padJ := (numFiles - 1) / 10 - i / 10, (numFiles - 1) / 10 - j / 10;
    var head := prefix + "_" + Zeros(padJ);
    if i / 10 == j / 10 {
      LastDigitOrders(i, j, head);
    } else {
      PaddingOrders(i, j, padI - padJ, head);
      assert Zeros(padI) == Zeros(padJ) + Zeros(padI - padJ);
      assert GetFilePath(prefix, i, numFiles) == head + (Zeros(padI - padJ) + Decimal(i));
    }
  }

  // ----- Reading a directory back -----

  ghost predicate Sorted(names: seq<string>) {
    forall i, j | 0 <= i < j < |names| :: Less(names[i], names[j])
  }

  lemma {:induction false} SortedUnique(a: seq<string>, b: seq<string>)
    requires Sorted(a) && Sorted(b)
    requires forall s :: s in a <==> s in b
    ensures a == b
    decreases |a|
  {
    hide Less;
    if a == [] {
      HasFirst(b);
    } else {
      assert a[0] in b;
      SameFirst(a, b);
      forall s ensures s in a[1..] <==> s in b[1..] {
        if s in a[1..] { RestOf(a, b, s); }
        if s in b[1..] { RestOf(b, a, s); }
      }
      SortedUnique(a[1..], b[1..]);
      assert a == [a[0]] + a[1..] && b == [b[0]] + b[1..];
    }
  }

  lemma HasFirst(a: seq<string>)
    ensures a != [] ==> exists s :: s in a
  {
    if a != [] { assert a[0] in a; }
  }

  lemma SameFirst(a: seq<string>, b: seq<string>)
    requires Sorted(a) && Sorted(b) && a != [] && b != []
    requires a[0] in b && b[0] in a
    ensures a[0] == b[0]
  {
    hide Less;
    LessAsymmetric(a[0], b[0]);
  }

  lemma RestOf(a: seq<string>, b: seq<string>, s: string)
    requires Sorted(a) && a != [] && b != [] && a[0] == b[0] && s in a[1..]
    requires s in a ==> s in b
    ensures s in b[1..]
  {
    hide Less;
    LessAsymmetric(a[0], s);
    assert s in a && s in b;
    assert b == [b[0]] + b[1..];
  }

  /** The directory holds exactly the stream's files under their paths. */
  ghost predicate Stores(dir: map<string, seq<byte>>, prefix: string, files: map<nat, seq<byte>>, numFiles: nat) {
    && (forall i: nat | i in files :: i < numFiles && GetFilePath(prefix, i, numFiles) in dir
                                      && dir[GetFilePath(prefix, i, numFiles)] == files[i])
    && (forall s | s in dir :: exists i: nat | i in files && i < numFiles :: s == GetFilePath(prefix, i, numFiles))
  }

  function Backwards(dir: map<string, seq<byte>>, names: seq<string>): seq<byte>
    requires forall s | s in names :: s in dir
  {
    if names == [] then []
    else dir[names[|names| - 1]] + Backwards(dir, names[..|names| - 1])
  }

  lemma BackwardsStep(dir: map<string, seq<byte>>, names: seq<string>, i: nat)
    requires i <= |names| && forall s | s in names :: s in dir
    ensures Backwards(dir, names[..0]) == []
    ensures i > 0 ==> Backwards(dir, names[..i]) == dir[names[i - 1]] + Backwards(dir, names[..i - 1])
    ensures i > 0 ==> dir[names[i - 1]][0..] == dir[names[i - 1]]
  {
    if i > 0 { assert names[..i][..i - 1] == names[..i - 1]; }
  }

  lemma TakeFirst(contents: seq<byte>, pos: nat, n: nat, tail: seq<byte>)
    requires pos + n <= |contents|
    ensures contents[pos..] + tail == contents[pos..pos + n] + (contents[pos + n..] + tail)
  {
    assert contents[pos..] == contents[pos..pos + n] + contents[pos + n..];
  }

  class FileRotatingReader {
    const dir: map<string, seq<byte>>
    const fileNames: seq<string>
    var currentFileIndex: nat
    var isOpen: bool
    var pos: nat

    ghost predicate Valid()
      reads this
    {
      && (forall s | s in fileNames :: s in dir)
      && (isOpen ==> currentFileIndex < |fileNames| && pos <= |dir[fileNames[currentFileIndex]]|)
    }

    /** What is still to be read. */
    ghost function Remaining(): seq<byte>
      requires Valid()
      reads this
    {
      if currentFileIndex >= |fileNames| then []
      else
        dir[fileNames[currentFileIndex]][if isOpen then pos else 0..] + Backwards(dir, fileNames[..currentFileIndex])
    }

    ghost function FilesLeft(): nat
      reads this
    {
      if currentFileIndex < |fileNames| then currentFileIndex + 1 else 0
    }

    /** `sorted` is the listing of the directory after std::sort. */
    constructor (directory: map<string, seq<byte>>, sorted: seq<string>)
      requires forall s | s in sorted :: s in directory
      ensures Valid() && dir == directory && fileNames == sorted
      ensures Remaining() == Backwards(directory, sorted)
    {
      dir, fileNames := directory, sorted;
      currentFileIndex := if |sorted| > 0 then |sorted| - 1 else 0;
      isOpen, pos := false, 0;
    }

    method Read(bufferLen: nat) returns (r: StreamResult, read: seq<byte>)
      requires Valid()
      modifies this
      ensures Valid() && |read| <= bufferLen
      ensures read + Remaining() == old(Remaining())
      ensures r == if old(FilesLeft()) == 0 then SR_EOS else SR_SUCCESS
      ensures r == SR_EOS ==> read == [] && Remaining() == []
      ensures FilesLeft() <= old(FilesLeft())
      ensures bufferLen > 0 && r == SR_SUCCESS ==> FilesLeft() < old(FilesLeft()) || read != []
    {
      hide Backwards;
      read := [];
      if currentFileIndex >= |fileNames| {
        return SR_EOS, [];
      }
      if !isOpen {
        isOpen, pos := true, 0;
      }
      var available := |dir[fileNames[currentFileIndex]]| - pos;
      if available == 0 && bufferLen > 0 {
        NextFile();
      } else {
        read := ReadCurrent(if bufferLen < available then bufferLen else available);
      }
      r := SR_SUCCESS;
    }

    method ReadCurrent(n: nat) returns (read: seq<byte>)
      requires Valid() && isOpen && pos + n <= |dir[fileNames[currentFileIndex]]|
      modifies this`pos
      ensures Valid() && |read| == n && read + Remaining() == old(Remaining())
    {
      hide Backwards;
      var contents := dir[fileNames[currentFileIndex]];
      read := contents[pos..pos + n];
      TakeFirst(contents, pos, n, Backwards(dir, fileNames[..currentFileIndex]));
      pos := pos + n;
    }

    /** Closes a file read to its end and goes on to the next newer one. */
    method NextFile()
      requires Valid() && isOpen && pos == |dir[fileNames[currentFileIndex]]|
      modifies this
      ensures Valid() && Remaining() == old(Remaining()) && FilesLeft() < old(FilesLeft())
    {
      hide Backwards;
      BackwardsStep(dir, fileNames, currentFileIndex);
      isOpen := false;
      if currentFileIndex == 0 {
        currentFileIndex := |fileNames|;
      } else {
        currentFileIndex := currentFileIndex - 1;
      }
    }

    /** A client that reads until the end of the stream. */
    method ReadToEnd(bufferLen: nat) returns (bytes: seq<byte>)
      requires Valid() && bufferLen > 0
      modifies this
      ensures Valid() && bytes == old(Remaining())
    {
      hide Valid, Remaining, FilesLeft;
      bytes := [];
      while true
        invariant Valid() && bytes + Remaining() == old(Remaining())
        decreases FilesLeft(), |Remaining()|
      {
        ghost var before := bytes;
        var r, read := Read(bufferLen);
        bytes := bytes + read;
        Regroup(before, read, Remaining());
        if r == SR_EOS {
          break;
        }
      }
    }
  }

  /** Whatever order the listing had, sorting and walking down from the last name gives the oldest file first. */
  lemma ReadsOldestFirst(dir: map<string, seq<byte>>, names: seq<string>, prefix: string,
                         files: map<nat, seq<byte>>, top: nat, numFiles: nat)
    requires top < numFiles && forall i: nat :: i in files <==> i <= top
    requires Stores(dir, prefix, files, numFiles)
    requires Sorted(names) && forall s :: s in names <==> s in dir
    ensures names == seq(top + 1, i requires 0 <= i < numFiles => GetFilePath(prefix, i, numFiles))
    ensures Backwards(dir, names) == OldestFirst(files, top)
  {
    hide Less, GetFilePath;
    var paths := seq(top + 1, i requires 0 <= i < numFiles => GetFilePath(prefix, i, numFiles));
    forall i, j | 0 <= i < j < |paths| ensures Less(paths[i], paths[j]) {
      NamesInOrder(prefix, i, j, numFiles);
    }
    forall s ensures s in names <==> s in paths {
      if s in paths {
        var i: nat :| i < |paths| && paths[i] == s;
        assert i in files;
      }
      if s in names {
        assert s in dir;
        var i: nat :| i in files && i < numFiles && s == GetFilePath(prefix, i, numFiles);
        assert paths[i] == s;
      }
    }
    SortedUnique(names, paths);
    BackwardsIs(dir, paths, prefix, files, top, numFiles);
  }

  lemma {:induction false} BackwardsIs(dir: map<string, seq<byte>>, paths: seq<string>, prefix: string,
                                       files: map<nat, seq<byte>>, top: int, numFiles: nat)
    requires -1 <= top < numFiles && |paths| == top + 1
    requires forall i | 0 <= i <= top :: paths[i] == GetFilePath(prefix, i, numFiles)
    requires forall i: nat | i <= top :: i in files && paths[i] in dir && dir[paths[i]] == files[i]
    ensures Backwards(dir, paths) == OldestFirst(files, top)
    decreases top + 1
  {
    if top >= 0 { BackwardsIs(dir, paths[..top], prefix, files, top - 1, numFiles); }
  }

  /** Written by a call-session stream and read back by another one: the head of the log, then an unbroken end. */
  lemma ReadBackHeadAndTail(limit: nat, chunks: seq<seq<byte>>, d: Disk,
                            dir: map<string, seq<byte>>, names: seq<string>, prefix: string) returns (s: nat)
    requires limit >= 4 && Reaches(CallSessionConfig(limit), chunks, d)
    requires Stores(dir, prefix, d.files, CallSessionConfig(limit).numFiles)
    requires Sorted(names) && forall s :: s in names <==> s in dir
    ensures var log, read, head := Log(chunks), Backwards(dir, names), limit / 2;
            && |read| <= limit
            && (|log| < head ==> read == log)
            && (|log| >= head ==>
                  && head <= s <= |log|
                  && read == log[..head] + log[s..]
                  && (s > head ==> |log| - s >= LeastTail(limit))
                  && (s > head ==> |log| - s >= (GetNumRotatingLogFiles(limit) - 1) * GetRotatingLogSize(limit)))
  {
    var c := CallSessionConfig(limit);
    assert ValidConfig(c);
    hide Cut, Size, Piece, Kept, OldestFirst, Which, FileIs, Log, Reaches, RotationIndex, Stores, Sorted, Backwards;
    var k := ReachesLayout(c, chunks, d);
    s := HeadAndTailKept(limit, chunks, d);
    KeptIs(c, Log(chunks), k, d);
    ReadsOldestFirst(dir, names, prefix, d.files, Top(c, k), c.numFiles);
  }
}
