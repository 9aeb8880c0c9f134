/**
 * split.py: the module-level packing loop. Counters `part_num` and
 * `current_size` and the folder `part_{part_num}` are updated file by file;
 * a new part folder is ready whenever the next file would take the current
 * part past the limit, with no check that the current part holds anything.
 */
module PartScript {
  import opened Wrappers
  import opened Files
  import opened Decimal
  import opened Paths

  /**
   * One file yielded by the walk: `os.path.join(root, file)`, its size or
   * None when `os.path.getsize` raises, and whether `shutil.copy2` succeeds.
   */
  datatype WalkedFile = WalkedFile(path: string, size: Option<nat>, copySucceeds: bool)

  /**
   * The script's counters, with the files each part folder received so far
   * (`parts[k]` for `part_{k+1}`).
   */
  datatype State = State(partNum: nat, currentSize: nat, parts: seq<seq<FileEntry>>)

  /** `part_num` counts the folders, and `current_size` is what the current folder received. */
  predicate WellFormed(st: State) {
    && st.partNum >= 1
    && |st.parts| == st.partNum
    && st.currentSize == Total(st.parts[|st.parts| - 1])
  }

  /** `part_num = 1`, `current_size = 0`, and `part_1` created empty. */
  const Initial := State(1, 0, [[]])

  /** `f` copied into the current part folder. */
  function AddToCurrent(st: State, f: FileEntry): (r: State)
    requires st.parts != []
    ensures |r.parts| == |st.parts|
    ensures r.parts[|r.parts| - 1] == st.parts[|st.parts| - 1] + [f]
    ensures r.parts[..|r.parts| - 1] == st.parts[..|st.parts| - 1]
  {
    var n := |st.parts| - 1;
    State(st.partNum, st.currentSize + f.size, st.parts[..n] + [st.parts[n] + [f]])
  }

  /** The state once a file of `size` bytes has been checked against the limit: a fresh part when it does not fit. */
  function OpenFor(st: State, size: nat, maxSize: int): (r: State)
    requires WellFormed(st)
    ensures WellFormed(r)
    ensures st.currentSize + size > maxSize ==>
              r.partNum == st.partNum + 1 && r.currentSize == 0 && r.parts == st.parts + [[]]
    ensures st.currentSize + size <= maxSize ==> r == st
    ensures |st.parts| <= |r.parts|
    ensures r.parts[..|st.parts| - 1] == st.parts[..|st.parts| - 1]
  {
    if st.currentSize + size > maxSize then
      assert (st.parts + [[]])[..|st.parts| - 1] == st.parts[..|st.parts| - 1];
      State(st.partNum + 1, 0, st.parts + [[]])
    else st
  }

  /**
   * The loop body for one walked file: a file whose size cannot be read is
   * skipped; otherwise a new part is ready when `current_size + file_size`
   * exceeds the limit, and the file counts towards `current_size` only when
   * its copy succeeds.
   */
  function Step(st: State, f: WalkedFile, maxSize: int): (r: State)
    requires WellFormed(st)
    ensures WellFormed(r)
    ensures f.size.None? ==> r == st
    ensures f.size.Some? ==> (r.partNum == st.partNum + 1 <==> st.currentSize + f.size.value > maxSize)
    ensures f.size.Some? && st.currentSize + f.size.value <= maxSize ==> r.partNum == st.partNum
    ensures r.parts[..|st.parts| - 1] == st.parts[..|st.parts| - 1]
  {
    match f.size
    case None => st
    case Some(sz) =>
      var ready := OpenFor(st, sz, maxSize);
      if f.copySucceeds then
        TotalAppend(ready.parts[|ready.parts| - 1], FileEntry(f.path, sz));
        AddToCurrent(ready, FileEntry(f.path, sz))
      else ready
  }

  /** The counters after the loop has seen `files`, in walk order. */
  function Run(files: seq<WalkedFile>, maxSize: int): (st: State)
    ensures WellFormed(st)
    ensures st.partNum >= 1
  {
    if files == [] then Initial
    else Step(Run(files[..|files| - 1], maxSize), files[|files| - 1], maxSize)
  }

  lemma RunSnoc(files: seq<WalkedFile>, i: nat, maxSize: int)
    requires i < |files|
    ensures Run(files[..i + 1], maxSize) == Step(Run(files[..i], maxSize), files[i], maxSize)
  {
    assert files[..i + 1][..i] == files[..i];
  }

  // ---------------------------------------------------------------------------
  // Output folders and copies

  /** `os.path.join(OUTPUT_DIR, f"part_{part_num}")`. */
  function PartFolder(outputDir: string, n: nat): string {
    Join(outputDir, "part_" + NatToString(n))
  }

  /** The folders `part_1` … `part_n`, in the order they are created. */
  function PartFolders(outputDir: string, n: nat): (folders: seq<string>)
    ensures |folders| == n
  {
    if n == 0 then [] else PartFolders(outputDir, n - 1) + [PartFolder(outputDir, n)]
  }

  /** Part folders are numbered from 1 without gaps: the k-th created folder is `part_{k+1}`. */
  lemma {:induction false} PartFoldersNumbered(outputDir: string, n: nat, k: nat)
    requires k < n
    ensures PartFolders(outputDir, n)[k] == PartFolder(outputDir, k + 1)
  {
    if k < n - 1 {
      PartFoldersNumbered(outputDir, n - 1, k);
    }
  }

  /** `shutil.copy2(file_path, current_folder)`: the source path and where the copy lands. */
  datatype CopyOp = CopyOp(source: string, dest: string)

  /** Copying into a folder keeps only the file's own name: `os.path.join(folder, os.path.basename(path))`. */
  function CopyDest(folder: string, path: string): string {
    Join(folder, BaseName(path))
  }

  /** The copies into one folder, in order. */
  function FolderCopies(folder: string, files: seq<FileEntry>): (ops: seq<CopyOp>)
    ensures |ops| == |files|
  {
    if files == [] then []
    else FolderCopies(folder, files[..|files| - 1]) + [CopyOp(files[|files| - 1].path, CopyDest(folder, files[|files| - 1].path))]
  }

  /** All successful copies, part by part. */
  function AllCopies(outputDir: string, parts: seq<seq<FileEntry>>): seq<CopyOp> {
    if parts == [] then []
    else AllCopies(outputDir, parts[..|parts| - 1]) + FolderCopies(PartFolder(outputDir, |parts|), parts[|parts| - 1])
  }

  lemma AllCopiesNewPart(outputDir: string, parts: seq<seq<FileEntry>>)
    ensures AllCopies(outputDir, parts + [[]]) == AllCopies(outputDir, parts)
  {
    assert (parts + [[]])[..|parts|] == parts;
  }

  lemma AllCopiesAddToCurrent(outputDir: string, parts: seq<seq<FileEntry>>, newParts: seq<seq<FileEntry>>, f: FileEntry)
    requires parts != [] && |newParts| == |parts|
    requires newParts[..|parts| - 1] == parts[..|parts| - 1]
    requires newParts[|parts| - 1] == parts[|parts| - 1] + [f]
    ensures AllCopies(outputDir, newParts) ==
            AllCopies(outputDir, parts) + [CopyOp(f.path, CopyDest(PartFolder(outputDir, |parts|), f.path))]
  {
    var last := parts[|parts| - 1];
    assert (last + [f])[..|last|] == last;
  }

  /** What the script leaves behind: the final `part_num`, the folders it created and the copies it made. */
  datatype Report = Report(partNum: nat, folders: seq<string>, copies: seq<CopyOp>)

  function ReportOf(outputDir: string, st: State): Report {
    Report(st.partNum, PartFolders(outputDir, st.partNum), AllCopies(outputDir, st.parts))
  }

  /**
   * Why the script stops before creating anything: `FileNotFoundError` from
   * the existence check, or `NotADirectoryError` from the `os.scandir` of
   * the diagnostic listing when the source is not a directory.
   */
  datatype ScriptError = SourceNotFound | SourceNotADirectory

  /** The script's variables agree with the counters `st` and its outputs so far. */
  predicate Tracks(outputDir: string, st: State, partNum: nat, currentSize: nat, currentFolder: string,
                   folders: seq<string>, copies: seq<CopyOp>) {
    && WellFormed(st)
    && partNum == st.partNum
    && currentSize == st.currentSize
    && currentFolder == PartFolder(outputDir, partNum)
    && folders == PartFolders(outputDir, partNum)
    && copies == AllCopies(outputDir, st.parts)
  }

  /** Opening `part_{n+1}` keeps the variables in step with the counters. */
  lemma TracksNewPart(outputDir: string, st: State, size: nat, maxSize: int, partNum: nat, currentSize: nat,
                      currentFolder: string, folders: seq<string>, copies: seq<CopyOp>)
    requires Tracks(outputDir, st, partNum, currentSize, currentFolder, folders, copies)
    requires currentSize + size > maxSize
    ensures Tracks(outputDir, OpenFor(st, size, maxSize), partNum + 1, 0, PartFolder(outputDir, partNum + 1),
                   folders + [PartFolder(outputDir, partNum + 1)], copies)
  {
    AllCopiesNewPart(outputDir, st.parts);
  }

  /** A successful copy into the current folder keeps the variables in step with the counters. */
  lemma TracksCopy(outputDir: string, st: State, f: FileEntry, partNum: nat, currentSize: nat,
                   currentFolder: string, folders: seq<string>, copies: seq<CopyOp>)
    requires Tracks(outputDir, st, partNum, currentSize, currentFolder, folders, copies)
    ensures Tracks(outputDir, AddToCurrent(st, f), partNum, currentSize + f.size, currentFolder, folders,
                   copies + [CopyOp(f.path, CopyDest(currentFolder, f.path))])
  {
    TotalAppend(st.parts[|st.parts| - 1], f);
    AllCopiesAddToCurrent(outputDir, st.parts, AddToCurrent(st, f).parts, f);
  }

  /**
   * The script's module-level variables, and (as a ghost) the counters and
   * per-part files they stand for.
   */
  class Script {
    const outputDir: string
    const maxSize: int
    var partNum: nat
    var currentSize: nat
    var currentFolder: string
    var folders: seq<string>
    var copies: seq<CopyOp>
    ghost var st: State

    ghost predicate Valid()
      reads this
    {
      Tracks(outputDir, st, partNum, currentSize, currentFolder, folders, copies)
    }

    /** `part_num = 1`, `current_size = 0`, and `part_1` created. */
    constructor Start(outputDir: string, maxSize: int)
      ensures Valid() && st == Initial
      ensures this.outputDir == outputDir && this.maxSize == maxSize
    {
      this.outputDir := outputDir;
      this.maxSize := maxSize;
      partNum := 1;
      currentSize := 0;
      currentFolder := PartFolder(outputDir, 1);
      folders := [PartFolder(outputDir, 1)];
      copies := [];
      st := Initial;
    }

    /**
     * A file of `fileSize` bytes that would take the current part past the
     * limit: `part_num += 1`, the next folder is created, `current_size = 0`.
     */
    method MakeRoom(fileSize: nat)
      requires Valid()
      modifies this
      ensures Valid() && st == OpenFor(old(st), fileSize, maxSize)
    {
      if currentSize + fileSize > maxSize {
        TracksNewPart(outputDir, st, fileSize, maxSize, partNum, currentSize, currentFolder, folders, copies);
        partNum := partNum + 1;
        currentFolder := PartFolder(outputDir, partNum);
        folders := folders + [currentFolder];
        currentSize := 0;
        st := OpenFor(st, fileSize, maxSize);
      }
    }

    /** A successful `shutil.copy2` into the current folder, then `current_size += file_size`. */
    method RecordCopy(path: string, fileSize: nat)
      requires Valid()
      modifies this
      ensures Valid() && st == AddToCurrent(old(st), FileEntry(path, fileSize))
    {
      TracksCopy(outputDir, st, FileEntry(path, fileSize), partNum, currentSize, currentFolder, folders, copies);
      copies := copies + [CopyOp(path, CopyDest(currentFolder, path))];
      currentSize := currentSize + fileSize;
      st := AddToCurrent(st, FileEntry(path, fileSize));
    }

    /** The body of the inner loop for one walked file. */
    method Visit(f: WalkedFile)
      requires Valid()
      modifies this
      ensures Valid() && st == Step(old(st), f, maxSize)
    {
      match f.size {
        case None =>
        case Some(fileSize) =>
          MakeRoom(fileSize);
          if f.copySucceeds {
            RecordCopy(f.path, fileSize);
          }
      }
    }
  }

  /**
   * The whole script, with the existence of `SOURCE_DIR`, whether it is a
   * directory, the walk's files (in walk order), `OUTPUT_DIR` and
   * `MAX_SIZE_BYTES` as parameters: a missing source raises, and then a
   * source that is not a directory makes the diagnostic `os.scandir` raise,
   * both before any folder is created; otherwise the counters follow Run,
   * `part_1` … `part_{part_num}` are created in order, and the reported part
   * count is the final `part_num`.
   */
  method RunScript(sourceExists: bool, sourceIsDir: bool, files: seq<WalkedFile>, outputDir: string, maxSize: int)
    returns (r: Result<Report, ScriptError>)
    ensures !sourceExists ==> r == Failure(SourceNotFound)
    ensures sourceExists && !sourceIsDir ==> r == Failure(SourceNotADirectory)
    ensures sourceExists && sourceIsDir ==> r == Success(ReportOf(outputDir, Run(files, maxSize)))
  {
    if !sourceExists {
      return Failure(SourceNotFound);
    }
    if !sourceIsDir {
      return Failure(SourceNotADirectory);
    }
    var script := new Script.Start(outputDir, maxSize);
    for i := 0 to |files|
      invariant script.Valid() && script.st == Run(files[..i], maxSize)
      invariant script.outputDir == outputDir && script.maxSize == maxSize
    {
      RunSnoc(files, i, maxSize);
      script.Visit(files[i]);
    }
    assert files[..|files|] == files;
    return Success(Report(script.partNum, script.folders, script.copies));
  }

  // ---------------------------------------------------------------------------
  // Properties of the loop

  /** The successfully copied files, as (path, size) records, in walk order. */
  function Copied(files: seq<WalkedFile>): seq<FileEntry> {
    if files == [] then []
    else
      var f := files[|files| - 1];
      Copied(files[..|files| - 1]) + (if f.size.Some? && f.copySucceeds then [FileEntry(f.path, f.size.value)] else [])
  }

  /** One step adds to the concatenated parts exactly the file it copied, if any. */
  lemma FlattenStep(st: State, f: WalkedFile, maxSize: int)
    requires WellFormed(st)
    ensures Flatten(Step(st, f, maxSize).parts) ==
            Flatten(st.parts) + (if f.size.Some? && f.copySucceeds then [FileEntry(f.path, f.size.value)] else [])
  {
    if f.size.Some? {
      var sz := f.size.value;
      var ready := OpenFor(st, sz, maxSize);
      assert Flatten(ready.parts) == Flatten(st.parts) by {
        if st.currentSize + sz > maxSize {
          FlattenAppend(st.parts, []);
        }
      }
      if f.copySucceeds {
        FlattenExtendLast(ready.parts, [FileEntry(f.path, sz)]);
      }
    }
  }

  /** The part folders together received exactly the successfully copied files, in walk order. */
  lemma {:induction false} RunCopiedInOrder(files: seq<WalkedFile>, maxSize: int)
    ensures Flatten(Run(files, maxSize).parts) == Copied(files)
  {
    if files != [] {
      var init := files[..|files| - 1];
      RunCopiedInOrder(init, maxSize);
      FlattenStep(Run(init, maxSize), files[|files| - 1], maxSize);
    }
  }

  /**
   * Only a part holding a single file can exceed the limit: once a part has
   * received a file, any file that would take it past the limit opens the
   * next part.
   */
  lemma {:induction false} RunPartsWithinLimit(files: seq<WalkedFile>, maxSize: int)
    ensures forall k :: 0 <= k < |Run(files, maxSize).parts| && |Run(files, maxSize).parts[k]| >= 2 ==>
              Total(Run(files, maxSize).parts[k]) <= maxSize
  {
    if files != [] {
      var init := files[..|files| - 1];
      var f := files[|files| - 1];
      var st := Run(init, maxSize);
      var r := Run(files, maxSize);
      RunPartsWithinLimit(init, maxSize);
      var n := |r.parts| - 1;
      forall k | 0 <= k < |r.parts| && |r.parts[k]| >= 2
        ensures Total(r.parts[k]) <= maxSize
      {
        if k < n {
          assert r.parts[k] == r.parts[..n][k];
          if k < |st.parts| - 1 {
            assert st.parts[k] == st.parts[..|st.parts| - 1][k];
          }
        } else if f.size.Some? && f.copySucceeds {
          var sz := f.size.value;
          if st.currentSize + sz <= maxSize {
            assert r.parts[n] == st.parts[n] + [FileEntry(f.path, sz)];
            TotalAppend(st.parts[n], FileEntry(f.path, sz));
          }
        }
      }
    }
  }

  /**
   * With no non-empty guard, a first file larger than the limit opens
   * `part_2` at once: `part_1` stays empty (when its copy succeeds, the file
   * lands in `part_2`).
   */
  lemma {:induction false} OversizedFirstFile(f: WalkedFile, maxSize: int)
    requires f.size.Some? && f.size.value > maxSize
    ensures Run([f], maxSize).partNum == 2
    ensures Run([f], maxSize).parts[0] == []
    ensures f.copySucceeds ==> Run([f], maxSize).parts[1] == [FileEntry(f.path, f.size.value)]
  {
    assert [f][..0] == [];
  }

  /** A file that fits exactly (`current_size + file_size == MAX_SIZE_BYTES`) stays in the current part. */
  lemma ExactFitStays(st: State, f: WalkedFile, maxSize: int)
    requires WellFormed(st) && f.size.Some? && st.currentSize + f.size.value == maxSize
    ensures Step(st, f, maxSize).partNum == st.partNum
    ensures f.copySucceeds ==> Step(st, f, maxSize).currentSize == maxSize
  {
  }
}
