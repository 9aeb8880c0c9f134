/**
 * main.py: the greedy, order-preserving packer (`split_files_by_size`) and
 * the layout `main` gives its chunks: chunk n (counted from 1) is copied to
 * the folder `python{n}` under the output directory and archived as
 * `python_part_{n}.zip` beside it, each file under the entry name
 * `python{n}/{relative path}`.
 */
module Packer {
  import opened Files
  import opened Decimal
  import opened Paths

  // ---------------------------------------------------------------------------
  // The packing rule

  /**
   * What `split_files_by_size` promises of its chunks: none is empty, a chunk
   * of two or more files stays within `maxSize` (so only a lone file may
   * exceed it), and each chunk was closed only because its next file did not
   * fit. Together with "the chunks concatenate to the input" this determines
   * the chunks completely (GreedyPartitionUnique).
   */
  predicate GreedyPartition(chunks: seq<seq<FileEntry>>, maxSize: int) {
    && (forall k :: 0 <= k < |chunks| ==> chunks[k] != [])
    && (forall k :: 0 <= k < |chunks| && |chunks[k]| >= 2 ==> Total(chunks[k]) <= maxSize)
    && (forall k :: 0 <= k < |chunks| - 1 ==> Total(chunks[k]) + chunks[k + 1][0].size > maxSize)
  }

  lemma GreedyPartitionExtend(chunks: seq<seq<FileEntry>>, c: seq<FileEntry>, maxSize: int)
    requires GreedyPartition(chunks, maxSize)
    requires c != [] && (|c| >= 2 ==> Total(c) <= maxSize)
    requires chunks != [] ==> Total(chunks[|chunks| - 1]) + c[0].size > maxSize
    ensures GreedyPartition(chunks + [c], maxSize)
  {
    var r := chunks + [c];
    forall k | 0 <= k < |r| - 1
      ensures Total(r[k]) + r[k + 1][0].size > maxSize
    {
      if k < |chunks| - 1 {
        assert r[k] == chunks[k] && r[k + 1] == chunks[k + 1];
      } else {
        assert r[k] == chunks[|chunks| - 1] && r[k + 1] == c;
      }
    }
  }

  lemma GreedyPartitionTail(chunks: seq<seq<FileEntry>>, maxSize: int)
    requires chunks != [] && GreedyPartition(chunks, maxSize)
    ensures GreedyPartition(chunks[1..], maxSize)
  {
    var t := chunks[1..];
    forall k | 0 <= k < |t| - 1
      ensures Total(t[k]) + t[k + 1][0].size > maxSize
    {
      assert t[k] == chunks[k + 1] && t[k + 1] == chunks[k + 2];
    }
  }

  /**
   * The state `split_files_by_size` keeps between files: the closed chunks
   * already form a greedy partition, the open chunk obeys the same bound, and
   * the last closed chunk was closed because the open chunk's first file did
   * not fit.
   */
  predicate OpenChunkOk(chunks: seq<seq<FileEntry>>, current: seq<FileEntry>, maxSize: int) {
    && GreedyPartition(chunks, maxSize)
    && (|current| >= 2 ==> Total(current) <= maxSize)
    && (chunks != [] ==> current != [] && Total(chunks[|chunks| - 1]) + current[0].size > maxSize)
  }

  /** What holds after `split_files_by_size` has consumed `files[..i]`. */
  predicate PackedPrefix(files: seq<FileEntry>, i: nat, chunks: seq<seq<FileEntry>>, current: seq<FileEntry>, currentSum: int, maxSize: int)
    requires i <= |files|
  {
    && Flatten(chunks) + current == files[..i]
    && currentSum == Total(current)
    && OpenChunkOk(chunks, current, maxSize)
  }

  /** The next file fits (or the chunk is empty): it joins the open chunk. */
  lemma AppendToOpenChunk(files: seq<FileEntry>, i: nat, chunks: seq<seq<FileEntry>>, current: seq<FileEntry>, currentSum: int, maxSize: int)
    requires i < |files| && PackedPrefix(files, i, chunks, current, currentSum, maxSize)
    requires current == [] || currentSum + files[i].size <= maxSize
    ensures PackedPrefix(files, i + 1, chunks, current + [files[i]], currentSum + files[i].size, maxSize)
  {
    var f := files[i];
    TotalAppend(current, f);
    PrefixSnoc(files, i);
    if chunks != [] {
      assert (current + [f])[0] == current[0];
    }
  }

  /** The next file does not fit a non-empty chunk: the chunk is closed and the file opens the next one. */
  lemma CloseOpenChunk(files: seq<FileEntry>, i: nat, chunks: seq<seq<FileEntry>>, current: seq<FileEntry>, currentSum: int, maxSize: int)
    requires i < |files| && PackedPrefix(files, i, chunks, current, currentSum, maxSize)
    requires current != [] && currentSum + files[i].size > maxSize
    ensures PackedPrefix(files, i + 1, chunks + [current], [files[i]], files[i].size, maxSize)
  {
    var f := files[i];
    GreedyPartitionExtend(chunks, current, maxSize);
    FlattenAppend(chunks, current);
    TotalAppend([], f);
    PrefixSnoc(files, i);
  }

  /**
   * `split_files_by_size(files, max_size)`: one pass over the files, closing
   * the current chunk only when it is non-empty and the next file would take
   * its running sum past `max_size`.
   */
  method SplitFilesBySize(files: seq<FileEntry>, maxSize: int) returns (chunks: seq<seq<FileEntry>>)
    ensures Flatten(chunks) == files
    ensures GreedyPartition(chunks, maxSize)
    ensures chunks == [] <==> files == []
  {
    chunks := [];
    var currentChunk: seq<FileEntry> := [];
    var currentSum := 0;
    for i := 0 to |files|
      invariant PackedPrefix(files, i, chunks, currentChunk, currentSum, maxSize)
    {
      var f := files[i];
      if currentChunk != [] && currentSum + f.size > maxSize {
        CloseOpenChunk(files, i, chunks, currentChunk, currentSum, maxSize);
        chunks := chunks + [currentChunk];
        currentChunk := [f];
        currentSum := f.size;
      } else {
        AppendToOpenChunk(files, i, chunks, currentChunk, currentSum, maxSize);
        currentChunk := currentChunk + [f];
        currentSum := currentSum + f.size;
      }
    }
    assert files[..|files|] == files;
    if currentChunk != [] {
      FlattenAppend(chunks, currentChunk);
      GreedyPartitionExtend(chunks, currentChunk, maxSize);
      chunks := chunks + [currentChunk];
    }
  }

  /** Of two greedy partitions of the same files, the first chunk of one is never shorter than the other's. */
  lemma FirstChunkNotShorter(a: seq<seq<FileEntry>>, b: seq<seq<FileEntry>>, maxSize: int)
    requires a != [] && b != []
    requires Flatten(a) == Flatten(b)
    requires GreedyPartition(a, maxSize) && GreedyPartition(b, maxSize)
    ensures |a[0]| >= |b[0]|
  {
    var m := |a[0]|;
    if m < |b[0]| {
      var files := Flatten(a);
      assert files == a[0] + Flatten(a[1..]);
      assert files == b[0] + Flatten(b[1..]);
      assert b[0][..m] == a[0] by {
        assert files[..m] == a[0];
        assert files[..m] == b[0][..m];
      }
      assert a[1..] != [];
      assert Flatten(a[1..]) == a[1] + Flatten(a[2..]) by {
        assert a[1..][0] == a[1] && a[1..][1..] == a[2..];
      }
      assert b[0][m] == a[1][0] by {
        assert files[m] == b[0][m];
        assert files[m] == Flatten(a[1..])[0];
      }
      assert |b[0]| >= 2;
      TotalPrefix(b[0], m + 1);
      assert b[0][..m + 1] == a[0] + [a[1][0]];
      TotalAppend(a[0], a[1][0]);
      assert false;
    }
  }

  /**
   * Packing is deterministic: the concatenation and GreedyPartition leave room
   * for exactly one grouping of a given file sequence.
   */
  lemma {:induction false} GreedyPartitionUnique(a: seq<seq<FileEntry>>, b: seq<seq<FileEntry>>, maxSize: int)
    requires Flatten(a) == Flatten(b)
    requires GreedyPartition(a, maxSize) && GreedyPartition(b, maxSize)
    ensures a == b
    decreases |a|
  {
    if a != [] && b != [] {
      FirstChunkNotShorter(a, b, maxSize);
      FirstChunkNotShorter(b, a, maxSize);
      var files := Flatten(a);
      assert files == a[0] + Flatten(a[1..]) && files == b[0] + Flatten(b[1..]);
      assert a[0] == files[..|a[0]|] && b[0] == files[..|b[0]|];
      assert Flatten(a[1..]) == files[|a[0]|..] == Flatten(b[1..]);
      GreedyPartitionTail(a, maxSize);
      GreedyPartitionTail(b, maxSize);
      GreedyPartitionUnique(a[1..], b[1..], maxSize);
      assert a == [a[0]] + a[1..] && b == [b[0]] + b[1..];
    }
  }

  /**
   * The other half of the boundary rule: inside a chunk the packer never had
   * a reason to cut, since every file after the first fit (possibly exactly)
   * on top of the running sum before it. With the maximality clause of
   * GreedyPartition, a cut falls exactly where the open chunk is non-empty
   * and the next file would take its sum past `maxSize`.
   */
  lemma NoCutInsideChunk(chunks: seq<seq<FileEntry>>, maxSize: int, k: nat, j: nat)
    requires GreedyPartition(chunks, maxSize)
    requires k < |chunks| && 0 < j < |chunks[k]|
    ensures Total(chunks[k][..j]) + chunks[k][j].size <= maxSize
  {
    var c := chunks[k];
    TotalPrefix(c, j + 1);
    PrefixSnoc(c, j);
    TotalAppend(c[..j], c[j]);
  }

  /** A chunk over the limit is a single file, too large to share a chunk with anything. */
  lemma {:induction false} OversizedChunkIsSingle(chunks: seq<seq<FileEntry>>, maxSize: int, k: nat)
    requires GreedyPartition(chunks, maxSize)
    requires k < |chunks| && Total(chunks[k]) > maxSize
    ensures |chunks[k]| == 1 && chunks[k][0].size > maxSize
  {
    assert chunks[k] == [] + [chunks[k][0]];
    TotalAppend([], chunks[k][0]);
  }

  /** Files of 10, 20 and 25 bytes at a limit of 30 pack as [10, 20] (exactly 30, kept together) and [25]. */
  lemma ScenarioTenTwentyTwentyFive(f1: FileEntry, f2: FileEntry, f3: FileEntry, chunks: seq<seq<FileEntry>>)
    requires f1.size == 10 && f2.size == 20 && f3.size == 25
    requires Flatten(chunks) == [f1, f2, f3] && GreedyPartition(chunks, 30)
    ensures chunks == [[f1, f2], [f3]]
  {
    var expected := [[f1, f2], [f3]];
    TotalAppend([], f1);
    assert [] + [f1] == [f1];
    TotalAppend([f1], f2);
    assert [f1] + [f2] == [f1, f2];
    FlattenAppend([], [f1, f2]);
    assert [] + [[f1, f2]] == [[f1, f2]];
    FlattenAppend([[f1, f2]], [f3]);
    assert [[f1, f2]] + [[f3]] == expected;
    assert [f1, f2] + [f3] == [f1, f2, f3];
    GreedyPartitionUnique(chunks, expected, 30);
  }

  // ---------------------------------------------------------------------------
  // Output names

  /** The folder of chunk n: `f"python{idx}"`. */
  function FolderName(n: nat): string {
    "python" + NatToString(n)
  }

  /** The archive of chunk n: `f"python_part_{idx}.zip"`. */
  function ZipName(n: nat): string {
    "python_part_" + NatToString(n) + ".zip"
  }

  lemma FolderNameIsName(n: nat)
    ensures IsName(FolderName(n))
  {
    var s := NatToString(n);
    forall i | 0 <= i < |FolderName(n)|
      ensures FolderName(n)[i] != '/'
    {
      if i >= 6 { assert FolderName(n)[i] == s[i - 6]; }
    }
  }

  /** Different chunks get different folders and different archives. */
  lemma OutputNamesDistinct(i: nat, j: nat)
    requires i != j
    ensures FolderName(i) != FolderName(j)
    ensures ZipName(i) != ZipName(j)
  {
    var si, sj := NatToString(i), NatToString(j);
    NatToStringInjective(i, j);
    assert FolderName(i)[6..] == si && FolderName(j)[6..] == sj;
    assert ZipName(i)[12..|ZipName(i)| - 4] == si && ZipName(j)[12..|ZipName(j)| - 4] == sj;
  }

  // ---------------------------------------------------------------------------
  // Copying and archiving one chunk

  /** `zipf.write(full_path, arcname)`: a file on disk stored under an entry name. */
  datatype ZipEntry = ZipEntry(fullPath: string, arcName: string)

  /** What `main` produces for one chunk: its folder, the copied files, its archive and the archive's entries. */
  datatype ChunkOutput = ChunkOutput(folder: string, copies: seq<string>, zipPath: string, entries: seq<ZipEntry>)

  /**
   * Where `copy_files_to_folder` puts a file: `out` is `os.path.join(folder,
   * rel)`, and for a clean relative `rel` its path relative to `folder` is
   * `rel` again, so the folder mirrors the source tree.
   */
  predicate PlacedBelow(folder: string, rel: string, out: string) {
    && out == Join(folder, rel)
    && (IsCleanRelative(rel) ==> out != [] && RelPath(out, folder) == rel)
  }

  lemma PlaceBelow(folder: string, rel: string)
    ensures PlacedBelow(folder, rel, Join(folder, rel))
  {
    if IsCleanRelative(rel) {
      RelPathOfJoin(folder, rel);
    }
  }

  /**
   * `copy_files_to_folder(chunk, destination_folder)`: each file is copied to
   * `os.path.join(destination_folder, rel_path)`, so its path relative to the
   * folder is its path relative to the source directory.
   */
  method CopyFilesToFolder(chunk: seq<FileEntry>, destinationFolder: string) returns (outFiles: seq<string>)
    ensures |outFiles| == |chunk|
    ensures forall i :: 0 <= i < |chunk| ==> PlacedBelow(destinationFolder, chunk[i].path, outFiles[i])
  {
    outFiles := [];
    for i := 0 to |chunk|
      invariant |outFiles| == i
      invariant forall j :: 0 <= j < i ==> PlacedBelow(destinationFolder, chunk[j].path, outFiles[j])
    {
      var outFile := Join(destinationFolder, chunk[i].path);
      PlaceBelow(destinationFolder, chunk[i].path);
      outFiles := outFiles + [outFile];
    }
  }

  /** The entry name `relpath(folder/rel, dirname(folder))` is the folder's own name followed by `rel`. */
  lemma ArcNameBelowFolder(folderPath: string, rel: string)
    requires IsName(BaseName(folderPath))
    requires IsCleanRelative(rel)
    ensures Join(folderPath, rel) != []
    ensures RelPath(Join(folderPath, rel), DirName(folderPath)) == Join(BaseName(folderPath), rel)
  {
    var name := BaseName(folderPath);
    var full := Join(folderPath, rel);
    var r := Components(rel);
    assert SingleSeparated(rel);
    assert |full| >= |rel| > 0;
    ComponentsOfNamedPath(folderPath);
    ComponentsOfJoin(folderPath, rel);
    JoinAllComponents(rel);
    var named := [name] + r;
    assert Components(full) == Components(DirName(folderPath)) + named;
    RelPathBelow(full, DirName(folderPath), named);
    assert named[0] == name && named[1..] == r && |named| >= 2;
    assert JoinAll(named) == name + "/" + JoinAll(r);
    assert name[|name| - 1] != '/' by {
      assert name[|name| - 1] in name;
    }
    assert Join(name, rel) == name + "/" + rel;
  }

  /**
   * How `create_zip_from_folder` stores a file found at `rel` inside
   * `folderPath`: read from `os.path.join(folder_path, rel)` and, when the
   * folder has a name of its own and `rel` is clean, entered under that name
   * followed by `rel`.
   */
  predicate ArchivedAs(folderPath: string, rel: string, e: ZipEntry) {
    && e.fullPath == Join(folderPath, rel)
    && (IsName(BaseName(folderPath)) && IsCleanRelative(rel) ==> e.arcName == Join(BaseName(folderPath), rel))
  }

  /**
   * `create_zip_from_folder(folder_path, zip_path)`: every file found under
   * the folder (given by its path inside the folder) is stored under its path
   * relative to the folder's parent, that is, the folder's name followed by
   * its path inside the folder.
   */
  method CreateZipFromFolder(folderPath: string, contents: seq<string>) returns (entries: seq<ZipEntry>)
    requires folderPath != []
    ensures |entries| == |contents|
    ensures forall i :: 0 <= i < |contents| ==> ArchivedAs(folderPath, contents[i], entries[i])
  {
    entries := [];
    for i := 0 to |contents|
      invariant |entries| == i
      invariant forall j :: 0 <= j < i ==> ArchivedAs(folderPath, contents[j], entries[j])
    {
      var fullPath := Join(folderPath, contents[i]);
      var arcName := RelPath(fullPath, DirName(folderPath));
      if IsName(BaseName(folderPath)) && IsCleanRelative(contents[i]) {
        ArcNameBelowFolder(folderPath, contents[i]);
      }
      assert ArchivedAs(folderPath, contents[i], ZipEntry(fullPath, arcName));
      entries := entries + [ZipEntry(fullPath, arcName)];
    }
  }

  /** The relative paths of a chunk's files, in order: what a walk of its fresh folder finds. */
  function RelPaths(chunk: seq<FileEntry>): (paths: seq<string>)
    ensures |paths| == |chunk|
    ensures forall i :: 0 <= i < |chunk| ==> paths[i] == chunk[i].path
  {
    if chunk == [] then [] else [chunk[0].path] + RelPaths(chunk[1..])
  }

  /** The layout of chunk n under `outputDir`. */
  predicate LaidOut(outputDir: string, n: nat, chunk: seq<FileEntry>, out: ChunkOutput) {
    && out.folder == Join(outputDir, FolderName(n))
    && out.zipPath == Join(outputDir, ZipName(n))
    && |out.copies| == |chunk| && |out.entries| == |chunk|
    && forall i :: 0 <= i < |chunk| ==>
         && PlacedBelow(out.folder, chunk[i].path, out.copies[i])
         && out.entries[i].fullPath == out.copies[i]
         && (IsCleanRelative(chunk[i].path) ==> out.entries[i].arcName == Join(FolderName(n), chunk[i].path))
  }

  /**
   * One turn of `main`'s loop for chunk n: the folder `python{n}` under the
   * output directory, the chunk copied into it, and `python_part_{n}.zip`
   * beside it built from the folder's contents.
   */
  method LayOutChunk(outputDir: string, n: nat, chunk: seq<FileEntry>) returns (out: ChunkOutput)
    ensures LaidOut(outputDir, n, chunk, out)
  {
    var subfolderName := FolderName(n);
    var subfolderPath := Join(outputDir, subfolderName);
    FolderNameIsName(n);
    BaseNameOfJoin(outputDir, subfolderName);
    var copies := CopyFilesToFolder(chunk, subfolderPath);
    var zipPath := Join(outputDir, ZipName(n));
    var entries := CreateZipFromFolder(subfolderPath, RelPaths(chunk));
    out := ChunkOutput(subfolderPath, copies, zipPath, entries);
  }

  /**
   * `main()` with the walk's records, `MAX_SIZE` and `OUTPUT_DIR` as
   * parameters: nothing is created for an empty walk; otherwise the files are
   * packed and chunk n (from 1) is copied to `python{n}` and archived as
   * `python_part_{n}.zip`. A fresh folder holds exactly the chunk's files, so
   * the archive is built from them.
   */
  method PackDirectory(files: seq<FileEntry>, maxSize: int, outputDir: string)
    returns (chunks: seq<seq<FileEntry>>, outputs: seq<ChunkOutput>)
    ensures files == [] ==> chunks == [] && outputs == []
    ensures Flatten(chunks) == files && GreedyPartition(chunks, maxSize)
    ensures |outputs| == |chunks|
    ensures forall k :: 0 <= k < |chunks| ==> LaidOut(outputDir, k + 1, chunks[k], outputs[k])
  {
    if |files| == 0 {
      return [], [];
    }
    chunks := SplitFilesBySize(files, maxSize);
    outputs := [];
    for idx := 1 to |chunks| + 1
      invariant |outputs| == idx - 1
      invariant forall k :: 0 <= k < idx - 1 ==> LaidOut(outputDir, k + 1, chunks[k], outputs[k])
    {
      var out := LayOutChunk(outputDir, idx, chunks[idx - 1]);
      outputs := outputs + [out];
    }
  }
}
