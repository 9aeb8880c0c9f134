# Lambda layer splitter, modelled in Dafny

The repository divides a directory of files into size-bounded parts so that a
large AWS Lambda layer can be uploaded in pieces. It does this in three
scripts, and each one is modelled here in its own module:

- `main.py` (module `Packer`): `split_files_by_size` packs the walked files,
  in walk order, into chunks. It closes the current chunk only when the chunk
  is non-empty and the next file would take its running sum past `MAX_SIZE`.
  Chunk n (counted from 1) is copied into the folder `python{n}` and archived
  as `python_part_{n}.zip`, with each file entered as `python{n}/{relative path}`.
  The packer is a method with a loop. It is proved against the predicate
  `GreedyPartition`: no chunk is empty, a chunk of two or more files stays
  within the limit, and each chunk was closed because the next file did not
  fit. Together with "the chunks concatenate to the input", that predicate
  has exactly one solution (`GreedyPartitionUnique`).
- `splitter.py` (module `Splitter`): `LambdaLayerSplitter` checks its
  settings. It copies a file of at most `max_part_size` bytes whole. A larger
  file is streamed into numbered archives `{name}.part{n}.zip`, each with one
  entry named by the file's path relative to the target directory. The open
  source file is a class with a read cursor. `_write_chunk` is a loop over
  that cursor, and `_split_and_zip_file` is a loop over the part number. Both
  are proved against the function `SplitParts`, and the round trip and the
  part-count arithmetic are proved about that function.
- `split.py` (module `PartScript`): the module-level loop keeps the counters
  `part_num` and `current_size`. It opens folder `part_{n+1}` whenever
  `current_size + file_size > MAX_SIZE_BYTES`, without checking whether the
  current part holds anything. The script's variables are a class, and the
  loop is proved to follow the fold `Run` of the per-file `Step`.
- Module `Comparison` sets `split.py` beside `main.py`. When every size lookup
  and every copy succeeds, the two cut the file stream at the same places.
  The only difference is `split.py`'s `part_1`, which stays empty when there
  are no files or when the first file alone exceeds the limit.

Supporting modules: `Files` (the (path, size) records, `Total`, `Flatten`),
`Paths` (POSIX `os.path.join`, `dirname`, `basename` and `relpath`, and
pathlib's `/`, `.name`, `.with_name` and `.relative_to`, over '/'-separated
components), `Decimal` (Python's `str(n)` for the part numbers, with its
parse round trip) and `Wrappers` (`Option`, `Result`).

The capacity and the buffer size are parameters. The directory walk is a
given ordered sequence of records. Whether the source exists and is a
directory, and whether a size lookup, a read or a copy succeeds, are
parameters too.

Where the code does something other than what its comments or a reader
would expect, the model follows the code:
- A split file whose size is an exact multiple of `max_part_size` ends with
  an empty part. The break test is `bytes_written < self.max_part_size`
  (splitter.py:92), so a full last part is followed by one more, empty part.
  A last part of between 1 and `max_part_size` bytes is not what the code
  produces.
- The docstring of `main.py` (main.py:5-6) says each chunk totals at most
  the limit. The code puts a single file over the limit into a chunk of its
  own, and `OversizedChunkIsSingle` states exactly that.
- `main.py` never checks that `MAX_SIZE` is positive, so `SplitFilesBySize`
  takes any integer limit. Only `LambdaLayerSplitter` rejects a
  non-positive part size.

## Model

| member | source | states |
|---|---|---|
| `Packer.SplitFilesBySize` | main.py:42-66 | the chunks concatenate to the input in order; no chunk is empty; a chunk of two or more files totals at most `max_size`; each chunk plus the next chunk's first file exceeds `max_size`; no files gives no chunks |
| `Packer.GreedyPartitionUnique` | main.py:42-66 | packing is deterministic: two greedy partitions of the same file sequence are equal |
| `Packer.NoCutInsideChunk` | main.py:54-60 | inside a chunk every file after the first fits (`<=`, so an exact fit stays) on the running sum before it; with the maximality clause, a cut happens exactly when the chunk is non-empty and the sum would exceed the limit |
| `Packer.OversizedChunkIsSingle` | main.py:52-60 | a chunk whose total exceeds `max_size` is one file that alone exceeds it |
| `Packer.ScenarioTenTwentyTwentyFive` | main.py:42-66 | files of 10, 20 and 25 bytes at limit 30 pack as [10, 20] and [25] |
| `Packer.OutputNamesDistinct` | main.py:110-122 | different chunk numbers give different folders `python{n}` and archives `python_part_{n}.zip` |
| `Packer.CopyFilesToFolder` | main.py:68-75 | each file goes to `os.path.join(folder, rel_path)`, and for a clean relative path (no empty, `.` or `..` component) its path relative to the folder is `rel_path` again |
| `Packer.ArcNameBelowFolder` | main.py:84-87 | for a folder whose last component is a plain name and a clean relative `rel` (non-empty, no empty, `.` or `..` component, as the walk yields), `relpath(folder/rel, dirname(folder))` is the folder's own name, then `/`, then `rel` |
| `Packer.CreateZipFromFolder` | main.py:77-87 | each file in the folder is read from `folder/rel` and entered as `{folder name}/{rel}` |
| `Packer.LayOutChunk` | main.py:110-122 | chunk n goes to folder `{out}/python{n}` and archive `{out}/python_part_{n}.zip`, each file copied below the folder and entered as `python{n}/{rel}` |
| `Packer.PackDirectory` | main.py:92-127 | no files gives no chunks and no outputs; otherwise the chunks are the greedy partition and chunk k+1 is laid out under the number k+1 |
| `Paths.RelPathOfJoin` | main.py:73-86 | `os.path.relpath(os.path.join(start, rel), start) == rel` for a clean relative `rel` (non-empty, no empty, `.` or `..` component, as the walk yields) |
| `Paths.RelativeToOfJoin` | splitter.py:50-51 | `(base / rel).relative_to(base) == rel` for a clean relative `rel` (non-empty, no empty, `.` or `..` component, as the walk yields), so the target's path relative to the target directory equals the file's path relative to the source directory |
| `Splitter.ValidateInputs` | splitter.py:33-39 | a missing source, then a non-directory source, then a part size `<= 0` are rejected in that order; anything else passes |
| `Splitter.ValidateInputsChecked` | splitter.py:33-39 | the same checks in the same order, and a non-positive buffer size is rejected after them |
| `Splitter.NewSplitter` | splitter.py:17-31 | construction succeeds exactly when validation passes, and then keeps the given settings, with a positive part and buffer size |
| `Splitter.SourceFile.Open` | splitter.py:72 | opening the source puts the cursor at the first byte |
| `Splitter.SourceFile.Read` | splitter.py:103 | `read(n)` returns the next `min(n, remaining)` bytes and advances the cursor past them; `read(-1)` reads to the end; any `n < -1` raises and leaves the cursor where it was |
| `Splitter.WriteChunk` | splitter.py:96-108 | the bytes written are exactly the next bytes of the source, the cursor advances by the returned count, and the count is `ChunkLength` of what remained; a read raises exactly when the part size is positive and the buffer size is below -1, and then nothing is written |
| `Splitter.ChunkLengthBounds` | splitter.py:96-108 | with positive settings the count is in `[0, max_part_size]`, falls short only at end of file, and is `max_part_size` when enough bytes remain |
| `Splitter.SplitParts` | splitter.py:92-94 | there is at least one part, and the last part is shorter than `max_part_size` |
| `Splitter.SplitPartsStopRule` | splitter.py:92-94 | every part but the last holds at least `max_part_size` bytes: splitting stops at the first short part |
| `Splitter.PartZipPathBeside` | splitter.py:74 | part n of `target` is `{target}.part{n}.zip`, beside the target |
| `Splitter.PartZipPathsDistinct` | splitter.py:74 | different part numbers give different archive paths |
| `Splitter.SplitAndZipFile` | splitter.py:67-94 | the parts hold exactly `SplitParts` of the file; the split is cut short by a raising read exactly when the buffer size is below -1; part k+1 is archived at `{target}.part{k+1}.zip` with one entry named by the file's relative path |
| `Splitter.SplitPartsConcat` | splitter.py:72-94 | for a positive buffer size or -1 the parts concatenate back to the file |
| `Splitter.SplitPartsShape` | splitter.py:72-94 | a file of S bytes gives S div max + 1 parts, all but the last exactly `max_part_size`, the last S mod max |
| `Splitter.SplitPartsBufferIndependent` | splitter.py:96-108 | any two positive buffer sizes produce the same parts |
| `Splitter.ScenarioOneHundredTwenty` | splitter.py:72-94 | 120 bytes at part size 50 give parts of 50, 50 and 20 bytes |
| `Splitter.ExactMultipleTrailingEmptyPart` | splitter.py:92-94 | a non-empty file whose size is a multiple of the part size ends with an empty part |
| `Splitter.ZeroBufferLosesBytes` | splitter.py:99-105 | as written, a zero buffer gives a single empty part, and a non-empty file's bytes are lost |
| `Splitter.MinusOneBufferOversizedPart` | splitter.py:99-103 | as written, a buffer of -1 puts a whole oversized file into its first part |
| `Splitter.LargeNegativeBufferAbortsSplit` | splitter.py:53-60 | as written, a buffer below -1 makes every oversized file fail, leaving only part 1 with an empty entry, so none of its bytes are written |
| `Splitter.CheckedSettingsRoundTrip` | splitter.py:33-39 | settings accepted by the checked validation split every file into parts of at most `max_part_size` bytes that reassemble it |
| `Splitter.ProcessFile` | splitter.py:49-60 | an unreadable file leaves nothing; a file of at most `max_part_size` bytes is copied whole to `target_dir/rel`; only a strictly larger one is split, and that split is reported aborted, with the parts already written, exactly when the read raises |
| `Splitter.ProcessDirectory` | splitter.py:41-47 | every walked file is handled in order, and a failure on one file does not stop the walk |
| `Splitter.HandledRoundTrip` | splitter.py:49-60 | what was written for a readable file reassembles it; it was split iff it exceeds `max_part_size`, and then into two or more parts of at most `max_part_size` bytes |
| `PartScript.OpenFor` | split.py:44-48 | when `current_size + file_size > MAX_SIZE_BYTES` a new empty part opens, with `part_num + 1` and `current_size` 0, and the earlier parts are kept; otherwise the state is unchanged |
| `PartScript.Step` | split.py:35-56 | a file whose size lookup fails changes nothing; otherwise `part_num` grows by one iff `current_size + file_size > MAX_SIZE_BYTES`, and an exact fit stays |
| `PartScript.Run` | split.py:30-56 | after any walk `part_num >= 1`, `part_num` is the number of parts, and `current_size` is the copied total of the current part |
| `PartScript.PartFoldersNumbered` | split.py:23-46 | the k-th folder created is `part_{k+1}`: numbering starts at 1 with no gaps |
| `PartScript.Script.Start` | split.py:23-26 | `part_num = 1`, `current_size = 0`, and folder `part_1` is created |
| `PartScript.Script.MakeRoom` | split.py:44-49 | a file that does not fit bumps `part_num`, creates `part_{n}` and resets `current_size` to 0 |
| `PartScript.Script.RecordCopy` | split.py:51-53 | a successful copy lands in the current folder under the file's base name, and its size is added to `current_size` |
| `PartScript.Script.Visit` | split.py:35-56 | the loop body for one walked file follows `Step` |
| `PartScript.RunScript` | split.py:9-58 | a missing source raises, and then a source that is not a directory makes the diagnostic `os.scandir` raise, both before anything is created; otherwise the reported count is the final `part_num`, and the folders and copies are those of `Run` |
| `PartScript.RunCopiedInOrder` | split.py:30-56 | the parts together received exactly the successfully copied files, in walk order |
| `PartScript.RunPartsWithinLimit` | split.py:44-53 | a part holding two or more files totals at most `MAX_SIZE_BYTES`, so only a single file can exceed it |
| `PartScript.OversizedFirstFile` | split.py:23-48 | a first file over the limit leaves `part_1` empty and goes to `part_2` |
| `PartScript.ExactFitStays` | split.py:44 | a file that fits exactly keeps `part_num`, and `current_size` reaches the limit |
| `Comparison.RunShaped` | split.py:44-53 | when nothing fails, every part after `part_1` is non-empty, each part was left because the next file did not fit, and `part_1` is empty iff the first file exceeds the limit |
| `Comparison.PackedIsGreedy` | split.py:44-56 | without an empty `part_1`, the parts are a greedy partition of the copied files in the sense of main.py |
| `Comparison.ScriptAgreesWithPacker` | split.py:23-58 | when nothing fails, split.py's parts are main.py's chunks, preceded by an empty `part_1` exactly when there are no files or the first file exceeds the limit; the part counts differ by that one part |

## Left out

- Directory enumeration (`os.walk`, `Path.rglob`, `os.scandir`) is not modelled. The walk is a given ordered sequence of records, whose order the operating system decides. The listing by `list_all_files` in split.py is not modelled; the one effect it has, raising when the source is not a directory, is modelled in `PartScript.RunScript`.
- Filesystem effects are not modelled: `shutil.copy2`, `mkdir` and `os.makedirs`, timestamp preservation, `Path.resolve()`, and overwriting files from an earlier run. The model computes destination paths and contents only.
- Zip encoding, compression, `ZipInfo.date_time` and the `time.localtime` conversion are not modelled. An archive is a path plus (entry name, bytes) records.
- Logging, `print` and the floating-point megabyte figure in the part log line are not modelled.
- The hard-coded constants and the `__main__` blocks are not modelled. The limits, directories and existence checks are parameters.
- Packer.CreateZipFromFolder: takes the folder's contents as the chunk's relative paths, in chunk order. A freshly created folder holds exactly the chunk's files, but `os.walk` order and leftover files from earlier runs are not modelled.
- Packer.CreateZipFromFolder: states the entry name only for a folder path whose last component is a plain name and a clean relative path. Paths with `.` or `..` components, which Python's `relpath` and pathlib normalise, are outside the path lemmas' domain (`Paths.IsCleanRelative`, `Paths.IsName`).
- Paths.RelPathOfJoin: stated only for relative paths without `.` or `..` components. `os.path.relpath` normalises such components (`a/..` gives `.`), and that normalisation is not modelled; the walk never yields such paths.
- Paths.RelativeToOfJoin: stated only for relative paths without `.` or `..` components. pathlib drops `.` components (`a/./b` gives `a/b`), which is not modelled; the walk never yields such paths.
- Packer.CopyFilesToFolder: the relative-path round trip is stated only for relative paths without empty, `.` or `..` components, for the reason given for `Paths.RelPathOfJoin`.
- Packer.ArcNameBelowFolder: stated only for a folder whose name is not `.` or `..` and a relative path without empty, `.` or `..` components, for the reason given for `Paths.RelPathOfJoin`.
- Splitter.ProcessFile: apart from the reader refusing the buffer size, a file is either unreadable or read in full. Other I/O errors in the middle of a split, which leave the parts already written in place, are not modelled. The exception is logged and the walk goes on, which is modelled.
- Splitter.ProcessFile: requires the path relative to the source directory to be clean (non-empty, no empty, `.` or `..` component), which `rglob` guarantees for regular files below the source.
- Splitter.NewSplitter: uses the corrected validation, which also rejects a non-positive buffer size (see Findings). The as-written checks are `Splitter.ValidateInputs`.
- The compression level setting is not modelled because it only selects the zip encoding.
- PartScript.RunScript: creating `OUTPUT_DIR` and a copy failure's cause are not modelled. A failed copy is a boolean on the walked record.

## Findings

| source | as written | input that shows it | evidently intended | confidence | as-written member | corrected member |
|---|---|---|---|---|---|---|
| splitter.py:33-39 | `buffer_size` is never validated; with `buffer_size == 0` every `read(0)` returns no bytes, which `_write_chunk` takes for end of file | `buffer_size = 0`, `max_part_size = 50`, a 120-byte file: one empty part is written and the file's bytes are lost | a non-positive buffer size is rejected at construction, like a non-positive part size | medium, not executed | `Splitter.ZeroBufferLosesBytes` | `Splitter.CheckedSettingsRoundTrip` |
| splitter.py:96-103 | with `buffer_size == -1`, `min(buffer_size, ...)` is -1 and `read(-1)` reads the whole rest of the file | `buffer_size = -1`, `max_part_size = 50`, a 120-byte file: the first part holds all 120 bytes | every part holds at most `max_part_size` bytes | medium, not executed | `Splitter.MinusOneBufferOversizedPart` | `Splitter.CheckedSettingsRoundTrip` |
| splitter.py:96-103 | with `buffer_size < -1` the first `read` raises `ValueError`, so every file larger than `max_part_size` fails after `part1.zip` was opened | `buffer_size = -2`, `max_part_size = 50`, a 120-byte file: only an empty `part1.zip` entry is written and the file is logged as failed | the buffer size is rejected at construction and every file is split in full | medium, not executed | `Splitter.LargeNegativeBufferAbortsSplit` | `Splitter.CheckedSettingsRoundTrip` |
