/**
 * splitter.py: `LambdaLayerSplitter`. Construction validates the settings;
 * each walked file is copied whole when it fits in one part and otherwise
 * streamed, `max_part_size` bytes at a time, into numbered archives
 * `{name}.part{n}.zip` beside its target path, each holding one entry named
 * by the file's path relative to the target directory.
 */
module Splitter {
  import opened Wrappers
  import opened Files
  import opened Decimal
  import opened Paths

  newtype byte = b: int | 0 <= b < 256

  function Min(a: int, b: int): int {
    if a <= b then a else b
  }

  // ---------------------------------------------------------------------------
  // Settings and their validation

  /** Why construction raises: `FileNotFoundError`, `NotADirectoryError`, `ValueError`. */
  datatype InitError = SourceNotFound | SourceNotADirectory | InvalidPartSize | InvalidBufferSize

  /**
   * The settings of a `LambdaLayerSplitter`; `__init__` assigns them once and
   * no method reassigns them. The compression level only selects the zip
   * encoding and is not modelled.
   */
  datatype Settings = Settings(sourceDir: string, targetDir: string, maxPartSize: int, bufferSize: int)

  /**
   * `_validate_inputs` as written: the source directory must exist, then be a
   * directory, then the part size must be positive. The buffer size is not
   * looked at.
   */
  function ValidateInputs(sourceExists: bool, sourceIsDir: bool, maxPartSize: int): (r: Option<InitError>)
    ensures r == None <==> sourceExists && sourceIsDir && maxPartSize > 0
    ensures !sourceExists ==> r == Some(SourceNotFound)
    ensures sourceExists && !sourceIsDir ==> r == Some(SourceNotADirectory)
    ensures sourceExists && sourceIsDir && maxPartSize <= 0 ==> r == Some(InvalidPartSize)
  {
    if !sourceExists then Some(SourceNotFound)
    else if !sourceIsDir then Some(SourceNotADirectory)
    else if maxPartSize <= 0 then Some(InvalidPartSize)
    else None
  }

  /** The same checks in the same order, followed by the missing one: the buffer size must be positive too. */
  function ValidateInputsChecked(sourceExists: bool, sourceIsDir: bool, maxPartSize: int, bufferSize: int): (r: Option<InitError>)
    ensures r == None <==> ValidateInputs(sourceExists, sourceIsDir, maxPartSize) == None && bufferSize > 0
    ensures ValidateInputs(sourceExists, sourceIsDir, maxPartSize) != None ==> r == ValidateInputs(sourceExists, sourceIsDir, maxPartSize)
  {
    var r := ValidateInputs(sourceExists, sourceIsDir, maxPartSize);
    if r.Some? then r
    else if bufferSize <= 0 then Some(InvalidBufferSize)
    else None
  }

  /**
   * `LambdaLayerSplitter(...)`: the settings, or the error `__init__` raises.
   * Whether the source exists and is a directory are parameters (the
   * filesystem is not modelled).
   */
  function NewSplitter(sourceExists: bool, sourceIsDir: bool, sourceDir: string, targetDir: string,
                       maxPartSize: int, bufferSize: int): (r: Result<Settings, InitError>)
    ensures r.Success? <==> ValidateInputsChecked(sourceExists, sourceIsDir, maxPartSize, bufferSize) == None
    ensures r.Success? ==> r.value == Settings(sourceDir, targetDir, maxPartSize, bufferSize)
    ensures r.Success? ==> r.value.maxPartSize > 0 && r.value.bufferSize > 0
  {
    match ValidateInputsChecked(sourceExists, sourceIsDir, maxPartSize, bufferSize)
    case Some(e) => Failure(e)
    case None => Success(Settings(sourceDir, targetDir, maxPartSize, bufferSize))
  }

  // ---------------------------------------------------------------------------
  // The source file and `_write_chunk`

  /** An open binary file: its bytes and the read cursor. */
  class SourceFile {
    const data: seq<byte>
    var pos: nat

    predicate Valid()
      reads this
    {
      pos <= |data|
    }

    /** `source.open('rb')`: the cursor starts at the beginning. */
    constructor Open(content: seq<byte>)
      ensures data == content && pos == 0
      ensures Valid()
    {
      data := content;
      pos := 0;
    }

    /**
     * `read(n)` on the buffered reader: the next `n` bytes or as many as
     * remain; `read(-1)` reads everything that remains, `read(0)` returns
     * nothing, and any `n < -1` raises `ValueError` (None) without moving
     * the cursor.
     */
    method Read(n: int) returns (chunk: Option<seq<byte>>)
      requires Valid()
      modifies this
      ensures Valid()
      ensures chunk.None? <==> n < -1
      ensures chunk.None? ==> pos == old(pos)
      ensures chunk.Some? ==> old(pos) <= pos && chunk.value == data[old(pos)..pos]
      ensures n == -1 ==> pos == |data|
      ensures n >= 0 ==> pos - old(pos) == Min(n, |data| - old(pos))
    {
      if n < -1 {
        return None;
      }
      var end := if n == -1 then |data| else Min(pos + n, |data|);
      chunk := Some(data[pos..end]);
      pos := end;
    }
  }

  /**
   * Whether `_write_chunk` raises: with a positive part size it always
   * reads, and its first request is the buffer size itself whenever that
   * is negative, which the reader refuses below -1.
   */
  predicate ReadRaises(maxPartSize: int, bufferSize: int) {
    maxPartSize > 0 && bufferSize < -1
  }

  /**
   * How many bytes `_write_chunk` moves when `remaining` bytes are left in
   * the source: nothing when the part size is not positive; the lesser of
   * the part size and what remains for a positive buffer; nothing for a zero
   * buffer (`read(0)` looks like end of file); everything that remains for a
   * buffer of -1 (`read(-1)` reads to the end); and nothing when the first
   * read raises.
   */
  function ChunkLength(remaining: nat, maxPartSize: int, bufferSize: int): (n: nat)
    ensures n <= remaining
    ensures ReadRaises(maxPartSize, bufferSize) ==> n == 0
  {
    if maxPartSize <= 0 then 0
    else if bufferSize > 0 then Min(maxPartSize, remaining)
    else if bufferSize == 0 then 0
    else if bufferSize == -1 then remaining
    else 0
  }

  /**
   * `_write_chunk(src_file, dest_file)`: reads in steps of
   * `min(buffer_size, max_part_size - bytes_written)` until the part is full
   * or a read comes back empty. Returns the bytes written to the entry and
   * their count, and whether a read raised (the first one does, exactly when
   * ReadRaises); the cursor has moved past exactly the bytes written.
   */
  method WriteChunk(src: SourceFile, maxPartSize: int, bufferSize: int)
    returns (written: seq<byte>, bytesWritten: int, raised: bool)
    requires src.Valid()
    modifies src
    ensures src.Valid()
    ensures raised <==> ReadRaises(maxPartSize, bufferSize)
    ensures bytesWritten == |written|
    ensures old(src.pos) <= src.pos && written == src.data[old(src.pos)..src.pos]
    ensures src.pos == old(src.pos) + bytesWritten
    ensures bytesWritten == ChunkLength(|src.data| - old(src.pos), maxPartSize, bufferSize)
  {
    ghost var start := src.pos;
    written := [];
    bytesWritten := 0;
    raised := false;
    while bytesWritten < maxPartSize
      invariant src.Valid() && start <= src.pos
      invariant written == src.data[start..src.pos] && bytesWritten == |written|
      invariant maxPartSize <= 0 ==> bytesWritten == 0
      invariant bufferSize > 0 ==> bytesWritten <= maxPartSize || bytesWritten == 0
      invariant bufferSize == 0 ==> bytesWritten == 0
      invariant bufferSize == -1 ==> bytesWritten == 0 || src.pos == |src.data|
      invariant bufferSize < -1 ==> bytesWritten == 0
      decreases |src.data| - src.pos
    {
      var bytesToRead := Min(bufferSize, maxPartSize - bytesWritten);
      var chunk := src.Read(bytesToRead);
      if chunk.None? {
        raised := true;
        return;
      }
      if chunk.value == [] {
        break;
      }
      written := written + chunk.value;
      bytesWritten := bytesWritten + |chunk.value|;
    }
  }

  /**
   * With a positive buffer `_write_chunk` returns a count in
   * `[0, max_part_size]`, and stops short of `max_part_size` only when the
   * source is exhausted.
   */
  lemma ChunkLengthBounds(remaining: nat, maxPartSize: int, bufferSize: int)
    requires maxPartSize > 0 && bufferSize > 0
    ensures 0 <= ChunkLength(remaining, maxPartSize, bufferSize) <= maxPartSize
    ensures ChunkLength(remaining, maxPartSize, bufferSize) < maxPartSize ==> ChunkLength(remaining, maxPartSize, bufferSize) == remaining
    ensures remaining >= maxPartSize ==> ChunkLength(remaining, maxPartSize, bufferSize) == maxPartSize
  {
  }

  // ---------------------------------------------------------------------------
  // `_split_and_zip_file`

  /**
   * The contents of the parts `_split_and_zip_file` writes for a file's
   * bytes: one `_write_chunk` per part, stopping after the first part shorter
   * than `max_part_size`.
   */
  function SplitParts(data: seq<byte>, maxPartSize: int, bufferSize: int): (parts: seq<seq<byte>>)
    requires maxPartSize > 0
    ensures |parts| >= 1
    ensures |parts[|parts| - 1]| < maxPartSize
    decreases |data|
  {
    var n := ChunkLength(|data|, maxPartSize, bufferSize);
    if n < maxPartSize then [data[..n]]
    else [data[..n]] + SplitParts(data[n..], maxPartSize, bufferSize)
  }

  /**
   * The stop rule of `_split_and_zip_file`, for any buffer size: another
   * part follows only a part of at least `max_part_size` bytes, so the last
   * part is the first one shorter than that.
   */
  lemma {:induction false} SplitPartsStopRule(data: seq<byte>, maxPartSize: int, bufferSize: int)
    requires maxPartSize > 0
    ensures forall k :: 0 <= k < |SplitParts(data, maxPartSize, bufferSize)| - 1 ==>
              |SplitParts(data, maxPartSize, bufferSize)[k]| >= maxPartSize
    decreases |data|
  {
    var parts := SplitParts(data, maxPartSize, bufferSize);
    var n := ChunkLength(|data|, maxPartSize, bufferSize);
    if n >= maxPartSize {
      var rest := SplitParts(data[n..], maxPartSize, bufferSize);
      SplitPartsStopRule(data[n..], maxPartSize, bufferSize);
      forall k | 0 <= k < |parts| - 1
        ensures |parts[k]| >= maxPartSize
      {
        if k > 0 { assert parts[k] == rest[k - 1]; }
      }
    }
  }

  /** One numbered archive: its path, the name of its single entry and the entry's bytes. */
  datatype ZipPart = ZipPart(zipPath: string, entryName: string, content: seq<byte>)

  /** The entries' bytes, part by part. */
  function Contents(parts: seq<ZipPart>): (cs: seq<seq<byte>>)
    ensures |cs| == |parts|
  {
    if parts == [] then [] else [parts[0].content] + Contents(parts[1..])
  }

  /** `target.with_name(f"{target.name}.part{part_num}.zip")`. */
  function PartZipPath(target: string, partNum: nat): string {
    WithName(target, BaseName(target) + ".part" + NatToString(partNum) + ".zip")
  }

  /** Part n of `target` sits beside it as `{target}.part{n}.zip`. */
  lemma PartZipPathBeside(target: string, n: nat)
    ensures PartZipPath(target, n) == target + ".part" + NatToString(n) + ".zip"
  {
    WithOwnNameSuffix(target, ".part" + NatToString(n) + ".zip");
  }

  /** Different parts of one target get different archives. */
  lemma PartZipPathsDistinct(target: string, i: nat, j: nat)
    requires i != j
    ensures PartZipPath(target, i) != PartZipPath(target, j)
  {
    PartZipPathBeside(target, i);
    PartZipPathBeside(target, j);
    NatToStringInjective(i, j);
    var si, sj := NatToString(i), NatToString(j);
    var pi, pj := target + ".part" + si + ".zip", target + ".part" + sj + ".zip";
    assert pi[|target| + 5..|pi| - 4] == si;
    assert pj[|target| + 5..|pj| - 4] == sj;
  }

  /** Part k (from 0) of `parts` is archived as part k + 1 of `target`, with one entry named `entryName`. */
  predicate NumberedParts(parts: seq<ZipPart>, target: string, entryName: string) {
    forall k :: 0 <= k < |parts| ==> parts[k].zipPath == PartZipPath(target, k + 1) && parts[k].entryName == entryName
  }

  lemma NumberedPartsAppend(parts: seq<ZipPart>, target: string, entryName: string, content: seq<byte>)
    requires NumberedParts(parts, target, entryName)
    ensures NumberedParts(parts + [ZipPart(PartZipPath(target, |parts| + 1), entryName, content)], target, entryName)
  {
  }

  /** The first part of SplitParts is one `_write_chunk`'s worth; the rest, if any, come from what is left. */
  lemma SplitPartsUnfold(rest: seq<byte>, n: nat, maxPartSize: int, bufferSize: int)
    requires maxPartSize > 0 && n == ChunkLength(|rest|, maxPartSize, bufferSize)
    ensures SplitParts(rest, maxPartSize, bufferSize) ==
            [rest[..n]] + (if n < maxPartSize then [] else SplitParts(rest[n..], maxPartSize, bufferSize))
  {
  }

  lemma ConcatStep<T>(done: seq<T>, x: T, later: seq<T>, remaining: seq<T>, whole: seq<T>)
    requires done + remaining == whole && remaining == [x] + later
    ensures (done + [x]) + later == whole
  {
    assert (done + [x]) + later == done + ([x] + later);
  }

  lemma {:induction false} ContentsIndex(parts: seq<ZipPart>, k: nat)
    requires k < |parts|
    ensures Contents(parts)[k] == parts[k].content
  {
    if k > 0 {
      ContentsIndex(parts[1..], k - 1);
    }
  }

  /**
   * One more `_write_chunk` moves the cursor from `pos` to `next` and peels
   * the next part off the remaining bytes: the parts written so far followed
   * by the parts still to come are always the whole file's parts.
   */
  lemma SplitPartsStep(data: seq<byte>, pos: nat, next: nat, maxPartSize: int, bufferSize: int,
                       parts: seq<ZipPart>, p: ZipPart, whole: seq<seq<byte>>)
    requires maxPartSize > 0 && pos <= next <= |data|
    requires next - pos == ChunkLength(|data| - pos, maxPartSize, bufferSize)
    requires p.content == data[pos..next]
    requires Contents(parts) + SplitParts(data[pos..], maxPartSize, bufferSize) == whole
    ensures next - pos < maxPartSize ==> Contents(parts + [p]) == whole
    ensures next - pos >= maxPartSize ==> Contents(parts + [p]) + SplitParts(data[next..], maxPartSize, bufferSize) == whole
  {
    var rest := data[pos..];
    var n := next - pos;
    assert rest[..n] == p.content;
    assert rest[n..] == data[next..];
    var later := if n < maxPartSize then [] else SplitParts(data[next..], maxPartSize, bufferSize);
    SplitPartsUnfold(rest, n, maxPartSize, bufferSize);
    ContentsAppend(parts, p);
    ConcatStep(Contents(parts), p.content, later, SplitParts(rest, maxPartSize, bufferSize), whole);
    assert Contents(parts + [p]) + [] == Contents(parts + [p]);
  }

  lemma {:induction false} ContentsAppend(parts: seq<ZipPart>, p: ZipPart)
    ensures Contents(parts + [p]) == Contents(parts) + [p.content]
  {
    if parts != [] {
      assert (parts + [p])[1..] == parts[1..] + [p];
      ContentsAppend(parts[1..], p);
    }
  }

  /**
   * `_split_and_zip_file(source, target)` for a source holding `data` and a
   * target `target_dir / rel`: part n (from 1) is archived at
   * `PartZipPath(target, n)` with one entry named `rel` (the target relative
   * to the target directory), and the parts hold exactly SplitParts(data).
   * When the read raises, the split stops with `raised` set, and the part
   * being written stays behind with an empty entry: SplitParts is then that
   * single empty part.
   */
  method SplitAndZipFile(s: Settings, data: seq<byte>, rel: string) returns (parts: seq<ZipPart>, raised: bool)
    requires s.maxPartSize > 0
    requires IsCleanRelative(rel)
    ensures raised <==> ReadRaises(s.maxPartSize, s.bufferSize)
    ensures Contents(parts) == SplitParts(data, s.maxPartSize, s.bufferSize)
    ensures NumberedParts(parts, Join(s.targetDir, rel), rel)
  {
    var target := Join(s.targetDir, rel);
    RelativeToOfJoin(s.targetDir, rel);
    var entryName := RelativeTo(target, s.targetDir).value;
    var src := new SourceFile.Open(data);
    var partNum := 1;
    parts := [];
    ghost var whole := SplitParts(data, s.maxPartSize, s.bufferSize);
    assert data[0..] == data;
    while true
      invariant src.Valid() && src.data == data
      invariant partNum == |parts| + 1
      invariant Contents(parts) + SplitParts(data[src.pos..], s.maxPartSize, s.bufferSize) == whole
      invariant NumberedParts(parts, target, entryName)
      decreases |data| - src.pos
    {
      var zipPath := PartZipPath(target, partNum);
      ghost var pos := src.pos;
      var written, bytesWritten, readRaised := WriteChunk(src, s.maxPartSize, s.bufferSize);
      SplitPartsStep(data, pos, src.pos, s.maxPartSize, s.bufferSize, parts, ZipPart(zipPath, entryName, written), whole);
      NumberedPartsAppend(parts, target, entryName, written);
      parts := parts + [ZipPart(zipPath, entryName, written)];
      if readRaised {
        return parts, true;
      }
      if bytesWritten < s.maxPartSize {
        return parts, false;
      }
      partNum := partNum + 1;
    }
  }

  // ---------------------------------------------------------------------------
  // Properties of the parts

  /** With a buffer the reader accepts, other than zero, one `_write_chunk` either fills the part or takes all that remains. */
  lemma ChunkLengthAccepted(remaining: nat, maxPartSize: int, bufferSize: int)
    requires maxPartSize > 0 && bufferSize != 0 && bufferSize >= -1
    ensures ChunkLength(remaining, maxPartSize, bufferSize) < maxPartSize ==>
              ChunkLength(remaining, maxPartSize, bufferSize) == remaining
  {
  }

  /** Any buffer size the reader accepts other than zero reproduces the file: the parts concatenate to its bytes. */
  lemma {:induction false} SplitPartsConcat(data: seq<byte>, maxPartSize: int, bufferSize: int)
    requires maxPartSize > 0 && bufferSize != 0 && bufferSize >= -1
    ensures Flatten(SplitParts(data, maxPartSize, bufferSize)) == data
    decreases |data|
  {
    var n := ChunkLength(|data|, maxPartSize, bufferSize);
    ChunkLengthAccepted(|data|, maxPartSize, bufferSize);
    SplitPartsUnfold(data, n, maxPartSize, bufferSize);
    if n < maxPartSize {
      assert data[..n] == data;
      assert Flatten([data]) == data + Flatten<byte>([]);
    } else {
      var rest := SplitParts(data[n..], maxPartSize, bufferSize);
      SplitPartsConcat(data[n..], maxPartSize, bufferSize);
      assert ([data[..n]] + rest)[1..] == rest;
      assert data[..n] + data[n..] == data;
    }
  }

  /** `q * m` by repeated addition, so that the part-count induction needs no non-linear arithmetic. */
  function Times(q: nat, m: nat): nat {
    if q == 0 then 0 else Times(q - 1, m) + m
  }

  lemma {:induction false} TimesIsProduct(q: nat, m: nat)
    ensures Times(q, m) == q * m
  {
    if q > 0 {
      TimesIsProduct(q - 1, m);
      assert q * m == (q - 1) * m + m;
    }
  }

  /** The part shape for a file of `q * max_part_size + r` bytes with `r < max_part_size`. */
  lemma {:induction false} SplitPartsShapeOf(data: seq<byte>, maxPartSize: nat, bufferSize: int, q: nat, r: nat)
    requires maxPartSize > 0 && bufferSize > 0
    requires |data| == Times(q, maxPartSize) + r && r < maxPartSize
    ensures |SplitParts(data, maxPartSize, bufferSize)| == q + 1
    ensures forall k :: 0 <= k < q ==> |SplitParts(data, maxPartSize, bufferSize)[k]| == maxPartSize
    ensures |SplitParts(data, maxPartSize, bufferSize)[q]| == r
    decreases q
  {
    var parts := SplitParts(data, maxPartSize, bufferSize);
    if q > 0 {
      var tail := data[maxPartSize..];
      var rest := SplitParts(tail, maxPartSize, bufferSize);
      SplitPartsShapeOf(tail, maxPartSize, bufferSize, q - 1, r);
      assert parts == [data[..maxPartSize]] + rest;
      forall k | 0 <= k < q
        ensures |parts[k]| == maxPartSize
      {
        if k > 0 { assert parts[k] == rest[k - 1]; }
      }
    }
  }

  /**
   * With a positive buffer a file of S bytes gives S div max + 1 parts: every
   * part but the last holds exactly `max_part_size` bytes and the last holds
   * S mod max bytes (none at all when S is an exact multiple).
   */
  lemma SplitPartsShape(data: seq<byte>, maxPartSize: int, bufferSize: int)
    requires maxPartSize > 0 && bufferSize > 0
    ensures |SplitParts(data, maxPartSize, bufferSize)| == |data| / maxPartSize + 1
    ensures forall k :: 0 <= k < |SplitParts(data, maxPartSize, bufferSize)| - 1 ==>
              |SplitParts(data, maxPartSize, bufferSize)[k]| == maxPartSize
    ensures |SplitParts(data, maxPartSize, bufferSize)[|data| / maxPartSize]| == |data| % maxPartSize
  {
    TimesIsProduct(|data| / maxPartSize, maxPartSize);
    SplitPartsShapeOf(data, maxPartSize, bufferSize, |data| / maxPartSize, |data| % maxPartSize);
  }

  /** Any two positive buffer sizes produce the same parts. */
  lemma {:induction false} SplitPartsBufferIndependent(data: seq<byte>, maxPartSize: int, b1: int, b2: int)
    requires maxPartSize > 0 && b1 > 0 && b2 > 0
    ensures SplitParts(data, maxPartSize, b1) == SplitParts(data, maxPartSize, b2)
    decreases |data|
  {
    if |data| >= maxPartSize {
      SplitPartsBufferIndependent(data[maxPartSize..], maxPartSize, b1, b2);
    }
  }

  /** 120 bytes at a part size of 50 give parts of 50, 50 and 20 bytes. */
  lemma ScenarioOneHundredTwenty(data: seq<byte>, bufferSize: int)
    requires |data| == 120 && bufferSize > 0
    ensures |SplitParts(data, 50, bufferSize)| == 3
    ensures |SplitParts(data, 50, bufferSize)[0]| == 50
    ensures |SplitParts(data, 50, bufferSize)[1]| == 50
    ensures |SplitParts(data, 50, bufferSize)[2]| == 20
  {
    SplitPartsShape(data, 50, bufferSize);
  }

  /** A file whose size is a non-zero multiple of the part size ends with an extra, empty part. */
  lemma {:induction false} ExactMultipleTrailingEmptyPart(data: seq<byte>, maxPartSize: int, bufferSize: int)
    requires maxPartSize > 0 && bufferSize > 0
    requires |data| > 0 && |data| % maxPartSize == 0
    ensures |SplitParts(data, maxPartSize, bufferSize)| >= 2
    ensures SplitParts(data, maxPartSize, bufferSize)[|SplitParts(data, maxPartSize, bufferSize)| - 1] == []
  {
    SplitPartsShape(data, maxPartSize, bufferSize);
    assert |data| / maxPartSize >= 1;
  }

  /** As written, a zero buffer size writes a single empty part: a non-empty file's bytes are lost. */
  lemma {:induction false} ZeroBufferLosesBytes(data: seq<byte>, maxPartSize: int)
    requires maxPartSize > 0 && |data| > 0
    ensures SplitParts(data, maxPartSize, 0) == [[]]
    ensures Flatten(SplitParts(data, maxPartSize, 0)) != data
  {
    assert Flatten([[]]) == [] + Flatten<byte>([]);
  }

  /** As written, a buffer size of -1 (`read(-1)`) puts a whole oversized file into its first part. */
  lemma {:induction false} MinusOneBufferOversizedPart(data: seq<byte>, maxPartSize: int)
    requires maxPartSize > 0 && |data| > maxPartSize
    ensures |SplitParts(data, maxPartSize, -1)[0]| > maxPartSize
  {
    assert data[..|data|] == data;
  }

  /** Settings accepted by the checked validation split every file into parts that reassemble it. */
  lemma {:induction false} CheckedSettingsRoundTrip(sourceExists: bool, sourceIsDir: bool, sourceDir: string, targetDir: string,
                                 maxPartSize: int, bufferSize: int, data: seq<byte>)
    requires NewSplitter(sourceExists, sourceIsDir, sourceDir, targetDir, maxPartSize, bufferSize).Success?
    ensures maxPartSize > 0
    ensures Flatten(SplitParts(data, maxPartSize, bufferSize)) == data
    ensures forall k :: 0 <= k < |SplitParts(data, maxPartSize, bufferSize)| ==>
              |SplitParts(data, maxPartSize, bufferSize)[k]| <= maxPartSize
  {
    SplitPartsConcat(data, maxPartSize, bufferSize);
    SplitPartsShape(data, maxPartSize, bufferSize);
  }

  // ---------------------------------------------------------------------------
  // `_process_file` and `process_directory`

  /**
   * One file yielded by the walk: its path relative to the source directory
   * and its bytes, or None when reading it fails (`stat` or `open` raises).
   */
  datatype SourceItem = SourceItem(relPath: string, content: Option<seq<byte>>)

  /** What `_process_file` leaves behind for one file. */
  datatype FileOutcome =
    | Failed
    | Copied(target: string, content: seq<byte>)
    | SplitInto(parts: seq<ZipPart>)
      /** The split raised: the error is logged, and the parts already written stay. */
    | SplitAborted(parts: seq<ZipPart>)

  /**
   * The outcome `_process_file` produces: a failure is logged and leaves
   * nothing; a file of at most `max_part_size` bytes is copied whole to
   * `target_dir / rel`; a strictly larger one is split into parts, and the
   * split is cut short when the reader refuses the buffer size.
   */
  predicate Handled(s: Settings, item: SourceItem, outcome: FileOutcome)
    requires s.maxPartSize > 0
  {
    match item.content
    case None => outcome == Failed
    case Some(d) =>
      if |d| <= s.maxPartSize then outcome == Copied(Join(s.targetDir, item.relPath), d)
      else
        && (if ReadRaises(s.maxPartSize, s.bufferSize) then outcome.SplitAborted? else outcome.SplitInto?)
        && Contents(outcome.parts) == SplitParts(d, s.maxPartSize, s.bufferSize)
        && NumberedParts(outcome.parts, Join(s.targetDir, item.relPath), item.relPath)
  }

  /** `_process_file(source_file)`: copy when the size is at most `max_part_size`, split otherwise. */
  method ProcessFile(s: Settings, item: SourceItem) returns (outcome: FileOutcome)
    requires s.maxPartSize > 0
    requires IsCleanRelative(item.relPath)
    ensures Handled(s, item, outcome)
  {
    match item.content {
      case None =>
        outcome := Failed;
      case Some(d) =>
        var targetPath := Join(s.targetDir, item.relPath);
        if |d| <= s.maxPartSize {
          outcome := Copied(targetPath, d);
        } else {
          var parts, raised := SplitAndZipFile(s, d, item.relPath);
          outcome := if raised then SplitAborted(parts) else SplitInto(parts);
        }
    }
  }

  /**
   * `process_directory()` over the walk's files in order: every file is
   * handled, and a failure on one does not stop the walk.
   */
  method ProcessDirectory(s: Settings, items: seq<SourceItem>) returns (outcomes: seq<FileOutcome>)
    requires s.maxPartSize > 0
    requires forall k :: 0 <= k < |items| ==> IsCleanRelative(items[k].relPath)
    ensures |outcomes| == |items|
    ensures forall k :: 0 <= k < |items| ==> Handled(s, items[k], outcomes[k])
  {
    outcomes := [];
    for i := 0 to |items|
      invariant |outcomes| == i
      invariant forall k :: 0 <= k < i ==> Handled(s, items[k], outcomes[k])
    {
      var outcome := ProcessFile(s, items[i]);
      outcomes := outcomes + [outcome];
    }
  }

  /** The bytes an outcome puts out: the copy, or the parts' entries laid end to end. */
  function OutcomeBytes(outcome: FileOutcome): seq<byte> {
    match outcome
    case Failed => []
    case Copied(_, content) => content
    case SplitInto(parts) => Flatten(Contents(parts))
    case SplitAborted(parts) => Flatten(Contents(parts))
  }

  /**
   * With a positive buffer every readable file can be rebuilt from what
   * `_process_file` wrote, and a file larger than `max_part_size` is split
   * into at least two parts of at most `max_part_size` bytes each.
   */
  lemma HandledRoundTrip(s: Settings, item: SourceItem, outcome: FileOutcome)
    requires s.maxPartSize > 0 && s.bufferSize > 0
    requires item.content.Some? && Handled(s, item, outcome)
    ensures OutcomeBytes(outcome) == item.content.value
    ensures outcome.SplitInto? <==> |item.content.value| > s.maxPartSize
    ensures outcome.SplitInto? ==> |outcome.parts| >= 2
    ensures outcome.SplitInto? ==> forall k :: 0 <= k < |outcome.parts| ==> |outcome.parts[k].content| <= s.maxPartSize
  {
    var d := item.content.value;
    if |d| > s.maxPartSize {
      var parts := outcome.parts;
      assert Contents(parts) == SplitParts(d, s.maxPartSize, s.bufferSize);
      assert Flatten(Contents(parts)) == d by {
        SplitPartsConcat(d, s.maxPartSize, s.bufferSize);
      }
      assert |parts| >= 2 && forall k :: 0 <= k < |parts| ==> |Contents(parts)[k]| <= s.maxPartSize by {
        SplitPartsShape(d, s.maxPartSize, s.bufferSize);
        assert |d| / s.maxPartSize >= 1;
      }
      forall k | 0 <= k < |parts|
        ensures |parts[k].content| <= s.maxPartSize
      {
        ContentsIndex(parts, k);
      }
    }
  }

  /**
   * As written, a buffer size below -1 makes the first read of every split
   * raise: each file larger than `max_part_size` fails, leaving only
   * `{name}.part1.zip` with an empty entry, and none of its bytes are written.
   */
  lemma {:induction false} LargeNegativeBufferAbortsSplit(s: Settings, item: SourceItem, outcome: FileOutcome)
    requires s.maxPartSize > 0 && s.bufferSize < -1
    requires item.content.Some? && |item.content.value| > s.maxPartSize
    requires Handled(s, item, outcome)
    ensures outcome.SplitAborted?
    ensures |outcome.parts| == 1 && outcome.parts[0].content == []
    ensures outcome.parts[0].zipPath == PartZipPath(Join(s.targetDir, item.relPath), 1)
    ensures OutcomeBytes(outcome) != item.content.value
  {
    var d := item.content.value;
    assert SplitParts(d, s.maxPartSize, s.bufferSize) == [[]];
    ContentsIndex(outcome.parts, 0);
    assert Flatten(Contents(outcome.parts)) == [] by {
      assert Contents(outcome.parts) == [[]];
      assert Flatten<byte>([[]]) == [] + Flatten<byte>([]);
    }
  }
}
