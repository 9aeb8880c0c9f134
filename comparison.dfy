/**
 * main.py and split.py side by side. When every walked file has a size and
 * every copy succeeds, the two packers cut the file stream at exactly the
 * same places; they differ only in `part_1`, which split.py creates before
 * looking at any file and leaves empty when there are no files or when the
 * first file alone exceeds the limit (main.py never emits an empty chunk).
 */
module Comparison {
  import opened Files
  import opened Packer
  import opened PartScript

  /** Every file's size can be read and every copy succeeds. */
  predicate AllSucceed(files: seq<WalkedFile>) {
    forall i :: 0 <= i < |files| ==> files[i].size.Some? && files[i].copySucceeds
  }

  /** With nothing skipped and nothing failing, the copied files are all the walked files, in order. */
  lemma {:induction false} CopiedAll(files: seq<WalkedFile>)
    requires AllSucceed(files)
    ensures |Copied(files)| == |files|
    ensures forall i :: 0 <= i < |files| ==> Copied(files)[i] == FileEntry(files[i].path, files[i].size.value)
  {
    if files != [] {
      var init := files[..|files| - 1];
      assert AllSucceed(init) by {
        forall i | 0 <= i < |init| ensures init[i] == files[i] { }
      }
      CopiedAll(init);
    }
  }

  /**
   * The shape of split.py's parts when every copy succeeds: every part after
   * `part_1` is non-empty, and a non-empty part was left because the file
   * that opened the next part did not fit.
   */
  predicate Shaped(parts: seq<seq<FileEntry>>, maxSize: int) {
    && (forall k :: 1 <= k < |parts| ==> parts[k] != [])
    && (forall k :: 0 <= k < |parts| - 1 && parts[k] != [] ==> Total(parts[k]) + parts[k + 1][0].size > maxSize)
  }

  /** A new part holding one file that did not fit keeps the parts Shaped. */
  lemma ShapedNewPart(parts: seq<seq<FileEntry>>, g: FileEntry, maxSize: int)
    requires parts != [] && Shaped(parts, maxSize)
    requires Total(parts[|parts| - 1]) + g.size > maxSize
    ensures Shaped(parts + [[g]], maxSize)
  {
    var r: seq<seq<FileEntry>> := parts + [[g]];
    var n := |parts| - 1;
    forall k | 0 <= k < |r| - 1 && r[k] != []
      ensures Total(r[k]) + r[k + 1][0].size > maxSize
    {
      if k < n {
        assert r[k] == parts[k] && r[k + 1] == parts[k + 1];
      } else {
        assert r[k] == parts[n] && r[k + 1] == [g];
      }
    }
  }

  /** A file added to the last part keeps the parts Shaped. */
  lemma ShapedExtendLast(parts: seq<seq<FileEntry>>, g: FileEntry, maxSize: int)
    requires parts != [] && Shaped(parts, maxSize)
    ensures Shaped(parts[..|parts| - 1] + [parts[|parts| - 1] + [g]], maxSize)
  {
    var n := |parts| - 1;
    var r: seq<seq<FileEntry>> := parts[..n] + [parts[n] + [g]];
    forall k | 0 <= k < |r| - 1 && r[k] != []
      ensures Total(r[k]) + r[k + 1][0].size > maxSize
    {
      assert r[k] == parts[k];
      if k + 1 < n {
        assert r[k + 1] == parts[k + 1];
      } else {
        assert parts[n] != [];
        assert r[k + 1][0] == parts[n][0];
      }
    }
  }

  /** One successfully copied file keeps the parts Shaped, and `part_1` only ever gains files. */
  lemma ShapedStep(st: State, f: WalkedFile, maxSize: int)
    requires WellFormed(st) && Shaped(st.parts, maxSize)
    requires f.size.Some? && f.copySucceeds
    ensures Shaped(Step(st, f, maxSize).parts, maxSize)
    ensures |Step(st, f, maxSize).parts| >= |st.parts|
    ensures st.parts[0] != [] ==> Step(st, f, maxSize).parts[0] != []
    ensures |st.parts| >= 2 ==> Step(st, f, maxSize).parts[0] == st.parts[0]
  {
    var g := FileEntry(f.path, f.size.value);
    var ready := OpenFor(st, f.size.value, maxSize);
    assert Step(st, f, maxSize) == AddToCurrent(ready, g);
    if st.currentSize + f.size.value > maxSize {
      ShapedNewPart(st.parts, g, maxSize);
      assert ready.parts[..|ready.parts| - 1] + [ready.parts[|ready.parts| - 1] + [g]] == st.parts + [[g]];
    } else {
      ShapedExtendLast(st.parts, g, maxSize);
    }
  }

  /** `part_1` is empty exactly when `first` alone exceeds the limit, and then `part_2` exists. */
  predicate FirstPartRule(parts: seq<seq<FileEntry>>, first: WalkedFile, maxSize: int)
    requires parts != [] && first.size.Some?
  {
    && (parts[0] == [] <==> first.size.value > maxSize)
    && (parts[0] == [] ==> |parts| >= 2)
  }

  lemma FirstFile(f: WalkedFile, maxSize: int)
    requires f.size.Some? && f.copySucceeds
    ensures Shaped(Step(Initial, f, maxSize).parts, maxSize)
    ensures FirstPartRule(Step(Initial, f, maxSize).parts, f, maxSize)
  {
    ShapedStep(Initial, f, maxSize);
  }

  lemma LaterFile(st: State, f: WalkedFile, first: WalkedFile, maxSize: int)
    requires WellFormed(st) && Shaped(st.parts, maxSize)
    requires f.size.Some? && f.copySucceeds && first.size.Some?
    requires FirstPartRule(st.parts, first, maxSize)
    ensures Shaped(Step(st, f, maxSize).parts, maxSize)
    ensures FirstPartRule(Step(st, f, maxSize).parts, first, maxSize)
  {
    ShapedStep(st, f, maxSize);
  }

  /**
   * split.py's parts are Shaped, and `part_1` is empty exactly when the first
   * file alone exceeds the limit (in which case `part_2` exists).
   */
  lemma {:induction false} RunShaped(files: seq<WalkedFile>, maxSize: int)
    requires AllSucceed(files)
    ensures Shaped(Run(files, maxSize).parts, maxSize)
    ensures files != [] ==> FirstPartRule(Run(files, maxSize).parts, files[0], maxSize)
  {
    if files != [] {
      var init := files[..|files| - 1];
      var f := files[|files| - 1];
      var st := Run(init, maxSize);
      assert f.size.Some? && f.copySucceeds;
      assert Run(files, maxSize) == Step(st, f, maxSize);
      if init == [] {
        assert f == files[0];
        FirstFile(f, maxSize);
      } else {
        assert AllSucceed(init) by {
          forall i | 0 <= i < |init| ensures init[i] == files[i] { }
        }
        assert Shaped(st.parts, maxSize) && FirstPartRule(st.parts, files[0], maxSize) by {
          RunShaped(init, maxSize);
          assert init[0] == files[0];
        }
        LaterFile(st, f, files[0], maxSize);
      }
    }
  }

  /** split.py's parts without an empty `part_1`. */
  function Packed(parts: seq<seq<FileEntry>>): seq<seq<FileEntry>> {
    if parts != [] && parts[0] == [] then parts[1..] else parts
  }

  /** Parts that are Shaped and within the limit, with an empty `part_1` dropped, form a greedy partition of the same files. */
  lemma PackedGreedy(parts: seq<seq<FileEntry>>, maxSize: int)
    requires parts != [] && Shaped(parts, maxSize)
    requires forall k :: 0 <= k < |parts| && |parts[k]| >= 2 ==> Total(parts[k]) <= maxSize
    ensures Flatten(Packed(parts)) == Flatten(parts)
    ensures GreedyPartition(Packed(parts), maxSize)
  {
    var packed := Packed(parts);
    if parts[0] == [] {
      assert Flatten(parts) == [] + Flatten(parts[1..]);
      assert forall k :: 0 <= k < |packed| ==> packed[k] == parts[k + 1];
    }
  }

  /** Dropping an empty `part_1` from split.py's parts leaves a greedy partition of the copied files, in the sense of main.py. */
  lemma PackedIsGreedy(files: seq<WalkedFile>, maxSize: int)
    requires AllSucceed(files)
    ensures Flatten(Packed(Run(files, maxSize).parts)) == Copied(files)
    ensures GreedyPartition(Packed(Run(files, maxSize).parts), maxSize)
  {
    RunShaped(files, maxSize);
    RunPartsWithinLimit(files, maxSize);
    RunCopiedInOrder(files, maxSize);
    PackedGreedy(Run(files, maxSize).parts, maxSize);
  }

  /** Parts are their Packed form, after an empty `part_1` if they have one. */
  lemma PackedLeading(parts: seq<seq<FileEntry>>)
    requires parts != []
    ensures parts == (if parts[0] == [] then [[]] else []) + Packed(parts)
  {
  }

  /**
   * On a walk where nothing fails, split.py's parts are main.py's chunks,
   * preceded by an empty `part_1` exactly when there are no files or the
   * first file alone exceeds the limit; so split.py reports one part more
   * than main.py has chunks in those cases and the same number otherwise.
   * `chunks` is any result of `split_files_by_size` on the same files
   * (Packer.SplitFilesBySize ensures both requirements).
   */
  lemma ScriptAgreesWithPacker(files: seq<WalkedFile>, maxSize: int, chunks: seq<seq<FileEntry>>)
    requires AllSucceed(files)
    requires Flatten(chunks) == Copied(files) && GreedyPartition(chunks, maxSize)
    ensures Run(files, maxSize).parts ==
            (if files == [] || files[0].size.value > maxSize then [[]] else []) + chunks
    ensures Run(files, maxSize).partNum ==
            |chunks| + (if files == [] || files[0].size.value > maxSize then 1 else 0)
  {
    var st := Run(files, maxSize);
    var lead: seq<seq<FileEntry>> := if files == [] || files[0].size.value > maxSize then [[]] else [];
    assert st.parts == lead + chunks by {
      PackedIsGreedy(files, maxSize);
      GreedyPartitionUnique(Packed(st.parts), chunks, maxSize);
      PackedLeading(st.parts);
      assert st.parts[0] == [] <==> files == [] || files[0].size.value > maxSize by {
        RunShaped(files, maxSize);
      }
    }
    assert st.partNum == |st.parts| == |lead| + |chunks|;
  }
}
