/**
 * The (path, size) records that the directory walk hands to the packers, and
 * the two measures every packer is judged by: the total size of a group and
 * the concatenation of a sequence of groups.
 */
module Files {

  /** One walked file: the path the script carries for it and its size in bytes (`os.path.getsize`). */
  datatype FileEntry = FileEntry(path: string, size: nat)

  /** Sum of the sizes in `files`. */
  function Total(files: seq<FileEntry>): nat {
    if files == [] then 0 else Total(files[..|files| - 1]) + files[|files| - 1].size
  }

  /** The groups laid end to end, in order. */
  function Flatten<T>(groups: seq<seq<T>>): seq<T> {
    if groups == [] then [] else groups[0] + Flatten(groups[1..])
  }

  lemma PrefixSnoc<T>(s: seq<T>, i: nat)
    requires i < |s|
    ensures s[..i + 1] == s[..i] + [s[i]]
  {
  }

  lemma TotalAppend(files: seq<FileEntry>, f: FileEntry)
    ensures Total(files + [f]) == Total(files) + f.size
  {
    assert (files + [f])[..|files|] == files;
  }

  /** Sizes are non-negative, so a prefix never weighs more than the whole. */
  lemma {:induction false} TotalPrefix(files: seq<FileEntry>, k: nat)
    requires k <= |files|
    ensures Total(files[..k]) <= Total(files)
  {
    if k < |files| {
      assert files[..|files| - 1][..k] == files[..k];
      TotalPrefix(files[..|files| - 1], k);
    } else {
      assert files[..k] == files;
    }
  }

  lemma {:induction false} FlattenAppend<T>(groups: seq<seq<T>>, g: seq<T>)
    ensures Flatten(groups + [g]) == Flatten(groups) + g
  {
    if groups != [] {
      assert (groups + [g])[1..] == groups[1..] + [g];
      FlattenAppend(groups[1..], g);
    }
  }

  /** Replacing the last group by an extension of it extends the concatenation by the same amount. */
  lemma {:induction false} FlattenExtendLast<T>(groups: seq<seq<T>>, extra: seq<T>)
    requires groups != []
    ensures Flatten(groups[..|groups| - 1] + [groups[|groups| - 1] + extra]) == Flatten(groups) + extra
  {
    var init := groups[..|groups| - 1];
    var last := groups[|groups| - 1];
    assert groups == init + [last];
    FlattenAppend(init, last);
    FlattenAppend(init, last + extra);
    calc {
      Flatten(init + [last + extra]);
      Flatten(init) + (last + extra);
      (Flatten(init) + last) + extra;
      Flatten(groups) + extra;
    }
  }
}
