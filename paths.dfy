/**
 * POSIX path strings as the three scripts build them: `os.path.join`,
 * `os.path.dirname`, `os.path.basename`, `os.path.relpath`, and pathlib's
 * `/`, `.name`, `.with_name` and `.relative_to`. A path is a string of
 * components separated by '/'; the components are what `relpath` and
 * `relative_to` compare.
 */
module Paths {
  import opened Wrappers

  /** Index of the first '/' in `p`, or |p| when there is none. */
  function FirstSlash(p: string): (n: nat)
    ensures n <= |p|
    ensures forall i :: 0 <= i < n ==> p[i] != '/'
    ensures n < |p| ==> p[n] == '/'
  {
    if p == [] || p[0] == '/' then 0 else 1 + FirstSlash(p[1..])
  }

  /** The non-empty pieces of `p` between slashes (`[x for x in p.split('/') if x]`). */
  function Components(p: string): (cs: seq<string>)
    ensures forall k :: 0 <= k < |cs| ==> cs[k] != [] && '/' !in cs[k]
    decreases |p|
  {
    if p == [] then []
    else if p[0] == '/' then Components(p[1..])
    else
      var n := FirstSlash(p);
      [p[..n]] + Components(p[n..])
  }

  /** Components joined by single slashes (`os.path.join(*cs)` for relative components). */
  function JoinAll(cs: seq<string>): string {
    if cs == [] then []
    else if |cs| == 1 then cs[0]
    else cs[0] + "/" + JoinAll(cs[1..])
  }

  /** `os.path.join(a, b)`: an absolute `b` replaces `a`; otherwise one separator is inserted when needed. */
  function Join(a: string, b: string): string {
    if |b| > 0 && b[0] == '/' then b
    else if a == [] || a[|a| - 1] == '/' then a + b
    else a + "/" + b
  }

  /**
   * A normalised relative path, as the walk yields them below its root:
   * non-empty, no leading or trailing slash, no empty component, and no
   * `.` or `..` component (which `relpath` and pathlib would rewrite).
   */
  predicate IsCleanRelative(p: string) {
    && SingleSeparated(p)
    && (forall c :: c in Components(p) ==> c != "." && c != "..")
  }

  /** Non-empty, no leading or trailing slash, and never two slashes in a row. */
  predicate SingleSeparated(p: string) {
    && p != []
    && p[0] != '/'
    && p[|p| - 1] != '/'
    && (forall i :: 0 <= i < |p| - 1 && p[i] == '/' ==> p[i + 1] != '/')
  }

  /** One path component: a non-empty name without a separator, other than `.` and `..`. */
  predicate IsName(name: string) {
    name != [] && '/' !in name && name != "." && name != ".."
  }

  /** Index just past the last '/' in `p`, or 0 when there is none. */
  function LastSlashEnd(p: string): (n: nat)
    ensures n <= |p|
    ensures n > 0 ==> p[n - 1] == '/'
    ensures forall i :: n <= i < |p| ==> p[i] != '/'
  {
    if p == [] then 0
    else if p[|p| - 1] == '/' then |p|
    else LastSlashEnd(p[..|p| - 1])
  }

  predicate AllSlashes(s: string) {
    forall i :: 0 <= i < |s| ==> s[i] == '/'
  }

  function StripTrailingSlashes(s: string): (r: string)
    ensures r <= s
    ensures r == [] || r[|r| - 1] != '/'
  {
    if s != [] && s[|s| - 1] == '/' then StripTrailingSlashes(s[..|s| - 1]) else s
  }

  /** `os.path.dirname(p)`: the head before the last slash, trailing slashes removed unless it is all slashes. */
  function DirName(p: string): string {
    var head := p[..LastSlashEnd(p)];
    if head != [] && !AllSlashes(head) then StripTrailingSlashes(head) else head
  }

  /** `os.path.basename(p)`, which is also pathlib's `.name` of a path without a trailing slash. */
  function BaseName(p: string): string {
    p[LastSlashEnd(p)..]
  }

  /** pathlib's `p.with_name(name)`: the last component replaced. */
  function WithName(p: string, name: string): string {
    p[..LastSlashEnd(p)] + name
  }

  function Repeat(s: string, n: nat): seq<string> {
    if n == 0 then [] else [s] + Repeat(s, n - 1)
  }

  function CommonPrefixLength(a: seq<string>, b: seq<string>): (n: nat)
    ensures n <= |a| && n <= |b|
    ensures a[..n] == b[..n]
    ensures n < |a| && n < |b| ==> a[n] != b[n]
  {
    if a == [] || b == [] || a[0] != b[0] then 0
    else 1 + CommonPrefixLength(a[1..], b[1..])
  }

  /**
   * `os.path.relpath(path, start)` on two paths that are both absolute or
   * both relative and already normalised: one ".." per component of `start`
   * outside the common prefix, then the rest of `path`; "." when nothing is left.
   */
  function RelPath(path: string, start: string): string
    requires path != []
  {
    var s := Components(start);
    var p := Components(path);
    var i := CommonPrefixLength(s, p);
    var rel := Repeat("..", |s| - i) + p[i..];
    if rel == [] then "." else JoinAll(rel)
  }

  /** pathlib's `path.relative_to(base)`: defined only when `base`'s components are a prefix of `path`'s. */
  function RelativeTo(path: string, base: string): Option<string> {
    var p := Components(path);
    var b := Components(base);
    if |b| <= |p| && p[..|b|] == b then
      Some(if |b| == |p| then "." else JoinAll(p[|b|..]))
    else None
  }

  // ---------------------------------------------------------------------------
  // Lemmas

  lemma ComponentsSkipSlash(p: string)
    requires p != [] && p[0] == '/'
    ensures Components(p) == Components(p[1..])
  {
  }

  lemma ComponentsFirst(p: string)
    requires p != [] && p[0] != '/'
    ensures Components(p) == [p[..FirstSlash(p)]] + Components(p[FirstSlash(p)..])
  {
  }

  lemma {:induction false} FirstSlashAcross(x: string, y: string)
    ensures FirstSlash(x + "/" + y) == FirstSlash(x)
  {
    if x != [] && x[0] != '/' {
      assert (x + "/" + y)[1..] == x[1..] + "/" + y;
      FirstSlashAcross(x[1..], y);
    }
  }

  /** A separator splits the component list: the components of `x/y` are those of `x` then those of `y`. */
  lemma {:induction false} ComponentsAcross(x: string, y: string)
    ensures Components(x + "/" + y) == Components(x) + Components(y)
    decreases |x|
  {
    var p := x + "/" + y;
    if x == [] {
      assert p[1..] == y;
      ComponentsSkipSlash(p);
    } else if x[0] == '/' {
      assert p[1..] == x[1..] + "/" + y;
      ComponentsSkipSlash(p);
      ComponentsSkipSlash(x);
      ComponentsAcross(x[1..], y);
    } else {
      var n := FirstSlash(x);
      FirstSlashAcross(x, y);
      assert p[..n] == x[..n];
      assert p[n..] == x[n..] + "/" + y;
      ComponentsFirst(p);
      ComponentsFirst(x);
      ComponentsAcross(x[n..], y);
    }
  }

  lemma ComponentsOfName(name: string)
    requires IsName(name)
    ensures Components(name) == [name]
  {
    assert FirstSlash(name) == |name|;
    assert name[..|name|] == name;
    assert Components(name[|name|..]) == [];
  }

  /** A relative `b` joined onto any `a` adds exactly `b`'s components. */
  lemma ComponentsOfJoin(a: string, b: string)
    requires b == [] || b[0] != '/'
    ensures Components(Join(a, b)) == Components(a) + Components(b)
  {
    if a == [] {
      assert Join(a, b) == b;
      assert Components(a) == [];
    } else if a[|a| - 1] == '/' {
      ComponentsOfSlashJoin(a[..|a| - 1], b);
      assert a[..|a| - 1] + "/" == a;
    } else {
      assert Join(a, b) == a + "/" + b;
      ComponentsAcross(a, b);
    }
  }

  /** Joining onto `x/` adds the components of `b` to those of `x`. */
  lemma ComponentsOfSlashJoin(x: string, b: string)
    ensures Components(x + "/" + b) == Components(x + "/") + Components(b)
  {
    ComponentsAcross(x, []);
    assert x + "/" + [] == x + "/";
    assert Components([]) == [];
    ComponentsAcross(x, b);
  }

  /** What follows a separator of a singly separated path is again singly separated. */
  lemma SingleSeparatedTail(p: string, n: nat)
    requires SingleSeparated(p) && n < |p| && p[n] == '/'
    ensures SingleSeparated(p[n + 1..])
  {
    var rest := p[n + 1..];
    forall i | 0 <= i < |rest| - 1 && rest[i] == '/'
      ensures rest[i + 1] != '/'
    {
      assert p[n + 1 + i] == '/';
    }
  }

  /** Joining the components of a singly separated path gives the path back. */
  lemma {:induction false} JoinAllComponents(p: string)
    requires SingleSeparated(p)
    ensures Components(p) != [] && JoinAll(Components(p)) == p
    decreases |p|
  {
    var n := FirstSlash(p);
    var first := p[..n];
    ComponentsFirst(p);
    if n == |p| {
      assert first == p;
      assert Components(p[n..]) == [];
    } else {
      var rest := p[n + 1..];
      SingleSeparatedTail(p, n);
      JoinAllComponents(rest);
      assert p[n..][1..] == rest;
      ComponentsSkipSlash(p[n..]);
      var cs := Components(p);
      assert cs == [first] + Components(rest);
      assert JoinAll(cs) == first + "/" + JoinAll(Components(rest)) by {
        assert cs[1..] == Components(rest);
      }
      assert p == first + "/" + rest;
    }
  }

  lemma {:induction false} StripTrailingSlashesComponents(s: string)
    ensures Components(StripTrailingSlashes(s)) == Components(s)
    ensures StripTrailingSlashes(s) == [] ==> AllSlashes(s)
    decreases |s|
  {
    if s != [] && s[|s| - 1] == '/' {
      var x := s[..|s| - 1];
      assert StripTrailingSlashes(s) == StripTrailingSlashes(x);
      StripTrailingSlashesComponents(x);
      assert Components(s) == Components(x) by {
        assert s == x + "/" + [];
        ComponentsAcross(x, []);
        assert Components([]) == [];
      }
      assert StripTrailingSlashes(s) == [] ==> AllSlashes(s) by {
        if StripTrailingSlashes(s) == [] {
          assert forall i :: 0 <= i < |x| ==> s[i] == x[i];
        }
      }
    }
  }

  lemma {:induction false} AllSlashesComponents(s: string)
    requires AllSlashes(s)
    ensures Components(s) == []
    decreases |s|
  {
    if s != [] {
      assert AllSlashes(s[1..]);
      ComponentsSkipSlash(s);
      AllSlashesComponents(s[1..]);
    }
  }

  /**
   * The directory of `dir/name` has the components of `dir`, whatever
   * trailing slashes `dir` carries: `os.path.dirname(os.path.join(d, n))`
   * names the directory `d`.
   */
  lemma DirNameOfJoin(dir: string, name: string)
    requires IsName(name)
    ensures Components(DirName(Join(dir, name))) == Components(dir)
  {
    var p := Join(dir, name);
    if dir == [] {
      assert p == name;
      assert LastSlashEnd(p) == 0;
    } else {
      var x := if dir[|dir| - 1] == '/' then dir[..|dir| - 1] else dir;
      assert p == x + "/" + name;
      assert Components(dir) == Components(x) by {
        if dir[|dir| - 1] == '/' {
          assert dir == x + "/" + [];
          ComponentsAcross(x, []);
        }
      }
      var n := LastSlashEnd(p);
      assert p[|x|] == '/';
      assert n == |x| + 1;
      var head := p[..n];
      assert head == x + "/";
      assert head == x + "/" + [];
      ComponentsAcross(x, []);
      if head != [] && !AllSlashes(head) {
        assert head[..|head| - 1] == x;
        assert StripTrailingSlashes(head) == StripTrailingSlashes(x);
        StripTrailingSlashesComponents(x);
      }
    }
  }

  lemma CommonPrefixOfExtension(s: seq<string>, r: seq<string>)
    ensures CommonPrefixLength(s, s + r) == |s|
  {
    var n := CommonPrefixLength(s, s + r);
  }

  /** `relpath` of a path below `start` is its components past `start`'s. */
  lemma RelPathBelow(path: string, start: string, r: seq<string>)
    requires path != []
    requires Components(path) == Components(start) + r
    requires r != []
    ensures RelPath(path, start) == JoinAll(r)
  {
    var s := Components(start);
    var p := Components(path);
    CommonPrefixOfExtension(s, r);
    var i := CommonPrefixLength(s, p);
    assert i == |s|;
    assert Repeat("..", |s| - i) == [];
    assert p[i..] == r;
    assert Repeat("..", |s| - i) + p[i..] == r;
  }

  /** `os.path.relpath(os.path.join(start, rel), start) == rel` for a clean relative `rel`. */
  lemma RelPathOfJoin(start: string, rel: string)
    requires IsCleanRelative(rel)
    ensures Join(start, rel) != []
    ensures RelPath(Join(start, rel), start) == rel
  {
    ComponentsOfJoin(start, rel);
    JoinAllComponents(rel);
    RelPathBelow(Join(start, rel), start, Components(rel));
  }

  /** `(base / rel).relative_to(base) == rel` for a clean relative `rel`. */
  lemma RelativeToOfJoin(base: string, rel: string)
    requires IsCleanRelative(rel)
    ensures RelativeTo(Join(base, rel), base) == Some(rel)
  {
    ComponentsOfJoin(base, rel);
    JoinAllComponents(rel);
    var b := Components(base);
    var p := Components(Join(base, rel));
    assert p[..|b|] == b;
    assert p[|b|..] == Components(rel);
  }

  /** pathlib's `with_name` keeps the parent: replacing the name of `p` by its own name gives `p` back. */
  lemma WithOwnNameSuffix(p: string, suffix: string)
    ensures WithName(p, BaseName(p) + suffix) == p + suffix
  {
  }

  /** `os.path.basename(os.path.join(dir, name)) == name` for a single name. */
  lemma BaseNameOfJoin(dir: string, name: string)
    requires IsName(name)
    ensures BaseName(Join(dir, name)) == name
  {
    var p := Join(dir, name);
    var n := LastSlashEnd(p);
    assert n == |p| - |name| by {
      assert n >= |p| - |name| by {
        if dir != [] { assert p[|p| - |name| - 1] == '/'; }
      }
    }
  }

  /** A path whose last component is a name has the components of its directory, then that name. */
  lemma ComponentsOfNamedPath(p: string)
    requires IsName(BaseName(p))
    ensures Components(p) == Components(DirName(p)) + [BaseName(p)]
  {
    var name := BaseName(p);
    var head := p[..LastSlashEnd(p)];
    assert p == head + name;
    assert Join(head, name) == p;
    ComponentsOfJoin(head, name);
    ComponentsOfName(name);
    DirNameOfJoin(head, name);
  }
}
