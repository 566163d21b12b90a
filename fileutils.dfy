/**
 * Path helpers of `fileutils.cc`: whether a path is absolute, where it starts
 * after its root, and `mkdir_with_parents`, which walks the path's prefixes
 * creating each missing directory (as `mkdir -p` does). The filesystem is a
 * value: the directories, the other existing entries, and the errno `mkdir`
 * reports for the paths where it fails.
 */
module FileUtils {
  import opened Results

  const DirSeparator: char := '/'

  predicate IsDirSeparator(c: char) {
    c == DirSeparator
  }

  /** `is_absolute_path`: 1 when the path starts with a separator, else 0 (an empty path is not absolute). */
  function IsAbsolutePath(fileName: string): (r: int)
    ensures r == 0 || r == 1
    ensures r == 1 <==> |fileName| > 0 && IsDirSeparator(fileName[0])
  {
    if |fileName| > 0 && IsDirSeparator(fileName[0]) then 1 else 0
  }

  /**
   * `path_skip_root`: for an absolute path, the offset of what follows all
   * its leading separators; for a relative path, None (`NULL`).
   */
  method PathSkipRoot(fileName: string) returns (r: Option<nat>)
    ensures r.Some? <==> IsAbsolutePath(fileName) == 1
    ensures r.Some? ==>
      && 0 < r.value <= |fileName|
      && (forall k :: 0 <= k < r.value ==> IsDirSeparator(fileName[k]))
      && (r.value < |fileName| ==> !IsDirSeparator(fileName[r.value]))
  {
    if |fileName| > 0 && IsDirSeparator(fileName[0]) {
      var i := 0;
      while i < |fileName| && IsDirSeparator(fileName[i])
        invariant 0 <= i <= |fileName|
        invariant forall k :: 0 <= k < i ==> IsDirSeparator(fileName[k])
      {
        i := i + 1;
      }
      return Some(i);
    }
    return None;
  }

  /** What follows the root is never itself absolute, and the root is all separators. */
  lemma SkipRootLeavesRelative(fileName: string, n: nat)
    requires 0 < n <= |fileName|
    requires forall k :: 0 <= k < n ==> IsDirSeparator(fileName[k])
    requires n < |fileName| ==> !IsDirSeparator(fileName[n])
    ensures IsAbsolutePath(fileName[n..]) == 0
    ensures fileName == fileName[..n] + fileName[n..] && IsAbsolutePath(fileName) == 1
  {
  }

  // ----- the prefixes the walk visits -----

  /**
   * A cut: the first separator of a run that follows a non-separator. The
   * walk stops there and looks at the prefix before it. (The leading run of
   * an absolute path is never a cut.)
   */
  predicate IsCut(path: string, i: int) {
    0 < i < |path| && IsDirSeparator(path[i]) && !IsDirSeparator(path[i - 1])
  }

  /** The prefixes ending at the cuts at or after `from`, shortest first. */
  function PrefixesFrom(path: string, from: nat): (r: seq<string>)
    ensures forall k :: 0 <= k < |r| ==> from <= |r[k]| < |path|
    decreases |path| - from
  {
    if from >= |path| then []
    else
      var rest := PrefixesFrom(path, from + 1);
      if IsCut(path, from) then [path[..from]] + rest else rest
  }

  /** `x` is the prefix before some cut at or after `from`. */
  predicate EndsAtCut(path: string, from: nat, x: string) {
    exists i :: from <= i < |path| && IsCut(path, i) && x == path[..i]
  }

  /**
   * The prefixes listed are exactly those ending at a cut at or after
   * `from`, strictly increasing in length.
   */
  lemma PrefixesFromCuts(path: string, from: nat)
    ensures forall k :: 0 <= k < |PrefixesFrom(path, from)| ==> EndsAtCut(path, from, PrefixesFrom(path, from)[k])
    ensures forall i :: from <= i < |path| && IsCut(path, i) ==> path[..i] in PrefixesFrom(path, from)
    ensures forall k, l :: 0 <= k < l < |PrefixesFrom(path, from)| ==> |PrefixesFrom(path, from)[k]| < |PrefixesFrom(path, from)[l]|
  {
    PrefixesFromSound(path, from);
    PrefixesFromComplete(path, from);
    PrefixesFromIncreasing(path, from);
  }

  lemma {:induction false} PrefixesFromSound(path: string, from: nat)
    ensures forall k :: 0 <= k < |PrefixesFrom(path, from)| ==> EndsAtCut(path, from, PrefixesFrom(path, from)[k])
    decreases |path| - from
  {
    if from < |path| {
      PrefixesFromSound(path, from + 1);
      var rest := PrefixesFrom(path, from + 1);
      forall k | 0 <= k < |rest|
        ensures EndsAtCut(path, from, rest[k])
      {
        assert EndsAtCut(path, from + 1, rest[k]);
        var i :| from + 1 <= i < |path| && IsCut(path, i) && rest[k] == path[..i];
      }
      if IsCut(path, from) {
        var r := [path[..from]] + rest;
        assert forall k :: 1 <= k < |r| ==> r[k] == rest[k - 1];
        assert EndsAtCut(path, from, r[0]) by {
          assert IsCut(path, from) && r[0] == path[..from];
        }
      }
    }
  }

  lemma {:induction false} PrefixesFromComplete(path: string, from: nat)
    ensures forall i :: from <= i < |path| && IsCut(path, i) ==> path[..i] in PrefixesFrom(path, from)
    decreases |path| - from
  {
    if from < |path| {
      PrefixesFromComplete(path, from + 1);
    }
  }

  lemma {:induction false} PrefixesFromIncreasing(path: string, from: nat)
    ensures forall k, l :: 0 <= k < l < |PrefixesFrom(path, from)| ==> |PrefixesFrom(path, from)[k]| < |PrefixesFrom(path, from)[l]|
    decreases |path| - from
  {
    if from < |path| {
      PrefixesFromIncreasing(path, from + 1);
      var rest := PrefixesFrom(path, from + 1);
      if IsCut(path, from) {
        var r := [path[..from]] + rest;
        assert forall k :: 1 <= k < |r| ==> r[k] == rest[k - 1];
      }
    }
  }

  /** Everything `mkdir_with_parents` tests, in order: the prefix before each cut, then the whole path. */
  function Prefixes(path: string): (r: seq<string>)
    ensures |r| >= 1 && r[|r| - 1] == path
  {
    PrefixesFrom(path, 0) + [path]
  }

  lemma {:induction false} NoCutsBetween(path: string, a: nat, b: nat)
    requires a <= b <= |path|
    requires forall k :: a <= k < b ==> !IsCut(path, k)
    ensures PrefixesFrom(path, a) == PrefixesFrom(path, b)
    decreases b - a
  {
    if a < b {
      NoCutsBetween(path, a + 1, b);
    }
  }

  /**
   * One round of the walk from `p`: the next separator `q` is a cut (or the
   * end), and the separators after it up to `next` hold none.
   */
  lemma PrefixesStep(path: string, p: nat, q: nat, next: nat)
    requires p <= q <= |path| && (p == |path| || !IsDirSeparator(path[p]))
    requires forall k :: p <= k < q ==> !IsDirSeparator(path[k])
    requires q < |path| ==> IsDirSeparator(path[q])
    requires q < |path| ==> q < next <= |path| && forall k :: q < k < next ==> IsDirSeparator(path[k])
    ensures q == |path| ==> PrefixesFrom(path, p) == []
    ensures q < |path| ==> PrefixesFrom(path, p) == [path[..q]] + PrefixesFrom(path, next)
  {
    NoCutsBetween(path, p, q);
    if q < |path| {
      assert q > p;
      assert IsCut(path, q);
      NoCutsBetween(path, q + 1, next);
    }
  }

  // ----- the filesystem -----

  /** `errno` values the walk reports. */
  datatype Errno = EInval | ENotDir | EExist | OtherErrno(code: int)

  /**
   * The filesystem as the walk sees it: paths that are directories, paths
   * that exist but are not, and the errno `mkdir` fails with for a path.
   */
  datatype Fs = Fs(dirs: set<string>, others: set<string>, mkdirErrors: map<string, Errno>)

  /** `file_test(name, FILE_TEST_EXISTS)`. */
  predicate Exists(fs: Fs, name: string) {
    name in fs.dirs || name in fs.others
  }

  /** `file_test(name, FILE_TEST_IS_DIR)`. */
  predicate IsDir(fs: Fs, name: string) {
    name in fs.dirs
  }

  /** `mkdir(name, mode)`: its errno where it fails, otherwise the filesystem with the new directory. */
  function Mkdir(fs: Fs, name: string): (r: Result<Fs, Errno>)
    ensures r.Success? ==> r.value == fs.(dirs := fs.dirs + {name})
  {
    if name in fs.mkdirErrors then Failure(fs.mkdirErrors[name])
    else if Exists(fs, name) then Failure(EExist)
    else Success(fs.(dirs := fs.dirs + {name}))
  }

  /**
   * One prefix: a missing one is created (`EEXIST` from `mkdir` is
   * tolerated), an existing one must be a directory.
   */
  function Step(fs: Fs, name: string): (r: Result<Fs, Errno>)
    ensures r.Success? ==> r.value.others == fs.others && r.value.mkdirErrors == fs.mkdirErrors
    ensures r.Success? ==> r.value.dirs == fs.dirs || r.value.dirs == fs.dirs + {name}
    ensures r.Success? ==> name in r.value.dirs || (!Exists(fs, name) && name in fs.mkdirErrors && fs.mkdirErrors[name] == EExist)
    ensures r.Failure? ==>
      || (Exists(fs, name) && !IsDir(fs, name) && r.error == ENotDir)
      || (!Exists(fs, name) && name in fs.mkdirErrors && fs.mkdirErrors[name] == r.error && r.error != EExist)
  {
    if !Exists(fs, name) then
      match Mkdir(fs, name)
      case Success(fs') => Success(fs')
      case Failure(e) => if e == EExist then Success(fs) else Failure(e)
    else if !IsDir(fs, name) then Failure(ENotDir)
    else Success(fs)
  }

  /**
   * Why a prefix can stop the walk: it exists without being a directory
   * (`ENOTDIR`), or `mkdir` fails on it with an errno other than `EEXIST`.
   * Neither depends on the directories the walk creates.
   */
  predicate Refuses(fs: Fs, name: string, e: Errno) {
    || (name in fs.others && name !in fs.dirs && e == ENotDir)
    || (name !in fs.others && name in fs.mkdirErrors && fs.mkdirErrors[name] == e && e != EExist)
  }

  /** `q` is a directory after the walk, or `mkdir` reported `EEXIST` for it while `stat` did not see it. */
  predicate Available(before: Fs, after: Fs, q: string) {
    q in after.dirs || (q !in before.others && q in before.mkdirErrors && before.mkdirErrors[q] == EExist)
  }

  /**
   * The walk's outcome over `names`: each tested in turn, stopping at the
   * first failure with -1 and its errno; 0 when all pass.
   */
  function RunTests(fs: Fs, names: seq<string>): (r: (int, Option<Errno>, Fs))
    ensures r.0 == 0 || r.0 == -1
    ensures r.0 == 0 <==> r.1.None?
    decreases |names|
  {
    if |names| == 0 then (0, None, fs)
    else match Step(fs, names[0])
      case Failure(e) => (-1, Some(e), fs)
      case Success(fs') => RunTests(fs', names[1..])
  }

  /**
   * The walk's outcome: an errno is that of a prefix that refuses; only
   * named prefixes become directories, and on success
   * every named prefix is available.
   */
  lemma {:induction false} RunTestsOutcome(fs: Fs, names: seq<string>)
    ensures var r := RunTests(fs, names);
      && r.2.others == fs.others && r.2.mkdirErrors == fs.mkdirErrors && fs.dirs <= r.2.dirs
      && (forall d :: d in r.2.dirs ==> d in fs.dirs || d in names)
      && (r.0 == 0 ==> forall k :: 0 <= k < |names| ==> Available(fs, r.2, names[k]))
      && (r.1.Some? ==> exists k :: 0 <= k < |names| && Refuses(fs, names[k], r.1.value))
    decreases |names|
  {
    if |names| > 0 && Step(fs, names[0]).Success? {
      var fs' := Step(fs, names[0]).value;
      RunTestsOutcome(fs', names[1..]);
      var rest := RunTests(fs', names[1..]);
      assert forall k :: 1 <= k < |names| ==> names[1..][k - 1] == names[k];
      if rest.1.Some? {
        var k :| 0 <= k < |names[1..]| && Refuses(fs', names[1..][k], rest.1.value);
        assert names[k + 1] == names[1..][k];
      }
    }
  }

  /** `mkdir_with_parents(pathname, mode)` as a function of the filesystem: `EINVAL` for no path, else the walk. */
  function MkdirSpec(pathname: Option<string>, fs: Fs): (r: (int, Option<Errno>, Fs))
    ensures r.0 == 0 || r.0 == -1
    ensures r.0 == 0 <==> r.1.None?
  {
    if pathname.None? || |pathname.value| == 0 then (-1, Some(EInval), fs)
    else RunTests(fs, Prefixes(pathname.value))
  }

  // ----- the walk over the copied string -----

  /** The C string held in `s`: everything before its first NUL. */
  function CString(s: seq<char>): (r: seq<char>)
    ensures |r| <= |s| && r == s[..|r|] && '\0' !in r
    ensures |r| < |s| ==> s[|r|] == '\0'
  {
    if |s| == 0 || s[0] == '\0' then []
    else [s[0]] + CString(s[1..])
  }

  lemma {:induction false} CStringBeforeNul(u: seq<char>, v: seq<char>)
    requires '\0' !in u
    ensures CString(u + ['\0'] + v) == u
  {
    if |u| > 0 {
      assert (u + ['\0'] + v)[1..] == u[1..] + ['\0'] + v;
      CStringBeforeNul(u[1..], v);
    }
  }

  /** `strdup(pathname)`: a fresh NUL-terminated copy. */
  method Strdup(path: string) returns (fn: array<char>)
    ensures fresh(fn) && fn[..] == path + ['\0']
  {
    fn := new char[|path| + 1];
    var i := 0;
    while i < |path|
      invariant 0 <= i <= |path|
      invariant fn[..i] == path[..i]
    {
      fn[i] := path[i];
      i := i + 1;
    }
    fn[|path|] := '\0';
    assert fn[..|path|] == path;
  }

  /** `while (*p && !IS_DIR_SEPARATOR (*p)) p++;`: the end of the component at `p`. */
  method SkipComponent(fn: array<char>, ghost path: string, p: nat) returns (q: nat)
    requires fn[..] == path + ['\0'] && '\0' !in path && p <= |path|
    ensures p <= q <= |path|
    ensures forall k :: p <= k < q ==> !IsDirSeparator(path[k])
    ensures q < |path| ==> IsDirSeparator(path[q])
  {
    q := p;
    while fn[q] != '\0' && !IsDirSeparator(fn[q])
      invariant p <= q <= |path|
      invariant forall k :: p <= k < q ==> !IsDirSeparator(path[k])
      decreases |path| - q
    {
      q := q + 1;
    }
  }

  /** `while (*p && IS_DIR_SEPARATOR (*p)) p++;`: the end of the run of separators at `p`. */
  method SkipSeparators(fn: array<char>, ghost path: string, p: nat) returns (q: nat)
    requires fn[..] == path + ['\0'] && '\0' !in path && p <= |path|
    ensures p <= q <= |path|
    ensures forall k :: p <= k < q ==> IsDirSeparator(path[k])
    ensures q < |path| ==> !IsDirSeparator(path[q])
  {
    q := p;
    while fn[q] != '\0' && IsDirSeparator(fn[q])
      invariant p <= q <= |path|
      invariant forall k :: p <= k < q ==> IsDirSeparator(path[k])
      decreases |path| - q
    {
      q := q + 1;
    }
  }

  /**
   * One round's test: end the copy at `cut` with a NUL (when `cut` is a
   * separator), test the prefix the C string now holds, and put the
   * separator back. The copy is whole again afterwards.
   */
  method TestPrefix(fn: array<char>, ghost path: string, cut: nat, fs: Fs) returns (step: Result<Fs, Errno>)
    modifies fn
    requires fn[..] == path + ['\0'] && '\0' !in path && cut <= |path|
    requires cut < |path| ==> IsDirSeparator(path[cut])
    ensures fn[..] == path + ['\0']
    ensures step == Step(fs, path[..cut])
  {
    if fn[cut] != '\0' {
      fn[cut] := '\0';
      assert fn[..] == path[..cut] + ['\0'] + (path[cut + 1..] + ['\0']);
      CStringBeforeNul(path[..cut], path[cut + 1..] + ['\0']);
      step := Step(fs, CString(fn[..]));
      fn[cut] := DirSeparator;
      assert fn[..] == path + ['\0'];
    } else {
      assert cut == |path| && path[..cut] == path;
      assert fn[..] == path + ['\0'] + [];
      CStringBeforeNul(path, []);
      step := Step(fs, CString(fn[..]));
    }
  }

  /**
   * `mkdir_with_parents(pathname, mode)`: copy the path, start after its root
   * when absolute, then repeatedly advance `p` to the next separator, test
   * (and create) the prefix before it, and skip the run of separators, until
   * the end of the path has been tested.
   */
  method MkdirWithParents(pathname: Option<string>, fs: Fs) returns (r: int, err: Option<Errno>, fs': Fs)
    requires pathname.Some? ==> '\0' !in pathname.value
    ensures (r, err, fs') == MkdirSpec(pathname, fs)
  {
    if pathname.None? || |pathname.value| == 0 {
      return -1, Some(EInval), fs;
    }
    var path := pathname.value;
    var fn := Strdup(path);
    var p: nat := 0;
    if IsAbsolutePath(path) == 1 {
      var root := PathSkipRoot(path);
      p := root.value;
    }
    NoCutsBetween(path, 0, p);
    fs' := fs;
    ghost var goal := RunTests(fs, Prefixes(path));
    r, err := 0, None;
    var done := false;
    while !done
      invariant 0 <= p <= |path|
      invariant fn[..] == path + ['\0']
      invariant !done ==> p == |path| || !IsDirSeparator(path[p])
      invariant !done ==> goal == RunTests(fs', PrefixesFrom(path, p) + [path])
      invariant done ==> goal == (r, err, fs')
      decreases |path| - p, if done then 0 else 1
    {
      var cut := SkipComponent(fn, path, p);
      var step := TestPrefix(fn, path, cut, fs');
      if cut == |path| {
        PrefixesStep(path, p, cut, cut);
        assert path[..cut] == path;
        assert PrefixesFrom(path, p) + [path] == [path[..cut]];
      } else {
        var next := SkipSeparators(fn, path, cut + 1);
        PrefixesStep(path, p, cut, next);
        assert PrefixesFrom(path, p) + [path] == [path[..cut]] + (PrefixesFrom(path, next) + [path]);
        if step.Success? {
          p := next;
        }
      }
      if step.Failure? {
        r, err, done := -1, Some(step.error), true;
      } else {
        fs' := step.value;
        if cut == |path| {
          r, err, done := 0, None, true;
        }
      }
    }
  }

  /**
   * What `mkdir_with_parents` promises: no path is `EINVAL`; 0 means the
   * path itself and the part before every cut are available as
   * directories; -1 names such a prefix that exists but is not a directory
   * (`ENOTDIR`) or that `mkdir` could not create. Only those prefixes can
   * have become directories, and nothing else changes.
   */
  lemma MkdirOutcome(pathname: Option<string>, fs: Fs)
    ensures var (r, err, fs') := MkdirSpec(pathname, fs);
      && (pathname.None? || pathname.value == [] ==> r == -1 && err == Some(EInval) && fs' == fs)
      && (r == 0 <==> err.None?)
      && (r == 0 || r == -1)
      && fs'.others == fs.others && fs'.mkdirErrors == fs.mkdirErrors && fs.dirs <= fs'.dirs
      && (pathname.Some? && pathname.value != [] ==>
          var path := pathname.value;
          && (forall d :: d in fs'.dirs ==> d in fs.dirs || d == path || EndsAtCut(path, 0, d))
          && (r == 0 ==> Available(fs, fs', path))
          && (r == 0 ==> forall i :: 0 <= i < |path| && IsCut(path, i) ==> Available(fs, fs', path[..i]))
          && (err.Some? ==> Refuses(fs, path, err.value) || exists i :: 0 <= i < |path| && IsCut(path, i) && Refuses(fs, path[..i], err.value)))
  {
    if pathname.Some? && pathname.value != [] {
      var path := pathname.value;
      var names := Prefixes(path);
      PrefixesFromCuts(path, 0);
      RunTestsOutcome(fs, names);
      var (r, err, fs') := RunTests(fs, names);
      assert names[|names| - 1] == path;
      forall d | d in fs'.dirs
        ensures d in fs.dirs || d == path || EndsAtCut(path, 0, d)
      {
        if d !in fs.dirs {
          var k :| 0 <= k < |names| && names[k] == d;
          if k < |names| - 1 {
            assert d == PrefixesFrom(path, 0)[k];
          }
        }
      }
      if r == 0 {
        forall i | 0 <= i < |path| && IsCut(path, i)
          ensures Available(fs, fs', path[..i])
        {
          var k :| 0 <= k < |PrefixesFrom(path, 0)| && PrefixesFrom(path, 0)[k] == path[..i];
          assert names[k] == path[..i];
        }
      }
      if err.Some? {
        var k :| 0 <= k < |names| && Refuses(fs, names[k], err.value);
        if k < |names| - 1 {
          assert EndsAtCut(path, 0, PrefixesFrom(path, 0)[k]);
          var i :| 0 <= i < |path| && IsCut(path, i) && names[k] == path[..i];
          assert Refuses(fs, path[..i], err.value);
        } else {
          assert Refuses(fs, path, err.value);
        }
      }
    }
  }

  /** A fresh absolute path: both levels are created, shortest first. */
  lemma CreatesEveryLevel()
    ensures MkdirSpec(Some("/a/b"), Fs({}, {}, map[])) == (0, None, Fs({"/a", "/a/b"}, {}, map[]))
  {
    var path := "/a/b";
    assert IsCut(path, 2) && !IsCut(path, 0) && !IsCut(path, 1) && !IsCut(path, 3);
    assert path[..2] == "/a";
    assert PrefixesFrom(path, 4) == [];
    assert PrefixesFrom(path, 3) == [];
    assert PrefixesFrom(path, 2) == [path[..2]] + [];
    assert PrefixesFrom(path, 0) == ["/a"];
    assert Prefixes(path) == ["/a", "/a/b"];
    var fs0 := Fs({}, {}, map[]);
    var fs1 := Fs({"/a"}, {}, map[]);
    var fs2 := Fs({"/a", "/a/b"}, {}, map[]);
    assert "/a" !in fs0.mkdirErrors && !Exists(fs0, "/a");
    assert fs0.(dirs := fs0.dirs + {"/a"}) == fs1;
    assert Mkdir(fs0, "/a") == Success(fs1);
    assert Step(fs0, "/a") == Success(fs1);
    assert "/a/b" != "/a" && "/a/b" !in fs1.dirs;
    assert "/a/b" !in fs1.mkdirErrors && !Exists(fs1, "/a/b");
    assert fs1.(dirs := fs1.dirs + {"/a/b"}) == fs2;
    assert Mkdir(fs1, "/a/b") == Success(fs2);
    assert Step(fs1, "/a/b") == Success(fs2);
    assert ["/a", "/a/b"][1..] == ["/a/b"];
    assert ["/a/b"][1..] == [];
  }

  /** A plain file in the way stops the walk with `ENOTDIR` before anything is created. */
  lemma FileInTheWay()
    ensures MkdirSpec(Some("log/run"), Fs({}, {"log"}, map[])) == (-1, Some(ENotDir), Fs({}, {"log"}, map[]))
  {
    var path := "log/run";
    assert IsCut(path, 3);
    assert forall i :: 0 <= i < |path| && i != 3 ==> !IsCut(path, i);
    NoCutsBetween(path, 4, |path|);
    NoCutsBetween(path, 0, 3);
    assert PrefixesFrom(path, |path|) == [];
    assert path[..3] == "log";
    assert PrefixesFrom(path, 3) == [path[..3]] + PrefixesFrom(path, 4);
    assert PrefixesFrom(path, 0) == ["log"];
    assert Prefixes(path)[0] == "log";
  }
}
