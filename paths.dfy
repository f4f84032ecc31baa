/** The output-path rules of the builders, over POSIX paths: `os.path.basename`,
    `os.path.splitext` and `os.path.join` as Python defines them, and the file names
    each module composes from them. The timestamp (`datetime.now()` formatted as
    `%Y-%m-%d-%H-%M-%S`) is a parameter. */
module Paths {
  import opened Mesh

  /** Index of the last `c` among the first `n` characters of `s`, or -1. */
  function LastIndexBelow(s: string, c: char, n: nat): (r: int)
    requires n <= |s|
    ensures -1 <= r < n
    ensures r >= 0 ==> s[r] == c
    ensures forall k :: r < k < n ==> s[k] != c
  {
    if n == 0 then -1
    else if s[n - 1] == c then n - 1
    else LastIndexBelow(s, c, n - 1)
  }

  /** Index of the last `c` in `s`, or -1 (`str.rfind`). */
  function LastIndex(s: string, c: char): (r: int)
    ensures -1 <= r < |s|
    ensures r >= 0 ==> s[r] == c
    ensures forall k :: r < k < |s| ==> s[k] != c
  {
    LastIndexBelow(s, c, |s|)
  }

  /** `LastIndex` is the only index with its three properties. */
  lemma LastIndexUnique(s: string, c: char, r: int)
    requires -1 <= r < |s| && (r >= 0 ==> s[r] == c)
    requires forall k :: r < k < |s| ==> s[k] != c
    ensures LastIndex(s, c) == r
  {
  }

  /** The last `c` of `a + b` is the last one of `b`, or the last one of `a` when `b`
      has none. */
  lemma LastIndexConcat(a: string, b: string, c: char)
    ensures LastIndex(a + b, c) ==
      if LastIndex(b, c) >= 0 then |a| + LastIndex(b, c) else LastIndex(a, c)
  {
    var s, rb, ra := a + b, LastIndex(b, c), LastIndex(a, c);
    var r := if rb >= 0 then |a| + rb else ra;
    forall k | r < k < |s|
      ensures s[k] != c
    {
      assert k < |a| ==> s[k] == a[k];
      assert k >= |a| ==> s[k] == b[k - |a|];
    }
    LastIndexUnique(s, c, r);
  }

  /** `os.path.basename`: everything after the last `/`. */
  function Basename(p: string): string
  {
    p[LastIndex(p, '/') + 1..]
  }

  predicate AllDots(s: string)
  {
    forall k :: 0 <= k < |s| ==> s[k] == '.'
  }

  /** `os.path.splitext`: the extension runs from the last `.` of the last component,
      provided that component has a character other than `.` before it (so leading
      dots, as in `.stl`, do not start an extension). */
  function SplitExt(p: string): (string, string)
  {
    var sep, dot := LastIndex(p, '/'), LastIndex(p, '.');
    if dot > sep && !AllDots(p[sep + 1..dot]) then (p[..dot], p[dot..]) else (p, "")
  }

  /** `os.path.join` of two components. */
  function Join(a: string, b: string): string
  {
    if |b| > 0 && b[0] == '/' then b
    else if a == "" || a[|a| - 1] == '/' then a + b
    else a + "/" + b
  }

  /** `c` does not occur in `s`. */
  predicate Free(s: string, c: char)
  {
    forall k :: 0 <= k < |s| ==> s[k] != c
  }

  lemma FreeConcat(a: string, b: string, c: char)
    requires Free(a, c) && Free(b, c)
    ensures Free(a + b, c)
  {
    forall k | 0 <= k < |a + b|
      ensures (a + b)[k] != c
    {
      assert k < |a| ==> (a + b)[k] == a[k];
      assert k >= |a| ==> (a + b)[k] == b[k - |a|];
    }
  }

  lemma FreeSlice(s: string, c: char, i: int, j: int)
    requires Free(s, c) && 0 <= i <= j <= |s|
    ensures Free(s[i..j], c)
  {
    forall k | 0 <= k < j - i
      ensures s[i..j][k] != c
    {
      assert s[i..j][k] == s[i + k];
    }
  }

  lemma AfterLast(p: string, c: char, i: int)
    requires i == LastIndex(p, c)
    ensures Free(p[i + 1..], c)
  {
  }

  /** Splitting loses nothing. */
  lemma SplitExtJoins(p: string)
    ensures SplitExt(p).0 + SplitExt(p).1 == p
  {
    var sep, dot := LastIndex(p, '/'), LastIndex(p, '.');
    if dot > sep && !AllDots(p[sep + 1..dot]) {
      assert p[..dot] + p[dot..] == p;
    }
  }

  /** The extension is empty, or one `.` followed by neither a `.` nor a `/`. */
  lemma SplitExtSuffix(p: string)
    ensures var e := SplitExt(p).1;
      e == "" || (e[0] == '.' && Free(e[1..], '.') && Free(e[1..], '/'))
  {
    var sep, dot := LastIndex(p, '/'), LastIndex(p, '.');
    if dot > sep && !AllDots(p[sep + 1..dot]) {
      AfterLast(p, '.', dot);
      AfterLast(p, '/', sep);
      assert p[dot..][1..] == p[dot + 1..];
      assert p[dot + 1..] == p[sep + 1..][dot - sep..];
      FreeSlice(p[sep + 1..], '/', dot - sep, |p| - sep - 1);
    }
  }

  /** The basename holds no `/`. */
  lemma BasenameFree(p: string)
    ensures Free(Basename(p), '/')
  {
    AfterLast(p, '/', LastIndex(p, '/'));
  }

  lemma SliceJoin(p: string, n: int)
    requires 0 <= n <= |p|
    ensures p == p[..|p| - |p[n..]|] + p[n..]
  {
    assert |p| - |p[n..]| == n;
    assert p[..n] + p[n..] == p;
  }

  /** The basename is a suffix of the path. */
  lemma BasenameSuffix(p: string)
    ensures p == p[..|p| - |Basename(p)|] + Basename(p)
  {
    SliceJoin(p, LastIndex(p, '/') + 1);
  }

  /** Joining a directory that does not end in `/` with a name without `/` puts one
      `/` between them, and the basename of the result is the name back. */
  lemma JoinName(dir: string, name: string)
    requires dir != "" && dir[|dir| - 1] != '/' && Free(name, '/')
    ensures Join(dir, name) == dir + "/" + name
    ensures Basename(Join(dir, name)) == name
  {
    LastIndexUnique(name, '/', -1);
    LastIndexConcat(dir + "/", name, '/');
    assert LastIndex(dir + "/", '/') == |dir|;
    assert (dir + "/" + name)[|dir| + 1..] == name;
  }

  /** Below a directory, `splitext` splits the file name alone. */
  lemma SplitExtBelow(dir: string, name: string)
    requires Free(name, '/')
    ensures SplitExt(dir + "/" + name) == (dir + "/" + SplitExt(name).0, SplitExt(name).1)
  {
    var d := dir + "/";
    var p := d + name;
    assert p == dir + "/" + name;
    LastIndexUnique(name, '/', -1);
    LastIndexConcat(d, name, '/');
    assert LastIndex(d, '/') == |dir|;
    LastIndexConcat(d, name, '.');
    var dotN := LastIndex(name, '.');
    if dotN >= 0 {
      assert p[|d|..|d| + dotN] == name[..dotN];
      assert p[..|d| + dotN] == d + name[..dotN];
      assert p[|d| + dotN..] == name[dotN..];
    }
  }

  function ImageOutputDir(): string { "output/image-to-stl" }

  function TextOutputDir(): string { "output/text-to-stl" }

  function RepairOutputDir(): string { "output/stl-repair" }

  predicate EndsWith(s: string, suffix: string)
  {
    |suffix| <= |s| && s[|s| - |suffix|..] == suffix
  }

  function Stamped(stem: string, useTimestamp: bool, timestamp: string): string
  {
    if useTimestamp then stem + "_" + timestamp else stem
  }

  /** A stamped name is free of `/` when its parts are. */
  lemma StampedFree(stem: string, useTimestamp: bool, timestamp: string, ext: string)
    requires Free(stem, '/') && Free(timestamp, '/') && Free(ext, '/')
    ensures Free(Stamped(stem, useTimestamp, timestamp) + ext, '/')
  {
    if useTimestamp {
      FreeConcat(stem, "_", '/');
      FreeConcat(stem + "_", timestamp, '/');
    }
    FreeConcat(Stamped(stem, useTimestamp, timestamp), ext, '/');
  }

  /** The image converter's output path: a path ending in `.stl` loses its directory
      and is placed in the converter's output directory, with `_<timestamp>` after
      the stem when asked; any other path is used as given, without a timestamp. */
  function ImageOutputPath(outputPath: string, useTimestamp: bool, timestamp: string): string
  {
    if EndsWith(outputPath, ".stl") then
      var parts := SplitExt(Basename(outputPath));
      Join(ImageOutputDir(), Stamped(parts.0, useTimestamp, timestamp) + parts.1)
    else outputPath
  }

  /** A `.stl` path whose file name has a character other than `.` before its
      extension becomes `output/image-to-stl/<stem>[_<timestamp>].stl`, where
      `<stem>.stl` is its file name; other paths come back unchanged. */
  lemma ImageOutputPathShape(outputPath: string, useTimestamp: bool, timestamp: string)
    ensures !EndsWith(outputPath, ".stl") ==> ImageOutputPath(outputPath, useTimestamp, timestamp) == outputPath
    ensures EndsWith(outputPath, ".stl") && Free(timestamp, '/') && !AllDots(Basename(outputPath)[..|Basename(outputPath)| - 4]) ==>
      var name := Basename(outputPath);
      var stem := name[..|name| - 4];
      ImageOutputPath(outputPath, useTimestamp, timestamp) ==
        ImageOutputDir() + "/" + (Stamped(stem, useTimestamp, timestamp) + ".stl")
  {
    var name := Basename(outputPath);
    if EndsWith(outputPath, ".stl") && Free(timestamp, '/') && !AllDots(name[..|name| - 4]) {
      StlBasename(outputPath);
      BasenameFree(outputPath);
      var stem := name[..|name| - 4];
      StlSplit(name);
      FreeSlice(name, '/', 0, |name| - 4);
      StampedFree(stem, useTimestamp, timestamp, ".stl");
      JoinName(ImageOutputDir(), Stamped(stem, useTimestamp, timestamp) + ".stl");
    }
  }

  /** A path ending in `.stl` has a file name ending in `.stl`. */
  lemma StlBasename(p: string)
    requires EndsWith(p, ".stl")
    ensures |Basename(p)| >= 4 && EndsWith(Basename(p), ".stl")
  {
    var i := LastIndex(p, '/');
    var n := |p|;
    assert p[n - 4..] == ".stl";
    assert p[n - 4] != '/' && p[n - 3] != '/' && p[n - 2] != '/' && p[n - 1] != '/';
    SuffixOfSuffix(p, i + 1, 4);
  }

  lemma SuffixOfSuffix(p: string, i: int, k: int)
    requires 0 <= i <= |p| - k && 0 <= k
    ensures p[i..][|p| - i - k..] == p[|p| - k..]
  {
  }

  /** A file name `<stem>.stl` whose stem is not all dots splits into the stem and
      `.stl`. */
  lemma StlSplit(name: string)
    requires EndsWith(name, ".stl") && Free(name, '/') && !AllDots(name[..|name| - 4])
    ensures SplitExt(name) == (name[..|name| - 4], ".stl")
  {
    assert name[|name| - 4..] == ".stl";
    assert name[|name| - 4] == '.';
    LastIndexUnique(name, '.', |name| - 4);
    LastIndexUnique(name, '/', -1);
    assert name[0..|name| - 4] == name[..|name| - 4];
  }

  /** The text converter's output path: `<filename>[_<timestamp>].stl` in its output
      directory. */
  function TextOutputPath(filename: string, useTimestamp: bool, timestamp: string): string
  {
    Join(TextOutputDir(), Stamped(filename, useTimestamp, timestamp) + ".stl")
  }

  /** For a file name and timestamp without `/`, the text converter writes
      `output/text-to-stl/<filename>[_<timestamp>].stl`. */
  lemma TextOutputPathShape(filename: string, useTimestamp: bool, timestamp: string)
    requires Free(filename, '/') && Free(timestamp, '/')
    ensures var r := TextOutputPath(filename, useTimestamp, timestamp);
      r == TextOutputDir() + "/" + (Stamped(filename, useTimestamp, timestamp) + ".stl") &&
      Basename(r) == Stamped(filename, useTimestamp, timestamp) + ".stl"
  {
    StampedFree(filename, useTimestamp, timestamp, ".stl");
    JoinName(TextOutputDir(), Stamped(filename, useTimestamp, timestamp) + ".stl");
  }

  /** The repaired file's name before any timestamp. */
  function RepairName(inputFile: string, outputPath: Option<string>): string
  {
    match outputPath
    case None => SplitExt(Basename(inputFile)).0 + "_repaired.stl"
    case Some(p) => Basename(p)
  }

  /** The repair tool's output path: `<input stem>_repaired.stl` when no path is
      given, otherwise the given path's file name; always in the repair output
      directory; with a timestamp, `_<timestamp>` goes before the extension. */
  function RepairOutputPath(inputFile: string, outputPath: Option<string>, useTimestamp: bool, timestamp: string): string
  {
    var path := Join(RepairOutputDir(), RepairName(inputFile, outputPath));
    if useTimestamp then
      var parts := SplitExt(path);
      parts.0 + "_" + timestamp + parts.1
    else path
  }

  /** The repaired file's name holds no `/`. */
  lemma RepairNameFree(inputFile: string, outputPath: Option<string>)
    ensures Free(RepairName(inputFile, outputPath), '/')
  {
    match outputPath {
      case None =>
        var b := Basename(inputFile);
        BasenameFree(inputFile);
        StemFree(b, '/');
        RepairedSuffixFree();
        FreeConcat(SplitExt(b).0, "_repaired.stl", '/');
      case Some(p) =>
        BasenameFree(p);
    }
  }

  /** The stem `splitext` returns has no character its argument lacks. */
  lemma StemFree(p: string, c: char)
    requires Free(p, c)
    ensures Free(SplitExt(p).0, c)
  {
    var sep, dot := LastIndex(p, '/'), LastIndex(p, '.');
    if dot > sep && !AllDots(p[sep + 1..dot]) {
      FreeSlice(p, c, 0, dot);
      assert p[0..dot] == p[..dot];
    }
  }

  lemma RepairedSuffixFree()
    ensures Free("_repaired.stl", '/')
  {
  }

  /** The repaired file always lands directly in the repair output directory, named
      after the given path's file name (or the input's stem), with the timestamp
      inserted before the extension that name had. */
  lemma RepairOutputPathShape(inputFile: string, outputPath: Option<string>, useTimestamp: bool, timestamp: string)
    ensures var name := RepairName(inputFile, outputPath);
      var parts := SplitExt(name);
      RepairOutputPath(inputFile, outputPath, useTimestamp, timestamp) ==
        if useTimestamp then RepairOutputDir() + "/" + parts.0 + "_" + timestamp + parts.1
        else RepairOutputDir() + "/" + name
  {
    var name := RepairName(inputFile, outputPath);
    RepairNameFree(inputFile, outputPath);
    JoinName(RepairOutputDir(), name);
    SplitExtBelow(RepairOutputDir(), name);
  }
}
