/**
 * The two POSIX path helpers the notifier relies on, as Python's `posixpath`
 * defines them: `basename` (everything after the last separator) and
 * `splitext` (split off the last extension, where leading dots of the final
 * component never start one).
 */
module Paths {

  /** The POSIX path separator. */
  const Sep: char := '/'

  /** The extension separator. */
  const ExtSep: char := '.'

  /** Index of the last `c` in `s`, or -1 when `c` does not occur (Python's `str.rfind`). */
  function LastIndex(s: string, c: char): (r: int)
    ensures -1 <= r < |s|
    ensures r >= 0 ==> s[r] == c
    ensures forall j :: r < j < |s| ==> s[j] != c
  {
    if |s| == 0 then -1
    else if s[|s| - 1] == c then |s| - 1
    else LastIndex(s[..|s| - 1], c)
  }

  /** An occurrence with no later occurrence is the last one. */
  lemma LastIndexAt(s: string, c: char, i: int)
    requires 0 <= i < |s| && s[i] == c
    requires forall j :: i < j < |s| ==> s[j] != c
    ensures LastIndex(s, c) == i
  {
  }

  /** Without any occurrence, `LastIndex` reports -1. */
  lemma LastIndexAbsent(s: string, c: char)
    requires c !in s
    ensures LastIndex(s, c) == -1
  {
  }

  /**
   * `posixpath.basename`: the suffix of `p` after its last separator. It is the
   * longest suffix free of separators: it holds no separator, and it is either
   * the whole path or preceded by a separator.
   */
  function Basename(p: string): (r: string)
    ensures Sep !in r
    ensures |r| <= |p| && p[|p| - |r|..] == r
    ensures |r| == |p| || p[|p| - |r| - 1] == Sep
  {
    p[LastIndex(p, Sep) + 1..]
  }

  /** The three properties in `Basename`'s contract determine it. */
  lemma BasenameUnique(p: string, s: string)
    requires Sep !in s
    requires |s| <= |p| && p[|p| - |s|..] == s
    requires |s| == |p| || p[|p| - |s| - 1] == Sep
    ensures Basename(p) == s
  {
  }

  /** The basename of `dir/name` is `name` when `name` holds no separator. */
  lemma BasenameOfJoin(dir: string, name: string)
    requires Sep !in name
    ensures Basename(dir + [Sep] + name) == name
  {
    var p := dir + [Sep] + name;
    assert p[|p| - |name|..] == name;
    assert p[|p| - |name| - 1] == Sep;
    BasenameUnique(p, name);
  }

  /** Some character of `p` at an index in `[lo, hi)` is not a dot. */
  predicate HasNonDot(p: string, lo: int, hi: int) {
    exists k :: lo <= k < hi && 0 <= k < |p| && p[k] != ExtSep
  }

  /**
   * `posixpath.splitext`: `(root, ext)` with `root + ext == p`. A non-empty
   * `ext` starts at the last dot, holds no other dot and no separator, and the
   * final path component has a non-dot character before that dot (leading dots
   * never start an extension).
   */
  function SplitExt(p: string): (r: (string, string))
    ensures r.0 + r.1 == p
    ensures r.1 != [] ==> r.1[0] == ExtSep && ExtSep !in r.1[1..] && Sep !in r.1
    ensures r.1 != [] ==> HasNonDot(p, LastIndex(p, Sep) + 1, |r.0|)
  {
    var sepIndex := LastIndex(p, Sep);
    var dotIndex := LastIndex(p, ExtSep);
    if dotIndex > sepIndex && HasNonDot(p, sepIndex + 1, dotIndex) then
      (p[..dotIndex], p[dotIndex..])
    else
      (p, [])
  }

  /**
   * Completeness of `SplitExt`: when the final component has a dot with a
   * non-dot character somewhere before it, an extension is split off, and it
   * starts at the last dot.
   */
  lemma SplitExtFindsExtension(p: string, k: int, d: int)
    requires LastIndex(p, Sep) < k < d < |p|
    requires p[k] != ExtSep && p[d] == ExtSep
    ensures SplitExt(p).1 != []
    ensures SplitExt(p).0 == p[..LastIndex(p, ExtSep)]
  {
    var dotIndex := LastIndex(p, ExtSep);
    assert d <= dotIndex;
    assert LastIndex(p, Sep) + 1 <= k < dotIndex && p[k] != ExtSep;
  }

  /**
   * Only the last extension is removed: `stem.ext` splits into `stem` and
   * `.ext` whenever `ext` holds no dot or separator and `stem` has a non-dot
   * character (so `x.tar.gz` keeps `x.tar`).
   */
  lemma SplitExtStripsLastExtension(stem: string, ext: string)
    requires Sep !in stem && Sep !in ext && ExtSep !in ext
    requires HasNonDot(stem, 0, |stem|)
    ensures SplitExt(stem + [ExtSep] + ext) == (stem, [ExtSep] + ext)
  {
    var p := stem + [ExtSep] + ext;
    assert forall j :: 0 <= j < |p| ==> p[j] != Sep by {
      forall j | 0 <= j < |p| ensures p[j] != Sep {
        if j < |stem| { assert p[j] == stem[j]; }
        else if j > |stem| { assert p[j] == ext[j - |stem| - 1]; }
      }
    }
    LastIndexAbsent(p, Sep);
    forall j | |stem| < j < |p| ensures p[j] != ExtSep {
      assert p[j] == ext[j - |stem| - 1];
    }
    LastIndexAt(p, ExtSep, |stem|);
    var k :| 0 <= k < |stem| && stem[k] != ExtSep;
    assert p[k] == stem[k];
    assert HasNonDot(p, 0, |stem|);
    assert p[..|stem|] == stem;
    assert p[|stem|..] == [ExtSep] + ext;
  }

  /**
   * A name made of leading dots followed by a dot-free rest has no extension:
   * `.bashrc` and `..x` stay whole.
   */
  lemma SplitExtLeadingDots(dots: string, rest: string)
    requires forall i :: 0 <= i < |dots| ==> dots[i] == ExtSep
    requires Sep !in rest && ExtSep !in rest
    ensures SplitExt(dots + rest) == (dots + rest, [])
  {
    var p := dots + rest;
    assert forall j :: 0 <= j < |p| ==> p[j] != Sep by {
      forall j | 0 <= j < |p| ensures p[j] != Sep {
        if j >= |dots| { assert p[j] == rest[j - |dots|]; }
      }
    }
    LastIndexAbsent(p, Sep);
    var dotIndex := LastIndex(p, ExtSep);
    if dotIndex >= 0 {
      assert dotIndex < |dots|;
      assert !HasNonDot(p, 0, dotIndex) by {
        forall k | 0 <= k < dotIndex ensures p[k] == ExtSep {
          assert p[k] == dots[k];
        }
      }
    }
  }

  /** The notification's file name: the basename with its last extension removed. */
  function FileName(p: string): (r: string)
    ensures Sep !in r
    ensures |r| <= |Basename(p)| && Basename(p)[..|r|] == r
  {
    SplitExt(Basename(p)).0
  }

  /** `x.tar.gz` loses only `.gz`. */
  lemma TarGzKeepsInnerExtension()
    ensures SplitExt("x.tar.gz") == ("x.tar", ".gz")
  {
    assert "x.tar" + [ExtSep] + "gz" == "x.tar.gz";
    assert "x.tar"[0] != ExtSep;
    SplitExtStripsLastExtension("x.tar", "gz");
  }
}
