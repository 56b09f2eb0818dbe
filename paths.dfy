/** POSIX path text as the source manipulates it with `os.path`. */
module Paths {

  type Path = string

  predicate EndsWith(s: string, suffix: string) {
    |suffix| <= |s| && s[|s| - |suffix|..] == suffix
  }

  /** A suffix of a suffix is a suffix. */
  lemma EndsWithTrans(s: string, t: string, u: string)
    requires EndsWith(s, t) && EndsWith(t, u)
    ensures EndsWith(s, u)
  {
    forall k | 0 <= k < |u| ensures s[|s| - |u| + k] == u[k] {
      assert s[|s| - |t|..][|t| - |u| + k] == t[|t| - |u| + k];
    }
  }

  /** `os.path.join(a, b)` for two components. */
  function Join(a: Path, b: string): (r: Path)
    ensures |b| > 0 && b[0] == '/' ==> r == b
  {
    if |b| > 0 && b[0] == '/' then b
    else if a == "" || a[|a| - 1] == '/' then a + b
    else a + "/" + b
  }

  /** `os.path.basename`: everything after the last '/'. */
  function Basename(p: Path): (r: string)
    ensures '/' !in r
  {
    if |p| == 0 || p[|p| - 1] == '/' then "" else Basename(p[..|p| - 1]) + [p[|p| - 1]]
  }

  /** A joined path ends with its last component. */
  lemma JoinEndsWith(a: Path, b: string)
    ensures EndsWith(Join(a, b), b)
  {
  }

  /** The base name is the tail of the path after its last '/'. */
  lemma {:induction false} BasenameShape(p: Path)
    ensures EndsWith(p, Basename(p))
    ensures |Basename(p)| < |p| ==> p[|p| - |Basename(p)| - 1] == '/'
    decreases |p|
  {
    if |p| > 0 && p[|p| - 1] != '/' {
      var init := p[..|p| - 1];
      BasenameShape(init);
      assert init + [p[|p| - 1]] == p;
    }
  }

  /** Index of the last occurrence of `c`, or -1. */
  function LastIndexOf(s: string, c: char): (i: int)
    ensures -1 <= i < |s|
    ensures i >= 0 ==> s[i] == c
    ensures forall k :: i < k < |s| ==> s[k] != c
  {
    if |s| == 0 then -1
    else if s[|s| - 1] == c then |s| - 1
    else LastIndexOf(s[..|s| - 1], c)
  }

  /**
   * The first half of `os.path.splitext` on a base name: the text before the
   * last '.', unless that dot is preceded only by dots (a hidden file).
   */
  function StripExt(base: string): (r: string)
    ensures |r| <= |base| && base[..|r|] == r
  {
    var d := LastIndexOf(base, '.');
    if d > 0 && exists k :: 0 <= k < d && base[k] != '.' then base[..d] else base
  }

  /** Joining a name without '/' and taking the base name gives the name back. */
  lemma {:induction false} BasenameOfJoin(dir: Path, name: string)
    requires '/' !in name
    ensures Basename(Join(dir, name)) == name
    decreases |name|
  {
    if |name| == 0 {
      var p := Join(dir, name);
      assert p == "" || p[|p| - 1] == '/';
    } else {
      var init := name[..|name| - 1];
      var c := name[|name| - 1];
      assert name == init + [c];
      JoinSnoc(dir, init, c);
      BasenameSnoc(Join(dir, init), c);
      BasenameOfJoin(dir, init);
    }
  }

  lemma JoinSnoc(dir: Path, init: string, c: char)
    requires '/' !in init && c != '/'
    ensures Join(dir, init + [c]) == Join(dir, init) + [c]
  {
    if |init| == 0 {
      assert init + [c] == [c];
    }
  }

  lemma BasenameSnoc(p: Path, c: char)
    requires c != '/'
    ensures Basename(p + [c]) == Basename(p) + [c]
  {
    assert (p + [c])[..|p|] == p;
  }

  /** `splitext` removes exactly the last extension of an ordinary name. */
  lemma StripExtOfNamed(stem: string, ext: string)
    requires '.' !in ext
    requires exists k :: 0 <= k < |stem| && stem[k] != '.'
    ensures StripExt(stem + "." + ext) == stem
  {
    var b := stem + "." + ext;
    var d := LastIndexOf(b, '.');
    assert b[|stem|] == '.';
    assert forall k :: |stem| < k < |b| ==> b[k] == ext[k - |stem| - 1];
    assert d == |stem|;
    var k :| 0 <= k < |stem| && stem[k] != '.';
    assert b[k] == stem[k];
    assert b[..d] == stem;
  }

  /** `x` is among the first `n` elements of `xs`. */
  predicate InFirst<T(==)>(xs: seq<T>, n: nat, x: T)
    requires n <= |xs|
  {
    n > 0 && (xs[n - 1] == x || InFirst(xs, n - 1, x))
  }

  /** Being among the first `n` elements is membership in the prefix of length `n`. */
  lemma {:induction false} InFirstMeaning<T>(xs: seq<T>, n: nat, x: T)
    requires n <= |xs|
    ensures InFirst(xs, n, x) <==> x in xs[..n]
  {
    if n > 0 {
      InFirstMeaning(xs, n - 1, x);
      assert xs[..n] == xs[..n - 1] + [xs[n - 1]];
    }
  }
}
