/** POSIX path handling from Python's `posixpath`: `splitext`, `basename` and
    the two-argument `join`. The separator is `/` and the extension separator
    is `.`; there is no alternative separator. */
module Paths {
  import opened Strings

  /** `os.path.splitext(p)`: the extension runs from the last `.` of the last
      path component, unless that component has only dots before it (so
      `.gitignore` and `..` have no extension). */
  function Splitext(p: string): (r: (string, string))
    ensures r.0 + r.1 == p
    ensures r.1 == [] || (r.1[0] == '.' && '/' !in r.1 && '.' !in r.1[1..])
  {
    var sep := LastIndexOf(p, '/');
    var dot := LastIndexOf(p, '.');
    if sep < dot && NonDotBetween(p, sep, dot) then
      assert p[..dot] + p[dot..] == p;
      assert forall k :: dot < k < |p| ==> p[k] != '.' && p[k] != '/';
      (p[..dot], p[dot..])
    else
      (p, [])
  }

  /** Some character strictly between positions `lo` and `hi` of `s` is not a `.`. */
  predicate NonDotBetween(s: string, lo: int, hi: int)
  {
    exists k :: lo < k < hi && 0 <= k < |s| && s[k] != '.'
  }

  /** The extension part of `os.path.splitext(p)`. */
  function Extension(p: string): string
  {
    Splitext(p).1
  }

  /** `os.path.basename(p)`: everything after the last `/`. */
  function Basename(p: string): (b: string)
    ensures '/' !in b
    ensures EndsWith(p, b)
    ensures |b| < |p| ==> p[|p| - |b| - 1] == '/'
  {
    var sep := LastIndexOf(p, '/');
    assert p[|p| - |p[sep + 1..]|..] == p[sep + 1..];
    p[sep + 1..]
  }

  /** `os.path.join(a, b)`: an absolute `b` replaces `a`; otherwise a `/` is
      inserted unless `a` is empty or already ends with one. */
  function Join(a: string, b: string): (r: string)
    ensures EndsWith(r, b)
    ensures StartsWith(b, "/") ==> r == b
    ensures !StartsWith(b, "/") ==> r == a + b || r == a + "/" + b
    ensures !StartsWith(b, "/") ==> (r == a + b <==> a == [] || EndsWith(a, "/"))
  {
    if StartsWith(b, "/") then b
    else if a == [] || EndsWith(a, "/") then
      assert (a + b)[|a + b| - |b|..] == b;
      assert (a + b)[..|a|] == a;
      a + b
    else
      assert (a + "/" + b)[|a + "/" + b| - |b|..] == b;
      assert (a + "/" + b)[..|a|] == a;
      a + "/" + b
  }

  /** Where the last `c` of `p` lies relative to a split point `start`. */
  lemma LastIndexOfSuffix(p: string, start: int, c: char)
    requires 0 <= start <= |p|
    ensures c in p[start..] ==> LastIndexOf(p, c) == start + LastIndexOf(p[start..], c)
    ensures c !in p[start..] ==> LastIndexOf(p, c) < start
  {
    var s := p[start..];
    assert forall k :: start <= k < |p| ==> p[k] == s[k - start];
    if c in s {
      assert p[start + LastIndexOf(s, c)] == c;
    }
  }

  /** The extension depends only on the last path component. */
  lemma ExtensionOfBasename(p: string)
    ensures Extension(p) == Extension(Basename(p))
  {
    var start := LastIndexOf(p, '/') + 1;
    var b := Basename(p);
    assert b == p[start..];
    assert LastIndexOf(b, '/') == -1;
    LastIndexOfSuffix(p, start, '.');
    if '.' in b {
      var bdot := LastIndexOf(b, '.');
      NonDotBetweenShift(p, start, -1, bdot);
      assert p[start + bdot..] == b[bdot..];
    }
  }

  /** Looking for a non-dot inside a suffix of `p` is looking inside `p`, shifted. */
  lemma NonDotBetweenShift(p: string, start: int, lo: int, hi: int)
    requires 0 <= start <= |p| && -1 <= lo && hi <= |p| - start
    ensures NonDotBetween(p[start..], lo, hi) <==> NonDotBetween(p, lo + start, hi + start)
  {
    var s := p[start..];
    if NonDotBetween(s, lo, hi) {
      var k :| lo < k < hi && 0 <= k < |s| && s[k] != '.';
      assert p[k + start] == s[k];
    }
    if NonDotBetween(p, lo + start, hi + start) {
      var k :| lo + start < k < hi + start && 0 <= k < |p| && p[k] != '.';
      assert s[k - start] == p[k];
    }
  }

  /** A component has an extension exactly when it holds a `.` with some
      character other than `.` before it. */
  lemma ExtensionCharacterisation(p: string)
    ensures Extension(p) != [] <==>
      exists k, i :: 0 <= k < i < |Basename(p)| && Basename(p)[k] != '.' && Basename(p)[i] == '.'
  {
    ExtensionOfBasename(p);
    var b := Basename(p);
    assert LastIndexOf(b, '/') == -1;
    var dot := LastIndexOf(b, '.');
    if exists k, i :: 0 <= k < i < |b| && b[k] != '.' && b[i] == '.' {
      var k, i :| 0 <= k < i < |b| && b[k] != '.' && b[i] == '.';
      assert -1 < k < dot && b[k] != '.';
      assert NonDotBetween(b, -1, dot);
    }
  }

  /** Joining a plain file name to a directory gives back that name as the basename. */
  lemma BasenameOfJoin(root: string, name: string)
    requires '/' !in name
    ensures Basename(Join(root, name)) == name
  {
    var j := Join(root, name);
    var start := |j| - |name|;
    assert j[start..] == name;
    LastIndexOfSuffix(j, start, '/');
    if start > 0 {
      assert j[start - 1] == '/';
    }
  }

  /** Joining a plain file name to a directory does not change its extension. */
  lemma ExtensionOfJoin(root: string, name: string)
    requires '/' !in name
    ensures Extension(Join(root, name)) == Extension(name)
  {
    BasenameOfJoin(root, name);
    ExtensionOfBasename(Join(root, name));
    BasenameOfPlainName(name);
    ExtensionOfBasename(name);
  }

  /** A name without `/` is its own basename. */
  lemma BasenameOfPlainName(name: string)
    requires '/' !in name
    ensures Basename(name) == name
  {
    assert LastIndexOf(name, '/') == -1;
    assert name[0..] == name;
  }

  /** Suffix tests on a joined path see only the file name, when the suffix
      has no `/` in it. */
  lemma EndsWithJoin(root: string, name: string, suffix: string)
    requires '/' !in name && '/' !in suffix
    ensures EndsWith(Join(root, name), suffix) <==> EndsWith(name, suffix)
  {
    var j := Join(root, name);
    if |name| < |suffix| <= |j| {
      BasenameOfJoin(root, name);
      assert j[|j| - |suffix|..][|suffix| - |name| - 1] == '/';
    }
    if EndsWith(name, suffix) {
      assert j[|j| - |suffix|..] == name[|name| - |suffix|..];
    }
  }

  /** A path that ends in a suffix of the shape of an extension has that
      suffix as its extension, or none at all. */
  lemma ExtensionOfSuffix(p: string, suffix: string)
    requires EndsWith(p, suffix)
    requires |suffix| > 0 && suffix[0] == '.' && '.' !in suffix[1..] && '/' !in suffix
    ensures Extension(p) == suffix || Extension(p) == []
  {
    var start := |p| - |suffix|;
    assert p[start..] == suffix;
    assert p[start] == '.';
    assert forall k :: start < k < |p| ==> p[k] == suffix[1..][k - start - 1];
    assert LastIndexOf(p, '.') == start;
    assert LastIndexOf(p, '/') < start by {
      LastIndexOfSuffix(p, start, '/');
    }
  }
}
