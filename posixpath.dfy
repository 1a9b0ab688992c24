/**
 * The POSIX flavour of Python's `os.path` pieces the tool uses:
 * `os.path.curdir` and `os.path.splitext`.
 */
module PosixPath {

  /** `os.path.curdir`. */
  const CurDir: string := "."

  /** `s.rfind(c)`: the last position holding `c`, or -1. */
  function RFind(s: string, c: char): (i: int)
    ensures -1 <= i < |s|
    ensures 0 <= i ==> s[i] == c
    ensures forall k :: i < k < |s| ==> s[k] != c
  {
    if |s| == 0 then -1
    else if s[|s| - 1] == c then |s| - 1
    else RFind(s[..|s| - 1], c)
  }

  predicate AllDots(s: string) {
    forall k :: 0 <= k < |s| ==> s[k] == '.'
  }

  /**
   * The extension of `p` starts at position `k`: `p[k]` is the last `.` of the
   * last path component, and that component holds some character other than
   * `.` before it (so `.bashrc` and `..` have no extension).
   */
  ghost predicate ExtensionAt(p: string, k: int) {
    && 0 <= k < |p|
    && p[k] == '.'
    && (forall m :: k < m < |p| ==> p[m] != '.' && p[m] != '/')
    && (exists j :: 0 <= j < k && p[j] != '.' && p[j] != '/' && forall m :: j < m < k ==> p[m] != '/')
  }

  /** `os.path.splitext(p)` on POSIX: `(root, ext)` with `root + ext == p`. */
  function SplitExt(p: string): (r: (string, string))
    ensures r.0 + r.1 == p
  {
    var sep := RFind(p, '/');
    var dot := RFind(p, '.');
    if dot > sep && !AllDots(p[sep + 1..dot]) then
      (p[..dot], p[dot..])
    else
      (p, [])
  }

  /** `RFind` is pinned down by its contract: -1, or the last occurrence. */
  lemma RFindIs(s: string, c: char, k: int)
    requires -1 <= k < |s|
    requires 0 <= k ==> s[k] == c
    requires forall m :: k < m < |s| ==> s[m] != c
    ensures RFind(s, c) == k
  {
  }

  /** The last dot of the last component that follows a non-dot starts an extension. */
  lemma ExtensionAtLastDot(p: string, sep: int, dot: int)
    requires sep == RFind(p, '/') && dot == RFind(p, '.')
    requires dot > sep && !AllDots(p[sep + 1..dot])
    ensures ExtensionAt(p, dot)
  {
    var i :| 0 <= i < |p[sep + 1..dot]| && p[sep + 1..dot][i] != '.';
    assert p[sep + 1 + i] == p[sep + 1..dot][i];
  }

  /** Only the last dot can start an extension. */
  lemma ExtensionOnlyAtLastDot(p: string, k: int)
    requires ExtensionAt(p, k)
    ensures k == RFind(p, '.') && RFind(p, '/') < k
  {
  }

  lemma AllDotsBetween(p: string, sep: int, dot: int)
    requires -1 <= sep < dot <= |p| && AllDots(p[sep + 1..dot])
    ensures forall i :: sep < i < dot ==> p[i] == '.'
  {
    forall i | sep < i < dot ensures p[i] == '.' {
      assert p[sep + 1..dot][i - sep - 1] == p[i];
    }
  }

  /** No position is an extension when the last component before its last dot is all dots. */
  lemma NoExtensionWhenAllDots(p: string, sep: int, dot: int, k: int)
    requires sep == RFind(p, '/') && dot == RFind(p, '.')
    requires dot <= sep || AllDots(p[sep + 1..dot])
    ensures !ExtensionAt(p, k)
  {
    if 0 <= k < |p| && p[k] == '.' && (forall m :: k < m < |p| ==> p[m] != '.' && p[m] != '/') {
      assert k == dot && sep < k;
      AllDotsBetween(p, sep, dot);
      forall j | 0 <= j < k && p[j] != '.' && p[j] != '/'
        ensures exists m :: j < m < k && p[m] == '/'
      {
        assert j < sep && p[sep] == '/';
      }
    }
  }

  /** A found extension is a dot followed by neither dots nor slashes. */
  lemma ExtensionShape(p: string)
    requires SplitExt(p).1 != []
    ensures var ext := SplitExt(p).1;
      ext[0] == '.' && forall m :: 0 < m < |ext| ==> ext[m] != '.' && ext[m] != '/'
  {
    SplitExtFound(p);
    var dot := |SplitExt(p).0|;
    assert forall m :: 0 <= m < |SplitExt(p).1| ==> SplitExt(p).1[m] == p[dot + m];
  }

  /** When `SplitExt` finds an extension, the path has one there. */
  lemma SplitExtFound(p: string)
    requires SplitExt(p).1 != []
    ensures ExtensionAt(p, |SplitExt(p).0|)
  {
    ExtensionAtLastDot(p, RFind(p, '/'), RFind(p, '.'));
  }

  /** When `SplitExt` finds no extension, the path has none anywhere. */
  lemma SplitExtNotFound(p: string, k: int)
    requires SplitExt(p).1 == []
    ensures !ExtensionAt(p, k)
  {
    NoExtensionWhenAllDots(p, RFind(p, '/'), RFind(p, '.'), k);
  }

  // The sample lemmas name their path through a parameter rather than a
  // literal argument, which keeps the verifier from unrolling RFind on it.

  lemma SplitExtPySample(p: string)
    requires p == "/path/to/sample.py"
    ensures SplitExt(p) == ("/path/to/sample", ".py")
  {
    RFindIs(p, '.', 15);
    RFindIs(p, '/', 8);
    assert p[9..15][0] == 's';
    assert p[..15] == "/path/to/sample";
    assert p[15..] == ".py";
  }

  lemma SplitExtCppSample(p: string)
    requires p == "/path/to/sample.cpp"
    ensures SplitExt(p) == ("/path/to/sample", ".cpp")
  {
    RFindIs(p, '.', 15);
    RFindIs(p, '/', 8);
    assert p[9..15][0] == 's';
    assert p[..15] == "/path/to/sample";
    assert p[15..] == ".cpp";
  }

  /** Only the last dot splits. */
  lemma SplitExtLastDot(p: string)
    requires p == "a.b.c"
    ensures SplitExt(p) == ("a.b", ".c")
  {
    RFindIs(p, '.', 3);
    RFindIs(p, '/', -1);
    assert p[0..3][0] == 'a';
    assert p[..3] == "a.b";
    assert p[3..] == ".c";
  }

  /** A leading dot does not start an extension, so the current directory has none. */
  lemma SplitExtLeadingDot(p: string)
    requires p == ".bashrc" || p == CurDir
    ensures SplitExt(p) == (p, "")
  {
    RFindIs(p, '.', 0);
  }
}
