/** The string and path helpers the listeners call: `str.replace`, `str.startswith`,
    `str.removeprefix`, and POSIX `os.path.dirname`, `os.path.join`, `os.path.splitext`. */
module Paths {

  predicate StartsWith(s: string, prefix: string) {
    |prefix| <= |s| && s[..|prefix|] == prefix
  }

  /** `s.removeprefix(prefix)` */
  function RemovePrefix(s: string, prefix: string): (r: string)
    ensures StartsWith(s, prefix) ==> prefix + r == s
    ensures !StartsWith(s, prefix) ==> r == s
  {
    if StartsWith(s, prefix) then
      assert s == s[..|prefix|] + s[|prefix|..];
      s[|prefix|..]
    else s
  }

  /** `pattern` occurs nowhere in `s`. */
  predicate NoOccurrence(s: string, pattern: string) {
    forall k :: 0 <= k <= |s| ==> !StartsWith(s[k..], pattern)
  }

  lemma NoOccurrenceTail(s: string, pattern: string)
    requires s != []
    ensures NoOccurrence(s, pattern) ==> NoOccurrence(s[1..], pattern)
  {
    if NoOccurrence(s, pattern) {
      forall k | 0 <= k <= |s[1..]|
        ensures !StartsWith(s[1..][k..], pattern)
      {
        assert s[1..][k..] == s[k + 1..];
      }
    }
  }

  /** `s.replace(pattern, replacement)`: every non-overlapping occurrence, left to right. */
  function ReplaceAll(s: string, pattern: string, replacement: string): (r: string)
    requires pattern != ""
    ensures |s| < |pattern| ==> r == s
    ensures NoOccurrence(s, pattern) ==> r == s
    ensures StartsWith(s, pattern) ==> StartsWith(r, replacement)
    decreases |s|
  {
    if |s| < |pattern| then s
    else if s[..|pattern|] == pattern then
      assert !NoOccurrence(s, pattern) by {
        assert s[0..] == s;
      }
      replacement + ReplaceAll(s[|pattern|..], pattern, replacement)
    else
      var rest := ReplaceAll(s[1..], pattern, replacement);
      NoOccurrenceTail(s, pattern);
      assert [s[0]] + s[1..] == s;
      [s[0]] + rest
  }

  /** The index of the last `c` in `s`, or -1 (`str.rfind`). */
  function LastIndexOf(s: string, c: char): (r: int)
    ensures -1 <= r < |s|
    ensures r >= 0 ==> s[r] == c
    ensures forall k :: r < k < |s| ==> s[k] != c
    ensures r == -1 <==> c !in s
  {
    if s == [] then -1
    else if s[|s| - 1] == c then |s| - 1
    else
      assert s == s[..|s| - 1] + [s[|s| - 1]];
      LastIndexOf(s[..|s| - 1], c)
  }

  predicate AllSlashes(s: string) {
    forall k :: 0 <= k < |s| ==> s[k] == '/'
  }

  /** `s.rstrip("/")` */
  function RStripSlashes(s: string): (r: string)
    ensures |r| <= |s| && r == s[..|r|]
    ensures r == "" || r[|r| - 1] != '/'
    ensures forall k :: |r| <= k < |s| ==> s[k] == '/'
    ensures r == "" ==> AllSlashes(s)
  {
    if s != [] && s[|s| - 1] == '/' then RStripSlashes(s[..|s| - 1]) else s
  }

  /** POSIX `os.path.dirname(p)`: everything up to the last `/`, trailing slashes
      removed unless that would leave nothing but the root. */
  function Dirname(p: string): (r: string)
    ensures |r| <= |p| && r == p[..|r|]
    ensures r == "" || r[|r| - 1] != '/' || AllSlashes(r)
  {
    var head := p[..LastIndexOf(p, '/') + 1];
    if head != "" && !AllSlashes(head) then RStripSlashes(head) else head
  }

  /** `not os.path.dirname(f)` holds exactly of names without a `/`. */
  lemma DirnameEmptyIff(p: string)
    ensures Dirname(p) == "" <==> '/' !in p
  {
    var i := LastIndexOf(p, '/');
    if i >= 0 {
      assert p[..i + 1][i] == '/';
    }
  }

  /** POSIX `os.path.join(a, b)` for two components. */
  function Join(a: string, b: string): (r: string)
    ensures |b| > 0 && b[0] == '/' ==> r == b
    ensures !(|b| > 0 && b[0] == '/') ==> |a| + |b| <= |r| && r[..|a|] == a && r[|r| - |b|..] == b
  {
    if |b| > 0 && b[0] == '/' then b
    else if a == "" || a[|a| - 1] == '/' then a + b
    else a + "/" + b
  }

  /** The extension part of POSIX `os.path.splitext(p)`: from the last `.` of the last
      component, unless that component has only dots before it (`.bashrc` has none). */
  function Extension(p: string): (r: string)
    ensures r == "" || (r[0] == '.' && |r| <= |p| && r == p[|p| - |r|..])
    ensures r != "" ==> '.' !in r[1..] && '/' !in r
    ensures '.' !in p ==> r == ""
  {
    var sep := LastIndexOf(p, '/');
    var dot := LastIndexOf(p, '.');
    if dot > sep && exists k :: sep + 1 <= k < dot && p[k] != '.' then
      var r := p[dot..];
      assert forall j :: 0 <= j < |r| ==> r[j] == p[dot + j];
      r
    else ""
  }

  /** `splitext("a.tar.gz")` splits at the last dot only. */
  lemma ExtensionLastDot()
    ensures Extension("a.tar.gz") == ".gz"
  {
    var p := "a.tar.gz";
    var dot := LastIndexOf(p, '.');
    assert p[5] == '.' && p[6] != '.' && p[7] != '.';
    assert dot == 5;
    assert LastIndexOf(p, '/') == -1;
    assert p[0] != '.';
  }

  /** A leading dot does not start an extension: `splitext(".bashrc")` has none. */
  lemma ExtensionLeadingDot()
    ensures Extension(".bashrc") == ""
  {
    var p := ".bashrc";
    assert p[0] == '.' && forall j :: 1 <= j < |p| ==> p[j] != '.';
    assert LastIndexOf(p, '.') == 0;
  }
}
