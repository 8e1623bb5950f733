/**
 * The few `os.path` operations the exporter applies to a file's path: `basename`,
 * `dirname`, `join` and `splitext`, with POSIX semantics ('/' is the only separator).
 */
module Paths {

  /** `s.rfind(c)`: the index of the last `c` in `s`, or -1. */
  function LastIndexOf(s: string, c: char): (i: int)
    ensures -1 <= i < |s|
    ensures i >= 0 ==> s[i] == c
    ensures forall j :: i < j < |s| ==> s[j] != c
    decreases |s|
  {
    if s == [] then -1
    else if s[|s| - 1] == c then |s| - 1
    else LastIndexOf(s[..|s| - 1], c)
  }

  predicate AllSlashes(s: string) { forall i :: 0 <= i < |s| ==> s[i] == '/' }

  /** `s.rstrip('/')`. */
  function StripTrailingSlashes(s: string): (r: string)
    ensures r <= s
    ensures r == [] || r[|r| - 1] != '/'
    ensures forall i :: |r| <= i < |s| ==> s[i] == '/'
    decreases |s|
  {
    if s != [] && s[|s| - 1] == '/' then
      var t := s[..|s| - 1];
      var r := StripTrailingSlashes(t);
      assert forall i :: |r| <= i < |t| ==> s[i] == t[i];
      r
    else s
  }

  /** `os.path.basename`: what follows the last separator. */
  function Basename(p: string): (r: string)
    ensures '/' !in r
    ensures |r| <= |p| && r == p[|p| - |r|..]
    ensures |r| == |p| || p[|p| - |r| - 1] == '/'
  {
    var i := LastIndexOf(p, '/');
    assert forall k :: i + 1 <= k < |p| ==> p[k] != '/';
    p[i + 1..]
  }

  /**
   * `os.path.dirname`: everything up to the last separator, with the trailing
   * separators dropped unless that part consists of separators only.
   */
  function Dirname(p: string): (r: string)
    ensures r <= p
    ensures r == [] <==> '/' !in p
    ensures AllSlashes(r) || r[|r| - 1] != '/'
    ensures |r| <= |p| - |Basename(p)|
    ensures AllSlashes(p[|r|..|p| - |Basename(p)|])
    ensures AllSlashes(r) ==> r == p[..|p| - |Basename(p)|]
  {
    var i := LastIndexOf(p, '/');
    var head := p[..i + 1];
    assert |head| == |p| - |Basename(p)|;
    if head != [] && !AllSlashes(head) then
      var r := StripTrailingSlashes(head);
      assert forall k :: |r| <= k < |head| ==> p[k] == head[k];
      r
    else head
  }

  /** `os.path.join(a, b)` for two components. */
  function Join(a: string, b: string): (r: string)
    ensures b != [] && b[0] == '/' ==> r == b
    ensures b == [] || b[0] != '/' ==> |b| <= |r| && r[|r| - |b|..] == b
    ensures b == [] || b[0] != '/' ==>
      && a <= r
      && (|r| == |a| + |b| + 1 <==> a != [] && a[|a| - 1] != '/')
      && (|r| != |a| + |b| + 1 ==> |r| == |a| + |b|)
      && (|r| == |a| + |b| + 1 ==> r[|a|] == '/')
  {
    if b != [] && b[0] == '/' then b
    else if a == [] || a[|a| - 1] == '/' then a + b
    else a + "/" + b
  }

  /**
   * `os.path.splitext` on a name without separators: the extension starts at the
   * last '.', provided some character before that '.' is not a '.' (so a leading
   * dot, as in ".bashrc", does not start an extension).
   */
  function SplitExt(name: string): (r: (string, string))
    ensures r.0 + r.1 == name
    ensures r.1 == [] || (r.1[0] == '.' && '.' !in r.1[1..])
    ensures r.1 == [] <==> forall j :: 0 <= j < LastIndexOf(name, '.') ==> name[j] == '.'
  {
    var d := LastIndexOf(name, '.');
    if exists j :: 0 <= j < d && name[j] != '.' then (name[..d], name[d..]) else (name, [])
  }

  /** `os.path.splitext(os.path.basename(p))[0]`: the file name without its extension. */
  function Stem(p: string): (r: string)
    ensures '/' !in r
    ensures exists ext :: r + ext == Basename(p) && (ext == [] || (ext[0] == '.' && '.' !in ext[1..]))
    ensures r == Basename(p) <==>
      forall j :: 0 <= j < LastIndexOf(Basename(p), '.') ==> Basename(p)[j] == '.'
  {
    SplitExt(Basename(p)).0
  }
}
