// The base name of a path, as the tools print it.

module Helpers {
  /** The last position at or before i that is not a '/', or 0 when there is none after
      the first character (which is then kept whatever it is). */
  function LastKept(s: string, i: nat): (k: nat)
    requires i < |s|
    ensures k <= i && (k == 0 || s[k] != '/') && forall j | k < j <= i :: s[j] == '/'
  {
    if i == 0 || s[i] != '/' then i else LastKept(s, i - 1)
  }

  /** The start of the name that ends at i: just after the nearest '/' before i, or 0. */
  function NameStart(s: string, i: nat): (b: nat)
    requires i < |s|
    ensures b <= i && (b == 0 || s[b - 1] == '/') && forall j | b <= j < i :: s[j] != '/'
  {
    if i == 0 || s[i - 1] == '/' then i else NameStart(s, i - 1)
  }

  /** The base name of a path: "." for the empty path; otherwise, with trailing '/'s
      dropped, the last component. */
  function Basename(s: string): string
  {
    if |s| == 0 then "."
    else
      var e := LastKept(s, |s| - 1);
      s[NameStart(s, e)..e + 1]
  }

  /** strbasename: two scans down from the end of the path, the first over the trailing
      '/'s and the second back to the '/' before the name. */
  method StrBasename(s: string) returns (r: string)
    ensures r == Basename(s)
  {
    if |s| == 0 {
      return ".";
    }
    var i := |s| - 1;
    while i != 0 && s[i] == '/'
      invariant 0 <= i < |s| && LastKept(s, i) == LastKept(s, |s| - 1)
    {
      i := i - 1;
    }
    var end := i + 1;
    while i != 0 && s[i - 1] != '/'
      invariant 0 <= i < end && NameStart(s, i) == NameStart(s, end - 1)
    {
      i := i - 1;
    }
    return s[i..end];
  }

  predicate AllSlashes(s: string)
  {
    forall k | 0 <= k < |s| :: s[k] == '/'
  }

  /** A non-empty path has a non-empty base name that is a piece of it; it is "/" when the
      path is all '/'s, and holds no '/' otherwise. */
  lemma BasenameShape(s: string)
    requires |s| > 0
    ensures var r := Basename(s);
      |r| > 0 && (exists b, e | 0 <= b < e <= |s| :: r == s[b..e]) &&
      (AllSlashes(s) ==> r == "/") &&
      (!AllSlashes(s) ==> forall k | 0 <= k < |r| :: r[k] != '/')
  {
    var e := LastKept(s, |s| - 1);
    var b := NameStart(s, e);
    var r := s[b..e + 1];
    assert r == s[b..e + 1];
    if AllSlashes(s) {
      assert e == 0;
    } else {
      var k0 :| 0 <= k0 < |s| && s[k0] != '/';
      assert s[e] != '/';
      forall k | 0 <= k < |r|
        ensures r[k] != '/'
      {
        assert r[k] == s[b + k];
      }
    }
  }

  /** The base name of a directory path joined with a name holding no '/', with or without
      '/'s after it, is that name. */
  lemma {:induction false} BasenameOfJoin(dir: string, name: string, trailing: nat)
    requires |name| > 0 && forall k | 0 <= k < |name| :: name[k] != '/'
    ensures Basename(dir + "/" + name + Slashes(trailing)) == name
  {
    var s := dir + "/" + name + Slashes(trailing);
    var last := |dir| + |name|;
    assert s[last] == name[|name| - 1];
    TrailingKept(s, last, |s| - 1);
    var b := |dir| + 1;
    assert s[b - 1] == '/';
    NameStartAt(s, b, last);
    assert s[b..last + 1] == name;
  }

  /** A run of n '/'s. */
  function Slashes(n: nat): (r: string)
    ensures |r| == n && forall k | 0 <= k < n :: r[k] == '/'
  {
    if n == 0 then "" else Slashes(n - 1) + "/"
  }

  lemma {:induction false} TrailingKept(s: string, k: nat, i: nat)
    requires k <= i < |s| && s[k] != '/' && forall j | k < j <= i :: s[j] == '/'
    ensures LastKept(s, i) == k
    decreases i
  {
    if i > k {
      TrailingKept(s, k, i - 1);
    }
  }

  lemma {:induction false} NameStartAt(s: string, b: nat, i: nat)
    requires 0 < b <= i < |s| && s[b - 1] == '/' && forall j | b <= j < i :: s[j] != '/'
    ensures NameStart(s, i) == b
    decreases i
  {
    if i > b {
      NameStartAt(s, b, i - 1);
    }
  }
}
