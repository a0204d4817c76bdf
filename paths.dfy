/** The two `path/filepath` functions `main` uses, for `/`-separated paths
    only (no volume names, no other separator). A path is a string. */
module Paths {

  /** The last index below `n` at which `p` holds `c`, or -1 if there is none. */
  function LastIndexOf(p: string, c: char, n: nat): (k: int)
    requires n <= |p|
    ensures -1 <= k < n
    ensures 0 <= k ==> p[k] == c
    ensures forall j :: k < j < n ==> p[j] != c
  {
    if n == 0 then -1 else if p[n - 1] == c then n - 1 else LastIndexOf(p, c, n - 1)
  }

  /** The last index below `n` at which `p` holds something other than `/`,
      or -1 if there is none. */
  function LastNonSlash(p: string, n: nat): (k: int)
    requires n <= |p|
    ensures -1 <= k < n
    ensures 0 <= k ==> p[k] != '/'
    ensures forall j :: k < j < n ==> p[j] == '/'
  {
    if n == 0 then -1 else if p[n - 1] != '/' then n - 1 else LastNonSlash(p, n - 1)
  }

  /** The index where the final element of `p` starts: just after its last
      `/`, or 0 when it has none. */
  function ElementStart(p: string): (i: nat)
    ensures i <= |p|
    ensures 0 < i ==> p[i - 1] == '/'
    ensures forall j :: i <= j < |p| ==> p[j] != '/'
  {
    LastIndexOf(p, '/', |p|) + 1
  }

  /** The path with every trailing `/` removed. */
  function StripTrailingSlashes(p: string): (r: string)
    ensures |r| <= |p| && r == p[..|r|]
    ensures r == [] || r[|r| - 1] != '/'
    ensures forall k :: |r| <= k < |p| ==> p[k] == '/'
  {
    p[..LastNonSlash(p, |p|) + 1]
  }

  /** The text after the last `/` of `p`, or all of `p` when it has none. */
  function LastElement(p: string): (r: string)
    ensures |r| <= |p| && r == p[|p| - |r|..]
    ensures '/' !in r
    ensures |r| < |p| ==> p[|p| - |r| - 1] == '/'
  {
    p[ElementStart(p)..]
  }

  /** `filepath.Ext`: the suffix of `p` that starts at the last `.` of its
      final element, or the empty string when that element has no `.`. The
      suffix is `.` followed by characters that are neither `.` nor `/`. */
  function Ext(p: string): (r: string)
    ensures |r| <= |p| && r == p[|p| - |r|..]
    ensures r == [] || r[0] == '.'
    ensures forall k :: 0 < k < |r| ==> r[k] != '.' && r[k] != '/'
    ensures r == [] ==> '.' !in LastElement(p)
  {
    var dot := LastIndexOf(p, '.', |p|);
    if dot >= ElementStart(p) then p[dot..] else []
  }

  /** `filepath.Base`: the last element of `p` once trailing slashes are
      dropped; `.` for the empty path and `/` for a path of slashes only. */
  function Base(p: string): (r: string)
    ensures p == [] ==> r == "."
    ensures p != [] ==> (r == "/" <==> forall k :: 0 <= k < |p| ==> p[k] == '/')
    ensures r != []
    ensures '/' in r ==> r == "/"
  {
    if p == [] then "."
    else
      var s := StripTrailingSlashes(p);
      if s == [] then "/"
      else
        var e := LastElement(s);
        assert e != [] by { assert |e| < |s| ==> s[|s| - |e| - 1] == '/'; }
        e
  }

  /** `LastIndexOf` finds `i` when `p[i] == c` and no later index below `n`
      holds `c`. */
  lemma LastIndexAt(p: string, c: char, n: nat, i: nat)
    requires i < n <= |p| && p[i] == c
    requires forall j :: i < j < n ==> p[j] != c
    ensures LastIndexOf(p, c, n) == i
  {
  }

  /** `LastIndexOf` stays below `i` when no index from `i` up to `n` holds `c`. */
  lemma LastIndexBelow(p: string, c: char, n: nat, i: nat)
    requires n <= |p|
    requires forall j :: i <= j < n ==> p[j] != c
    ensures LastIndexOf(p, c, n) < i
  {
  }

  /** The final element of `dir + "/" + name` is `name` when `name` has no
      `/`. */
  lemma LastElementAfterSlash(dir: string, name: string)
    requires '/' !in name
    ensures LastElement(dir + "/" + name) == name
  {
    var p := dir + "/" + name;
    assert forall j :: |dir| < j < |p| ==> p[j] == name[j - |dir| - 1];
    LastIndexAt(p, '/', |p|, |dir|);
    assert p[|dir| + 1..] == name;
  }

  /** A path with no `/` is its own final element. */
  lemma LastElementOfName(name: string)
    requires '/' !in name
    ensures LastElement(name) == name
  {
    LastIndexBelow(name, '/', |name|, 0);
  }

  /** `LastNonSlash` finds `i` when `p[i]` is not `/` and only `/` follows it
      below `n`. */
  lemma LastNonSlashAt(p: string, n: nat, i: nat)
    requires i < n <= |p| && p[i] != '/'
    requires forall j :: i < j < n ==> p[j] == '/'
    ensures LastNonSlash(p, n) == i
  {
  }

  /** `Base` by its meaning: when `p[i..j]` is a non-empty run without `/`
      that starts the path or follows a `/`, and only `/` comes after it,
      then `p[i..j]` is the base name of `p`. */
  lemma BaseOfElement(p: string, i: nat, j: nat)
    requires i < j <= |p|
    requires i == 0 || p[i - 1] == '/'
    requires forall k :: i <= k < j ==> p[k] != '/'
    requires forall k :: j <= k < |p| ==> p[k] == '/'
    ensures Base(p) == p[i..j]
  {
    LastNonSlashAt(p, |p|, j - 1);
    var s := StripTrailingSlashes(p);
    assert s == p[..j];
    if i == 0 {
      LastIndexBelow(s, '/', j, 0);
    } else {
      LastIndexAt(s, '/', j, i - 1);
    }
    assert LastElement(s) == s[i..];
  }

  /** A path is the part before its extension followed by the extension. */
  lemma ExtSplits(p: string)
    ensures p[..|p| - |Ext(p)|] + Ext(p) == p
  {
    var e := Ext(p);
    assert e == p[|p| - |e|..];
  }
}
