/**
 * `path.posix.dirname` of Node.js, which the template compiler's asset base
 * is derived from. The function is part of Node's library rather than of the
 * plugin; it is modelled after Node's algorithm: scan from the right,
 * skipping trailing slashes, and cut at the first slash met after a
 * non-slash character, never at index 0.
 */
module PosixPath {

  /** Index k (at least 1) holds a slash that has a non-slash character
      somewhere after it: a place where dirname may cut. */
  ghost predicate IsCut(p: string, k: int) {
    && 1 <= k < |p|
    && p[k] == '/'
    && exists j :: k < j < |p| && p[j] != '/'
  }

  /** The scan loop: i walks down from the last index to 1; matchedSlash
      stays true while only slashes have been seen. -1 when no cut exists. */
  function ScanEnd(p: string, i: int, matchedSlash: bool): (end: int)
    requires 0 <= i < |p|
    ensures end == -1 || 1 <= end <= i
    decreases i
  {
    if i < 1 then -1
    else if p[i] == '/' then
      if !matchedSlash then i else ScanEnd(p, i - 1, matchedSlash)
    else ScanEnd(p, i - 1, false)
  }

  /** `path.posix.dirname(p)`. */
  function Dirname(p: string): string {
    if |p| == 0 then "."
    else
      var hasRoot := p[0] == '/';
      var end := ScanEnd(p, |p| - 1, true);
      if end == -1 then (if hasRoot then "/" else ".")
      else if hasRoot && end == 1 then "//"
      else p[..end]
  }

  /** The scan finds the rightmost cut at or below i. */
  lemma {:induction false} ScanEndFindsLastCut(p: string, i: int, matchedSlash: bool)
    requires 0 <= i < |p|
    requires matchedSlash <==> forall j :: i < j < |p| ==> p[j] == '/'
    ensures var e := ScanEnd(p, i, matchedSlash);
      || (e == -1 && forall k :: 1 <= k <= i ==> !IsCut(p, k))
      || (1 <= e <= i && IsCut(p, e) && forall k :: e < k <= i ==> !IsCut(p, k))
    decreases i
  {
    if i >= 1 {
      if p[i] == '/' {
        if !matchedSlash {
          var j :| i < j < |p| && p[j] != '/';
          assert IsCut(p, i);
        } else {
          ScanEndFindsLastCut(p, i - 1, matchedSlash);
          assert !IsCut(p, i);
        }
      } else {
        assert !IsCut(p, i);
        assert p[i] != '/';
        ScanEndFindsLastCut(p, i - 1, false);
      }
    }
  }

  /** What dirname returns: "." for the empty path; the root "/" (or "." for
      a relative path) when there is no cut; "//" when the cut is right after
      a leading slash; otherwise everything before the rightmost cut. */
  lemma DirnameMeaning(p: string)
    ensures |p| == 0 ==> Dirname(p) == "."
    ensures |p| > 0 && (forall k :: !IsCut(p, k)) ==> Dirname(p) == (if p[0] == '/' then "/" else ".")
    ensures forall e :: IsCut(p, e) && (forall k :: e < k ==> !IsCut(p, k)) ==>
      Dirname(p) == (if p[0] == '/' && e == 1 then "//" else p[..e])
  {
    if |p| > 0 {
      ScanEndFindsLastCut(p, |p| - 1, true);
      var end := ScanEnd(p, |p| - 1, true);
      forall e | IsCut(p, e) && (forall k :: e < k ==> !IsCut(p, k))
        ensures end == e
      {
      }
    }
  }

  /** The usual public path of a component, `/<dir>/<file>`: the asset base is
      `/<dir>`. */
  lemma DirnameOfNestedFile(dir: string, file: string)
    requires |dir| > 0 && |file| > 0
    requires forall i :: 0 <= i < |dir| ==> dir[i] != '/'
    requires forall i :: 0 <= i < |file| ==> file[i] != '/'
    ensures Dirname("/" + dir + "/" + file) == "/" + dir
  {
    var p := "/" + dir + "/" + file;
    var e := |dir| + 1;
    assert p[e] == '/' && p[|p| - 1] == file[|file| - 1];
    assert IsCut(p, e);
    forall k | e < k
      ensures !IsCut(p, k)
    {
      if 1 <= k < |p| {
        assert p[k] == file[k - e - 1];
      }
    }
    DirnameMeaning(p);
    assert p[..e] == "/" + dir;
  }

  /** A file at the root: the asset base is the root. */
  lemma DirnameOfRootFile(file: string)
    requires |file| > 0
    requires forall i :: 0 <= i < |file| ==> file[i] != '/'
    ensures Dirname("/" + file) == "/"
  {
    var p := "/" + file;
    forall k
      ensures !IsCut(p, k)
    {
      if 1 <= k < |p| {
        assert p[k] == file[k - 1];
      }
    }
    DirnameMeaning(p);
  }

  /** The scan only reads indices up to i. */
  lemma {:induction false} ScanEndPrefix(p: string, q: string, i: int, matchedSlash: bool)
    requires 0 <= i < |p| <= |q| && p == q[..|p|]
    ensures ScanEnd(q, i, matchedSlash) == ScanEnd(p, i, matchedSlash)
    decreases i
  {
    if i >= 1 {
      assert q[i] == p[i];
      ScanEndPrefix(p, q, i - 1, p[i] == '/' && matchedSlash);
    }
  }

  /** A trailing slash is ignored: `/a/b/` has the dirname of `/a/b`. */
  lemma DirnameIgnoresTrailingSlash(p: string)
    requires |p| > 0
    ensures Dirname(p + "/") == Dirname(p)
  {
    var q := p + "/";
    assert q[..|p|] == p;
    ScanEndPrefix(p, q, |p| - 1, true);
  }
}
