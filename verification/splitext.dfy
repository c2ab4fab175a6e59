/**
 * The extension split performed by Python's `os.path.splitext` on a POSIX
 * system: the extension starts at the last '.' of the last path component,
 * provided that component holds some character other than '.' before that
 * dot (leading dots never start an extension).
 */
module PathExt {

  /** The position of the last `c` in `s[..n]`, or -1 when there is none. */
  function LastIndexBefore(s: string, c: char, n: nat): (r: int)
    requires n <= |s|
    ensures -1 <= r < n
    ensures r >= 0 ==> s[r] == c
    ensures forall k :: r < k < n ==> s[k] != c
  {
    if n == 0 then -1
    else if s[n - 1] == c then n - 1
    else LastIndexBefore(s, c, n - 1)
  }

  /** The position of the last `c` in `s`, or -1 when `s` has none (Python's `str.rfind`). */
  function LastIndex(s: string, c: char): (r: int)
    ensures -1 <= r < |s|
    ensures r >= 0 ==> s[r] == c
    ensures forall k :: r < k < |s| ==> s[k] != c
  {
    LastIndexBefore(s, c, |s|)
  }

  /** Every character of `p` from `lo` up to (not including) `hi` is a '.'. */
  predicate DotsOnly(p: string, lo: int, hi: int)
    requires 0 <= lo && hi <= |p|
  {
    forall k :: lo <= k < hi ==> p[k] == '.'
  }

  /**
   * The pair (root, ext) returned by `os.path.splitext(p)`. The extension is
   * taken only when the last '.' lies after the last '/' and the part of the
   * last component before that dot is not made of dots alone.
   */
  function SplitExt(p: string): (r: (string, string))
    ensures r.0 + r.1 == p
    ensures r.1 == [] || IsSingleExt(r.1)
  {
    var sepIndex := LastIndex(p, '/');
    var dotIndex := LastIndex(p, '.');
    if dotIndex > sepIndex && !DotsOnly(p, sepIndex + 1, dotIndex) then
      TailAfterLastDot(p, dotIndex, sepIndex);
      (p[..dotIndex], p[dotIndex..])
    else
      (p, "")
  }

  /** A single extension: a '.' followed by characters that are neither '.' nor '/'. */
  predicate IsSingleExt(ext: string)
  {
    |ext| > 0 && ext[0] == '.' && forall k :: 1 <= k < |ext| ==> ext[k] != '.' && ext[k] != '/'
  }

  lemma TailAfterLastDot(p: string, dotIndex: int, sepIndex: int)
    requires -1 <= sepIndex < dotIndex < |p| && p[dotIndex] == '.'
    requires forall k :: dotIndex < k < |p| ==> p[k] != '.'
    requires forall k :: sepIndex < k < |p| ==> p[k] != '/'
    ensures IsSingleExt(p[dotIndex..])
  {
  }

  /**
   * An independent description of when a path has an extension: some '.' at
   * position `i` is preceded, at `j`, by a character other than '.', with no
   * '/' anywhere from `j` on.
   */
  ghost predicate HasExt(p: string)
  {
    exists j, i :: 0 <= j < i < |p| && p[j] != '.' && p[i] == '.' && NoSlashFrom(p, j)
  }

  predicate NoSlashFrom(p: string, j: nat)
  {
    forall k :: j <= k < |p| ==> p[k] != '/'
  }

  /** `SplitExt` finds an extension exactly when the path has one in the sense of `HasExt`. */
  lemma SplitExtFindsExt(p: string)
    ensures SplitExt(p).1 != [] <==> HasExt(p)
  {
    var sepIndex := LastIndex(p, '/');
    var dotIndex := LastIndex(p, '.');
    if SplitExt(p).1 != [] {
      var j :| sepIndex + 1 <= j < dotIndex && p[j] != '.';
      assert NoSlashFrom(p, j);
    }
    if HasExt(p) {
      var j, i :| 0 <= j < i < |p| && p[j] != '.' && p[i] == '.' && NoSlashFrom(p, j);
      assert sepIndex < j;
      assert i <= dotIndex;
      assert !DotsOnly(p, sepIndex + 1, dotIndex);
    }
  }
}
