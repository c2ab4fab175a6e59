/**
 * Python's `str.split(sep)` with a non-empty separator, and its inverse
 * `sep.join(parts)`. Splitting scans left to right and cuts at every
 * occurrence of `sep` that does not overlap the previous cut.
 */
module StrSplit {

  /** `sep` occurs in `s` starting at position `i`. */
  predicate OccursAt(s: string, sep: string, i: int)
  {
    0 <= i && i + |sep| <= |s| && s[i..i + |sep|] == sep
  }

  ghost predicate Contains(s: string, sep: string)
  {
    exists i :: OccursAt(s, sep, i)
  }

  /** The first occurrence of `sep` in `s` at or after `from`, or -1 (Python's `str.find`). */
  function FindFrom(s: string, sep: string, from: nat): (r: int)
    requires from <= |s|
    ensures r == -1 || (from <= r && OccursAt(s, sep, r))
    ensures forall i :: from <= i && (r == -1 || i < r) ==> !OccursAt(s, sep, i)
    decreases |s| - from
  {
    if from + |sep| > |s| then -1
    else if s[from..from + |sep|] == sep then from
    else FindFrom(s, sep, from + 1)
  }

  /** The pieces of `s` between the non-overlapping occurrences of `sep`, found left to right. */
  function Split(s: string, sep: string): (parts: seq<string>)
    requires |sep| > 0
    ensures |parts| >= 1
    decreases |s|
  {
    var i := FindFrom(s, sep, 0);
    if i < 0 then [s] else [s[..i]] + Split(s[i + |sep|..], sep)
  }

  /** The pieces of `parts` with `sep` between each two neighbours. */
  function Join(parts: seq<string>, sep: string): string
  {
    if |parts| == 0 then ""
    else if |parts| == 1 then parts[0]
    else parts[0] + sep + Join(parts[1..], sep)
  }

  /** One step of `Split`: a cut at the first occurrence `i` of the separator. */
  lemma SplitAtFirst(s: string, sep: string, i: nat)
    requires |sep| > 0 && i <= |s| && FindFrom(s, sep, 0) == i
    ensures Split(s, sep) == [s[..i]] + Split(s[i + |sep|..], sep)
  {
  }

  /** Joining a piece in front of a non-empty list puts one separator between them. */
  lemma JoinCons(p: string, tail: seq<string>, sep: string)
    requires |tail| >= 1
    ensures Join([p] + tail, sep) == p + sep + Join(tail, sep)
  {
    assert ([p] + tail)[1..] == tail;
  }

  /**
   * An independent description of the split: the pieces joined with `sep`
   * give back `s`, the last piece holds no `sep`, and every other piece
   * ends at the first occurrence of `sep` that begins inside it or right
   * after it.
   */
  ghost predicate IsLeftmostSplit(parts: seq<string>, s: string, sep: string)
  {
    && |parts| >= 1
    && Join(parts, sep) == s
    && !Contains(parts[|parts| - 1], sep)
    && forall k, i :: 0 <= k < |parts| - 1 && 0 <= i < |parts[k]| ==> !OccursAt(parts[k] + sep, sep, i)
  }

  /** An occurrence inside a prefix of `t` is an occurrence in `t`, and conversely when it fits. */
  lemma OccursInPrefix(t: string, n: nat, sep: string, i: int)
    requires n <= |t|
    ensures OccursAt(t[..n], sep, i) <==> OccursAt(t, sep, i) && i + |sep| <= n
  {
    if 0 <= i && i + |sep| <= n {
      assert t[..n][i..i + |sep|] == t[i..i + |sep|];
    }
  }

  /** An occurrence inside a suffix of `t` is an occurrence in `t`, shifted by where the suffix starts. */
  lemma OccursInSuffix(t: string, m: nat, sep: string, j: nat)
    requires m <= |t|
    ensures OccursAt(t[m..], sep, j) <==> OccursAt(t, sep, j + m)
  {
    if j + |sep| <= |t| - m {
      assert t[m..][j..j + |sep|] == t[j + m..j + m + |sep|];
    }
  }

  /** Joining the pieces of a split gives back the string that was split. */
  lemma {:induction false} JoinSplit(s: string, sep: string)
    requires |sep| > 0
    ensures Join(Split(s, sep), sep) == s
    decreases |s|
  {
    var i := FindFrom(s, sep, 0);
    if i >= 0 {
      var rest := s[i + |sep|..];
      var tail := Split(rest, sep);
      JoinSplit(rest, sep);
      assert Split(s, sep) == [s[..i]] + tail;
      JoinCons(s[..i], tail, sep);
      assert s == s[..i] + s[i..i + |sep|] + rest;
    }
  }

  /** `Split` produces the leftmost split of `s`. */
  lemma {:induction false} SplitIsLeftmost(s: string, sep: string)
    requires |sep| > 0
    ensures IsLeftmostSplit(Split(s, sep), s, sep)
    decreases |s|
  {
    var parts := Split(s, sep);
    JoinSplit(s, sep);
    var i := FindFrom(s, sep, 0);
    if i < 0 {
      assert !Contains(s, sep);
    } else {
      var rest := s[i + |sep|..];
      SplitIsLeftmost(rest, sep);
      var tail := Split(rest, sep);
      assert parts == [s[..i]] + tail;
      assert s[..i] + sep == s[..i + |sep|];
      forall k, j | 0 <= k < |parts| - 1 && 0 <= j < |parts[k]|
        ensures !OccursAt(parts[k] + sep, sep, j)
      {
        if k == 0 {
          OccursInPrefix(s, i + |sep|, sep, j);
        } else {
          assert parts[k] == tail[k - 1];
        }
      }
    }
  }

  /** The leftmost split of `s` is unique: it is what `Split` returns. */
  lemma {:induction false} LeftmostIsSplit(parts: seq<string>, s: string, sep: string)
    requires |sep| > 0
    requires IsLeftmostSplit(parts, s, sep)
    ensures parts == Split(s, sep)
    decreases |parts|
  {
    var i := FindFrom(s, sep, 0);
    if |parts| == 1 {
      NoSepNoCut(s, sep);
    } else {
      var p, rest := parts[0], Join(parts[1..], sep);
      LeftmostTail(parts, s, sep);
      LeftmostIsSplit(parts[1..], rest, sep);
      SplitCons(p, sep, rest);
      assert parts == [p] + parts[1..];
    }
  }

  /** When the first cut of `p + sep + rest` follows `p`, its split is `p` followed by the split of `rest`. */
  lemma SplitCons(p: string, sep: string, rest: string)
    requires |sep| > 0 && FindFrom(p + sep + rest, sep, 0) == |p|
    ensures Split(p + sep + rest, sep) == [p] + Split(rest, sep)
  {
    var s := p + sep + rest;
    assert s[..|p|] == p && s[|p| + |sep|..] == rest;
  }

  /** A string without the separator has no cut, so it splits into itself alone. */
  lemma NoSepNoCut(s: string, sep: string)
    requires |sep| > 0 && !Contains(s, sep)
    ensures FindFrom(s, sep, 0) == -1 && Split(s, sep) == [s]
  {
    var i := FindFrom(s, sep, 0);
    assert i >= 0 ==> OccursAt(s, sep, i);
  }

  /** Peeling the first piece off a leftmost split leaves a leftmost split of the rest. */
  lemma LeftmostTail(parts: seq<string>, s: string, sep: string)
    requires IsLeftmostSplit(parts, s, sep) && |parts| > 1
    ensures s == parts[0] + sep + Join(parts[1..], sep)
    ensures FindFrom(s, sep, 0) == |parts[0]|
    ensures IsLeftmostSplit(parts[1..], Join(parts[1..], sep), sep)
  {
    var p, rest := parts[0], Join(parts[1..], sep);
    FirstCutAfterPiece(p, sep, rest);
    forall k, j | 0 <= k < |parts[1..]| - 1 && 0 <= j < |parts[1..][k]|
      ensures !OccursAt(parts[1..][k] + sep, sep, j)
    {
      assert parts[1..][k] == parts[k + 1];
    }
  }

  /** When no occurrence begins inside `p + sep` before `sep` itself, the first cut of `p + sep + rest` follows `p`. */
  lemma FirstCutAfterPiece(p: string, sep: string, rest: string)
    requires forall j :: 0 <= j < |p| ==> !OccursAt(p + sep, sep, j)
    ensures FindFrom(p + sep + rest, sep, 0) == |p|
  {
    var s := p + sep + rest;
    assert s[..|p| + |sep|] == p + sep;
    OccursInPrefix(s, |p| + |sep|, sep, |p|);
    forall j | 0 <= j < |p|
      ensures !OccursAt(s, sep, j)
    {
      OccursInPrefix(s, |p| + |sep|, sep, j);
    }
  }

  /** `Split` and the leftmost-split description agree on every input, in both directions. */
  lemma SplitCharacterized(parts: seq<string>, s: string, sep: string)
    requires |sep| > 0
    ensures IsLeftmostSplit(parts, s, sep) <==> parts == Split(s, sep)
  {
    if IsLeftmostSplit(parts, s, sep) {
      LeftmostIsSplit(parts, s, sep);
    }
    if parts == Split(s, sep) {
      SplitIsLeftmost(s, sep);
    }
  }

  /** No piece of a split contains the separator. */
  lemma PiecesAreSepFree(s: string, sep: string)
    requires |sep| > 0
    ensures forall k :: 0 <= k < |Split(s, sep)| ==> !Contains(Split(s, sep)[k], sep)
  {
    var parts := Split(s, sep);
    SplitIsLeftmost(s, sep);
    forall k, j | 0 <= k < |parts| - 1 && 0 <= j < |parts[k]|
      ensures !OccursAt(parts[k], sep, j)
    {
      assert (parts[k] + sep)[..|parts[k]|] == parts[k];
      OccursInPrefix(parts[k] + sep, |parts[k]|, sep, j);
    }
  }

  /** A string splits into a single piece exactly when it holds no separator. */
  lemma SinglePieceIffNoSep(s: string, sep: string)
    requires |sep| > 0
    ensures |Split(s, sep)| == 1 <==> !Contains(s, sep)
  {
    if Contains(s, sep) {
      var j :| OccursAt(s, sep, j);
      var i := FindFrom(s, sep, 0);
      assert 0 <= i <= j;
      SplitAtFirst(s, sep, i);
    } else {
      NoSepNoCut(s, sep);
    }
  }
}
