/**
 * The artist/title guess made from an uploaded file's name, and the search
 * query suggested from that guess. A name such as "Artist - Title.mp3"
 * loses its extension, and the rest is cut at " - " into artist and title
 * when it holds exactly one such separator.
 */
module NameGuess {
  import opened StrSplit
  import opened PathExt

  /** The separator between artist and title in a name such as "Artist - Title.mp3". */
  const Sep: string := " - "

  datatype Guess = Guess(artist: string, title: string)

  /**
   * The left-to-right split of `base` on `Sep` makes exactly two pieces: the
   * first occurrence of `Sep` overlaps every other occurrence.
   */
  ghost predicate HasOneSep(base: string)
  {
    exists i :: OccursAt(base, Sep, i) && forall j :: OccursAt(base, Sep, j) ==> i <= j < i + |Sep|
  }

  /** Splitting on `Sep` gives two pieces exactly when `HasOneSep` holds. */
  lemma TwoPiecesIffOneSep(base: string)
    ensures |Split(base, Sep)| == 2 <==> HasOneSep(base)
  {
    var i := FindFrom(base, Sep, 0);
    if i < 0 {
      SinglePieceIffNoSep(base, Sep);
    } else {
      var rest := base[i + |Sep|..];
      SplitAtFirst(base, Sep, i);
      SinglePieceIffNoSep(rest, Sep);
      if |Split(base, Sep)| == 2 {
        forall j | OccursAt(base, Sep, j)
          ensures i <= j < i + |Sep|
        {
          if j >= i + |Sep| {
            OccursInSuffix(base, i + |Sep|, Sep, j - i - |Sep|);
          }
        }
      }
      if HasOneSep(base) {
        var i0 :| OccursAt(base, Sep, i0) && forall j :: OccursAt(base, Sep, j) ==> i0 <= j < i0 + |Sep|;
        assert i == i0;
        forall j: nat ensures !OccursAt(rest, Sep, j) {
          OccursInSuffix(base, i + |Sep|, Sep, j);
        }
      }
    }
  }

  /**
   * The guess for a file name without its extension: with exactly two
   * pieces around " - " they are the artist and the title, otherwise the
   * artist is empty and the whole name is the title.
   */
  function GuessFromBase(base: string): (g: Guess)
    ensures HasOneSep(base) ==>
      && g.artist + Sep + g.title == base
      && OccursAt(base, Sep, |g.artist|)
      && (forall j :: 0 <= j < |g.artist| ==> !OccursAt(base, Sep, j))
      && !Contains(g.artist, Sep) && !Contains(g.title, Sep)
    ensures !HasOneSep(base) ==> g == Guess("", base)
  {
    TwoPiecesIffOneSep(base);
    var parts := Split(base, Sep);
    if |parts| == 2 then
      TwoPieceGuess(base);
      Guess(parts[0], parts[1])
    else
      Guess("", base)
  }

  /** In the two-piece case the pieces rebuild the name around its first separator. */
  lemma TwoPieceGuess(base: string)
    requires |Split(base, Sep)| == 2
    ensures var parts := Split(base, Sep);
      && parts[0] + Sep + parts[1] == base
      && OccursAt(base, Sep, |parts[0]|)
      && (forall j :: 0 <= j < |parts[0]| ==> !OccursAt(base, Sep, j))
      && !Contains(parts[0], Sep) && !Contains(parts[1], Sep)
  {
    var parts := Split(base, Sep);
    JoinSplit(base, Sep);
    PiecesAreSepFree(base, Sep);
    assert parts[1..] == [parts[1]];
    var i := FindFrom(base, Sep, 0);
    assert i >= 0;
    SplitAtFirst(base, Sep, i);
  }

  /**
   * The guess for an uploaded file name: the extension is cut off first,
   * and the guess is made from the root that is left.
   */
  function GuessFromFilename(filename: string): (g: Guess)
    ensures var (root, ext) := SplitExt(filename);
      && (HasOneSep(root) ==>
        && filename == g.artist + Sep + g.title + ext
        && OccursAt(root, Sep, |g.artist|)
        && (forall j :: 0 <= j < |g.artist| ==> !OccursAt(root, Sep, j))
        && !Contains(g.artist, Sep) && !Contains(g.title, Sep))
      && (!HasOneSep(root) ==> g == Guess("", root))
  {
    var (root, ext) := SplitExt(filename);
    var g := GuessFromBase(root);
    assert HasOneSep(root) ==> filename == g.artist + Sep + g.title + ext;
    g
  }

  /** The search query first offered to the user: artist and title with one space between. */
  function DefaultQuery(g: Guess): (q: string)
    ensures |q| == |g.artist| + 1 + |g.title|
    ensures q[..|g.artist|] == g.artist && q[|g.artist|] == ' ' && q[|g.artist| + 1..] == g.title
  {
    g.artist + " " + g.title
  }

  /**
   * The default query replaces the single separator of a two-piece name by
   * one space, and otherwise is the whole name after a leading space.
   */
  lemma QueryFromBase(base: string)
    ensures var q := DefaultQuery(GuessFromBase(base));
      && (HasOneSep(base) ==> exists i :: OccursAt(base, Sep, i) && q == base[..i] + " " + base[i + |Sep|..])
      && (!HasOneSep(base) ==> q == " " + base)
  {
    var g := GuessFromBase(base);
    if HasOneSep(base) {
      var i := |g.artist|;
      assert base[..i] == g.artist;
      assert base[i + |Sep|..] == g.title;
    }
  }
}
