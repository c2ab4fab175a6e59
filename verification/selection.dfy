/**
 * Choosing one of the search results: the first five are offered as text
 * labels, and the chosen label is mapped back to the first result that
 * carries it. Also the year written into the chosen track's tags.
 */
module TrackChoice {
  import opened Wrappers

  /** The fields of a search result that the program reads. `releaseDate` is `None` when the key is missing. */
  datatype Track = Track(title: string, artistName: string, albumTitle: string, releaseDate: Option<string>)

  /** How many results are offered to the user at most. */
  const MaxOptions: nat := 5

  /** The text shown for a result: "<title> by <artist> (Album: <album>)". */
  function Label(t: Track): (text: string)
    ensures |text| == |t.title| + |t.artistName| + |t.albumTitle| + 14
    ensures text[..|t.title| + 4] == t.title + " by "
    ensures text[|t.title| + 4..|t.title| + 4 + |t.artistName|] == t.artistName
    ensures text[|t.title| + 4 + |t.artistName|..|text| - |t.albumTitle| - 1] == " (Album: "
    ensures text[|text| - |t.albumTitle| - 1..] == t.albumTitle + ")"
  {
    t.title + " by " + t.artistName + " (Album: " + t.albumTitle + ")"
  }

  /** The label of every track, in order. */
  function Labels(ts: seq<Track>): (labels: seq<string>)
    ensures |labels| == |ts|
    ensures forall i :: 0 <= i < |ts| ==> labels[i] == Label(ts[i])
  {
    if ts == [] then [] else [Label(ts[0])] + Labels(ts[1..])
  }

  /** The options offered to the user: the labels of the first five results. */
  function Options(results: seq<Track>): (options: seq<string>)
    ensures |options| == Min(MaxOptions, |results|)
    ensures forall i :: 0 <= i < |options| ==> options[i] == Label(results[i])
  {
    Labels(results[..Min(MaxOptions, |results|)])
  }

  /** Python's `list.index`: the first position holding `x`, or `None` where Python raises `ValueError`. */
  function IndexOf(xs: seq<string>, x: string): (r: Option<nat>)
    ensures r.None? <==> x !in xs
    ensures r.Some? ==> r.value < |xs| && xs[r.value] == x && forall k :: 0 <= k < r.value ==> xs[k] != x
  {
    if xs == [] then None
    else if xs[0] == x then Some(0)
    else match IndexOf(xs[1..], x)
      case None => None
      case Some(k) => Some(k + 1)
  }

  /**
   * The result the user picked by choosing the label `choice`: the first of
   * the offered results with that label, or `None` when no offered result
   * has it.
   */
  function Select(results: seq<Track>, choice: string): (r: Option<Track>)
    ensures r.Some? <==> exists k :: 0 <= k < Min(MaxOptions, |results|) && Label(results[k]) == choice
    ensures r.Some? ==> exists k ::
      && 0 <= k < |results| && k < MaxOptions
      && r.value == results[k] && Label(results[k]) == choice
      && forall j :: 0 <= j < k ==> Label(results[j]) != choice
  {
    var options := Options(results);
    match IndexOf(options, choice)
    case None =>
      assert forall k :: 0 <= k < |options| ==> options[k] != choice;
      None
    case Some(k) => Some(results[k])
  }

  /** No two of the offered results share a label. */
  predicate DistinctLabels(results: seq<Track>)
  {
    forall i, j :: 0 <= i < j < Min(MaxOptions, |results|) ==> Label(results[i]) != Label(results[j])
  }

  /**
   * Choosing the option shown for result `j` selects a result with the same
   * label at position `j` or earlier, and exactly result `j` when the
   * offered labels are distinct.
   */
  lemma SelectShownOption(results: seq<Track>, j: nat)
    requires j < Min(MaxOptions, |results|)
    ensures var r := Select(results, Label(results[j]));
      && (exists k :: 0 <= k <= j && r == Some(results[k]) && Label(results[k]) == Label(results[j]))
      && (DistinctLabels(results) ==> r == Some(results[j]))
  {
    var choice := Label(results[j]);
    var r := Select(results, choice);
    assert r.Some?;
    var k :| 0 <= k < |results| && k < MaxOptions && r.value == results[k] && Label(results[k]) == choice
      && forall i :: 0 <= i < k ==> Label(results[i]) != choice;
    assert k <= j;
  }

  /** The year written into the tags: the first four characters of the release date, or "2025" without one. */
  function YearOf(releaseDate: Option<string>): (year: string)
    ensures |year| <= 4
    ensures releaseDate.None? ==> year == "2025"
    ensures releaseDate.Some? ==> |year| == Min(4, |releaseDate.value|) && year == releaseDate.value[..|year|]
  {
    match releaseDate
    case None => "2025"
    case Some(d) => d[..Min(4, |d|)]
  }
}
