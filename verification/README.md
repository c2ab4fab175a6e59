# cosmic_mp3 tagger — model of the file-name guess and the result choice

The tagger lets a user upload an MP3 file, guesses artist and title from the
file's name, searches an online music catalogue with a query built from that
guess, lets the user pick one of the first five results, and writes the
picked track's title, artist, album, year and cover into the file's ID3 tags.

This project models the logic of that flow that does not talk to the network,
the tag library or the web UI, as pure Dafny functions with lemmas:

- `PathExt` — the extension split that `os.path.splitext` performs on a POSIX
  system (the name's extension is cut off before guessing).
- `StrSplit` — `str.split(sep)` with a non-empty separator, and
  `sep.join(parts)`, which gives back the string from the pieces of a split
  (`Join` is a left inverse of `Split` only: a list of pieces that could not
  come out of a split does not survive joining and splitting again).
- `NameGuess` — the artist/title guess made from the name without its
  extension, and the search query first offered to the user.
- `TrackChoice` — the labelled options built from the first five results, the
  first-match lookup that maps the chosen label back to a result, and the
  year passed to the tagger.
- `Wrappers` — an `Option` type (a missing key, a failed lookup) and `Min`.

`str.split` is specified twice: by `Split`, which cuts at the first
occurrence of the separator and recurses on the rest, and by
`IsLeftmostSplit`, which says what a list of pieces must satisfy. The two
agree on every input (`SplitCharacterized`). Because `" - "` can overlap
itself (its first and last characters are both spaces), "the pieces join back
to the name and contain no separator" alone does not fix the split.
`IsLeftmostSplit` therefore also requires every piece but the last to end at
the first occurrence of the separator.

The two-piece case of the guess is described without reference to `Split`
by `HasOneSep`. It holds when the name has a first occurrence of `" - "` and
every other occurrence overlaps it. For example, `" - - "` has occurrences at
0 and 2, and Python splits it into `["", "- "]`.

## Model

| member | source | states |
|---|---|---|
| `PathExt.SplitExt` | app_v1.py:60 | the root followed by the extension is the file name, so the root is a prefix of it; the extension is empty or a '.' followed by characters that are neither '.' nor '/' |
| `PathExt.SplitExtFindsExt` | app_v1.py:60 | an extension is cut off exactly when some '.' is preceded by a character other than '.' with no '/' from there on, so leading dots never start an extension |
| `PathExt.LastIndex` | app_v1.py:60 | the position found holds the character, and no later position does; -1 when the character is absent |
| `StrSplit.Split` | app_v1.py:61 | a split has at least one piece; `JoinSplit` proves that its pieces join back to the string, `PiecesAreSepFree` that none holds the separator, and `SplitCharacterized` that it is exactly the leftmost split |
| `StrSplit.FindFrom` | app_v1.py:61 | the position found is an occurrence of the separator and no earlier position from the start point is; -1 when there is none |
| `StrSplit.JoinSplit` | app_v1.py:61 | joining the pieces of `name_base.split(" - ")` with the separator gives back `name_base` exactly |
| `StrSplit.SplitCharacterized` | app_v1.py:61 | a list of pieces is the result of the split exactly when it is the leftmost split: it joins back to the string, its last piece holds no separator, and every other piece ends at the first occurrence of the separator |
| `StrSplit.PiecesAreSepFree` | app_v1.py:61 | no piece of the split contains the separator |
| `StrSplit.SinglePieceIffNoSep` | app_v1.py:61 | the split has one piece exactly when the string holds no separator |
| `NameGuess.TwoPiecesIffOneSep` | app_v1.py:61-63 | the split on " - " has exactly two pieces exactly when the first occurrence of " - " overlaps every other one |
| `NameGuess.TwoPieceGuess` | app_v1.py:63-64 | with two pieces, the first piece, " - " and the second piece rebuild the name, the cut is at the first " - ", and neither piece contains " - " |
| `NameGuess.GuessFromBase` | app_v1.py:61-66 | with one separator, artist + " - " + title is the name, the artist ends at the first " - ", and neither part contains " - "; otherwise the artist is empty and the title is the whole name |
| `NameGuess.GuessFromFilename` | app_v1.py:59-66 | the guess is made from the root left by `SplitExt`: with one separator in the root, the file name is artist + " - " + title + extension, the artist ends at the root's first " - " and neither part holds " - "; otherwise the artist is empty and the title is the whole root |
| `NameGuess.DefaultQuery` | app_v1.py:70 | the query is the artist, then one space, then the title, and nothing else |
| `NameGuess.QueryFromBase` | app_v1.py:70 | the default query replaces the single " - " of a two-piece name by one space, and is " " + name in the fallback case |
| `TrackChoice.Label` | app_v1.py:75 | the label is the title, " by ", the artist name, " (Album: ", the album title and ")", in that order and nothing else |
| `TrackChoice.Labels` | app_v1.py:74-77 | one label per track, in order, each built from that track's title, artist name and album title |
| `TrackChoice.Options` | app_v1.py:74-77 | there are min(5, number of results) options, and option i is the label of result i |
| `TrackChoice.IndexOf` | app_v1.py:79 | the index found holds the chosen label and no earlier index does; `None` (Python's `ValueError`) exactly when the label is absent |
| `TrackChoice.Select` | app_v1.py:78-79 | a result is selected exactly when one of the first five results has the chosen label; it is the first such result, at an index below 5 and below the number of results |
| `TrackChoice.SelectShownOption` | app_v1.py:74-79 | choosing the option shown for result j selects a result with the same label at index j or earlier, and result j itself when the offered labels are distinct |
| `TrackChoice.YearOf` | app_v1.py:95 | the year has at most four characters; it is the first min(4, length) characters of the release date, or "2025" when the key is missing |

## Left out

- `search_deezer` and `download_cover` (app_v1.py:9-20): HTTP requests to the catalogue and JSON decoding; the search results enter the model as a parameter `seq<Track>`.
- The search URL (app_v1.py:10): the query is put into the URL unescaped; it only feeds the HTTP request.
- `tag_mp3` (app_v1.py:22-52): the temporary file, the ID3 tag library and its picture frame; the tag library is not part of this model.
- The web UI (app_v1.py:54-58, 68, 71, 78, 81-88, 99-106): widgets, session state and the download button. The user may edit the default query before searching; the model only states the default. The radio button's answer enters `Select` as an arbitrary string, so the case of a label that is not offered is modelled as `None`.
- Reading and deleting the tagged file (app_v1.py:99, 107): filesystem I/O.
- `TrackChoice.Track` keeps only the fields the program reads for the options and the year; the cover URL (app_v1.py:89) feeds only `download_cover`.
- `TrackChoice.YearOf`: a `release_date` key that is present with a JSON `null` value (Python then raises `TypeError` on the slice) is not modelled; `releaseDate` is `None` only for a missing key.
- `PathExt.SplitExt` follows the POSIX path rules ('/' is the only separator); the Windows rules, which also treat '\' and drive letters as separators, are not modelled.
- Strings are sequences of Unicode characters; the model does not deal with encodings.
