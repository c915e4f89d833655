# Spotify songs preprocessing — a verified Dafny model

`preprocess.py` reads the raw Spotify songs CSV. It picks the genre column, cleans each row and drops duplicate track ids. Then it keeps only the rows whose genre is one of the ten most frequent, and writes the cleaned CSV that the dashboard reads. This project models that pipeline in Dafny and proves what each stage guarantees.

Modules (one file each):

- `Wrappers` — `Option` and `Result`.
- `Text` — Python's `str.strip()` and ASCII decimal digits.
- `Year` — `extract_year`: a leading four-digit year in `[1900, 2100]`.
- `Numbers` — `to_float` and `to_int`.
  - Python's `float()` is a parameter `parse: string -> Option<Double>`. It is an oracle that either parses the stripped text or fails.
  - `Double` is a finite real, `+inf`, `-inf` or `nan`.
  - `int()` truncates toward zero and fails on `inf`/`nan`.
- `Columns` — the choice of the genre column: the first of `playlist_genre` and `genre` that the header has.
- `Dedup` — the de-duplication discipline, generic over the row type.
  - A row is considered only when it is the first row with its non-empty key.
  - The key is marked as seen *before* the row is validated.
  - The result is the sequence of validated first occurrences, in input order.
- `Cleaning` — a raw row is a `map<string, string>`, like a `csv.DictReader` row.
  - Rows are validated and built into a `CleanRow`.
  - The imperative `for d in reader` loop becomes the method `Clean`, proved equal to the specification `Kept`.
- `TopGenres` — the top-genre filter.
  - A genre count dictionary: its insertion order, plus a map of counts.
  - `sorted(..., reverse=True)` as a stable sort by descending count.
  - The set of the first ten genres, and the filter on it.
- `Pipeline` — `main` without the file I/O.
  - It either fails with the list of available columns, or returns the cleaned and filtered rows.
  - It states the guarantees the whole pipeline gives.

## Model

| member | source | states |
|---|---|---|
| Text.Strip | preprocess.py:96 | the stripped text is no longer than the input and neither starts nor ends with whitespace |
| Text.StripIsInfix | preprocess.py:96 | the stripped text is a contiguous piece of the input |
| Text.StripLeftRemovesSpace | preprocess.py:96 | what left-stripping removes is exactly a whitespace prefix, and the rest is a suffix of the input |
| Text.StripRightRemovesSpace | preprocess.py:96 | what right-stripping removes is exactly a whitespace suffix, and the rest is a prefix of the input |
| Text.IsSpace | preprocess.py:96 | space, tab, newline and carriage return are whitespace, and no decimal digit is |
| Text.DecimalValue | preprocess.py:15 | a string of k digits reads as a number below 10^k |
| Text.StripAllSpace | preprocess.py:24-26 | a value made only of whitespace strips to the empty string |
| Year.ExtractYear | preprocess.py:9-18 | a missing or empty value gives None; a year found lies in [1900, 2100] and is spelt by the first four characters of the stripped text |
| Year.ExtractYearOfDate | preprocess.py:12-18 | for whitespace, four digits spelling y, then anything: the result is y exactly when 1900 <= y <= 2100, otherwise None |
| Year.FormatDecimal | preprocess.py:13-15 | four digits read as a number and written back give the same four digits |
| Year.DecimalFormat | preprocess.py:15 | a year below 10000 written as four digits reads back as the same number |
| Numbers.Trunc | preprocess.py:38 | truncation toward zero: the integer lies within one of the real, on the side of zero |
| Numbers.DoubleToInt | preprocess.py:135 | `to_int` of an already-parsed float: defined exactly for finite values, and then their truncation |
| Numbers.ToFloat | preprocess.py:20-29 | None for a missing value or one that is all whitespace; for any other value, exactly the parse of its stripped text |
| Numbers.ToInt | preprocess.py:31-40 | None for missing or blank text; a value exactly when the text parses to a finite float, and then its truncation toward zero |
| Columns.FirstPresent | preprocess.py:66-71 | None exactly when no candidate is in the header; otherwise a candidate that is in the header |
| Columns.SelectGenreColumn | preprocess.py:66-69 | the loop with `break` returns the first candidate present in the header |
| Cleaning.Get | preprocess.py:96 | `d.get(k)` is present exactly when the row has the column, and is then that column's value |
| Cleaning.TrackId | preprocess.py:96 | the stripped `track_id` field, or empty when the row has none |
| Cleaning.TextField | preprocess.py:110 | a missing column reads as empty; a present one reads as its stripped value, with no surrounding whitespace |
| Cleaning.Validate | preprocess.py:105-117 | a row is accepted exactly when its year, integer popularity, non-empty genre and energy are all present; the built row carries those values and the id |
| Cleaning.Build | preprocess.py:114-136 | the output record holds the id, genre, year, popularity and energy given, the stripped name and artist, `to_float` of each audio column, and a duration present exactly when `duration_ms` parses to a finite float, then its truncation |
| Cleaning.ValidatedWellFormed | preprocess.py:96-117 | an accepted row with a non-empty id has a non-empty id and genre and a year in range |
| Cleaning.CheckRow | preprocess.py:105-136 | the field checks, each failure skipping the row, return exactly the validation result of the row |
| Cleaning.CleanStep | preprocess.py:96-136 | one iteration appends the validated row exactly when its id is non-empty, not yet seen and the row validates, and otherwise leaves the output alone; `seen` gains every non-empty id |
| Cleaning.Clean | preprocess.py:92-136 | the imperative loop with its `continue`s and `seen` set computes `Kept`: the validated first occurrences of each non-empty track id, in input order |
| Dedup.Select | preprocess.py:95-136 | the de-duplicated, validated sequence is no longer than its input |
| Dedup.SeenMembers | preprocess.py:93-103 | after i rows the `seen` set holds exactly the non-empty ids of those rows |
| Dedup.SelectStep | preprocess.py:95-136 | one loop iteration extends the result by the current row exactly when it is the first with its id and it validates, and adds a non-empty id to `seen` |
| Dedup.Origins | preprocess.py:95-136 | every output row comes from a distinct surviving input row, in increasing input order, and every surviving input row appears |
| Dedup.SelectKeysDistinct | preprocess.py:100-103 | the output rows have pairwise distinct keys |
| Dedup.RejectedFirstShadows | preprocess.py:101-108 | when the first row with an id is rejected, no row with that id is output, even a later valid one |
| Cleaning.Kept | preprocess.py:92-136 | the cleaned rows, as the de-duplication of the input by track id under row validation: at most one output row per input row |
| Cleaning.OriginsValidate | preprocess.py:95-136 | each cleaned row is the validated form of the input row at its origin position |
| Cleaning.OriginsComplete | preprocess.py:95-136 | an input position is an origin exactly when its row is the first with its non-empty id and validates |
| Cleaning.KeptIdsDistinct | preprocess.py:100-103 | the cleaned rows have pairwise distinct ids |
| Cleaning.KeptWellFormed | preprocess.py:96-117 | every cleaned row has a non-empty id and genre and a year in [1900, 2100] |
| Cleaning.RejectedFirstShadows | preprocess.py:101-117 | a track whose first row fails validation never appears in the output |
| Cleaning.KeptIsSubsequence | preprocess.py:95-136 | there are increasing input positions whose validated rows are exactly the cleaned rows, and they are exactly the first occurrences of non-empty ids that validate |
| TopGenres.CountOf | preprocess.py:139-141 | the count of a genre is at most the number of rows |
| TopGenres.CountPositive | preprocess.py:139-141 | a genre is counted at least once exactly when some row has it |
| TopGenres.FirstSeen | preprocess.py:139-141 | the dictionary's key order has no repeats and holds exactly the genres that occur |
| TopGenres.FirstSeenOrder | preprocess.py:139-141 | when g comes before h in the key order, a row of g occurs before any row of h |
| TopGenres.TallyStep | preprocess.py:140-141 | one row of the counting loop keeps the key order and the counts equal to those of the rows read so far |
| TopGenres.CountGenres | preprocess.py:139-141 | the counting loop yields keys in first-seen order, with each key's value equal to its number of rows and at least 1, so its items are the genre table |
| TopGenres.TalliedItems | preprocess.py:139-142 | a dictionary in step with the rows has the genre table as its items |
| TopGenres.Items | preprocess.py:142 | `counts.items()` lists the keys in insertion order, and an entry is listed exactly when its genre is a key and its count that key's value |
| TopGenres.GenreTable | preprocess.py:142 | one entry per distinct genre, and an entry is listed exactly when some row has its genre and its count is that genre's number of rows |
| TopGenres.WithCountMembers | preprocess.py:142 | the entries of a given count are exactly the members that have that count |
| TopGenres.InsertSorted | preprocess.py:142 | inserting into a descending list keeps it descending |
| TopGenres.InsertPermutes | preprocess.py:142 | insertion adds exactly the inserted entry and loses none |
| TopGenres.InsertStable | preprocess.py:142 | insertion puts a new entry after every entry with an equal count |
| TopGenres.SortByCount | preprocess.py:142 | `sorted(..., reverse=True)` by count returns a permutation of the items in descending count order |
| TopGenres.SortStable | preprocess.py:142 | the sort is stable: entries with equal counts keep their original relative order |
| TopGenres.GenresOfFirst | preprocess.py:142 | the set built from the first k entries has at most k genres, exactly those of the first k entries |
| TopGenres.TopGenresOf | preprocess.py:142 | the top set has at most ten genres |
| TopGenres.TopAtMostTen | preprocess.py:142 | the top set has at most ten genres, all occurring in the rows |
| TopGenres.TopDominates | preprocess.py:142 | every genre in the top set has at least as many rows as any genre left out |
| TopGenres.TieInTable | preprocess.py:142 | on a tie between a kept and a dropped genre, the kept genre's entry comes first in `counts.items()` |
| TopGenres.TopTieBreak | preprocess.py:142 | on a tie between a kept and a dropped genre, the kept one was seen first in the rows |
| TopGenres.FewGenresKeepAll | preprocess.py:142-143 | with at most ten distinct genres the filter keeps every row |
| TopGenres.KeepGenres | preprocess.py:143 | the filter returns no more rows than it is given |
| TopGenres.KeepGenresCounts | preprocess.py:143 | after filtering, a top genre keeps all its rows and any other genre has none |
| TopGenres.KeepPositions | preprocess.py:143 | there are increasing input positions whose rows have top genres, covering every such row |
| TopGenres.KeepGenresAt | preprocess.py:143 | the filtered rows are the input rows at those positions, in order |
| TopGenres.KeepGenresAll | preprocess.py:143 | when every genre is kept, the filter returns its input unchanged |
| TopGenres.KeepTopGenres | preprocess.py:139-143 | counting, sorting, taking ten and filtering returns the rows whose genre is in the top set |
| Pipeline.CleanDataset | preprocess.py:92-143 | the output is no longer than the input and every output row is a cleaned row |
| Pipeline.Preprocess | preprocess.py:64-143 | fails exactly when neither candidate column is in the header, reporting the header; otherwise returns the cleaned and filtered rows for the first candidate present |
| Pipeline.CleanDatasetProperties | preprocess.py:92-143 | the output has distinct ids, every row well formed with its genre in a top set of at most ten genres |

## Left out

- File I/O is not modelled: opening the files, `csv.DictReader`'s parsing and quoting, `csv.DictWriter` and the closing message on standard output. The input is the header as a `seq<string>` and the rows as maps. Output is the result value.
- A `None` header (`reader.fieldnames or []`) is the empty header.
- A short row, where `DictReader` fills missing fields with `None`, is a map without those keys. `d.get(k)` gives `None` in both cases, so the behaviour is the same.
- Overflow fields under `DictReader`'s rest key are not modelled, because the pipeline never reads them.
- Python's `float()` is a parameter (`Parser`) and is not modelled. The model fixes no particular float syntax.
- Floats are real numbers. IEEE rounding is not modelled.
- Numbers.DoubleToInt: relies on `str()` of a float parsing back to the same float, as it does for Python floats. `duration_ms` is therefore the truncation of its parsed value, or None for `inf`/`nan`.
- Year.ExtractYear: `\d` is modelled as the ASCII digits `0`–`9`. Python's `re` with a `str` pattern also matches other Unicode decimal digits.
- Text.Strip: uses the whitespace code points that Python's `str.isspace()` accepts. Unicode database changes are not modelled.
- Validation does not require a finite energy (`nan`/`inf` parse and are kept) and does not bound popularity to [0, 100]. The code checks only that the values are present, and the model follows the code.
- The dashboard's JavaScript is not part of this model.
