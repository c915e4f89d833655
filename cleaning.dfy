/**
 * The cleaning pass: one walk over the CSV rows that drops rows without a
 * track id, keeps only the first row of each track id, drops rows whose
 * year, popularity, genre or energy is missing, and keeps the survivors in
 * input order.
 */
module Cleaning {
  import opened Wrappers
  import opened Text
  import opened Year
  import opened Numbers
  import opened Dedup

  /** One row of `csv.DictReader`: column name to field text. */
  type RawRow = map<string, string>

  /** The audio features copied through as optional floats, in output column order (energy apart). */
  const AudioColumns: seq<string> :=
    ["danceability", "loudness", "speechiness", "acousticness", "instrumentalness", "liveness", "valence", "tempo"]

  /** A row of the cleaned dataset. */
  datatype CleanRow = CleanRow(
    id: string,
    name: string,
    artist: string,
    genre: string,
    year: int,
    popularity: int,
    energy: Double,
    audio: seq<Option<Double>>,
    durationMs: Option<int>)

  /** `d.get(k)` */
  function Get(d: RawRow, k: string): (r: Option<string>)
    ensures r.Some? <==> k in d
    ensures k in d ==> r == Some(d[k])
  {
    if k in d then Some(d[k]) else None
  }

  /** `(d.get(k) or "").strip()`: a missing field reads as the empty string. */
  function TextField(d: RawRow, k: string): (s: string)
    ensures k !in d ==> s == []
    ensures k in d ==> s == Strip(d[k])
    ensures s == [] || (!IsSpace(s[0]) && !IsSpace(s[|s| - 1]))
  {
    Strip(if k in d then d[k] else "")
  }

  /** The de-duplication key of a row. */
  function TrackId(d: RawRow): (id: string)
    ensures "track_id" !in d ==> id == []
    ensures "track_id" in d ==> id == Strip(d["track_id"])
  {
    TextField(d, "track_id")
  }

  /** What every row of the cleaned dataset satisfies. */
  predicate WellFormed(r: CleanRow)
  {
    && r.id != [] && !IsSpace(r.id[0]) && !IsSpace(r.id[|r.id| - 1])
    && r.genre != [] && !IsSpace(r.genre[0]) && !IsSpace(r.genre[|r.genre| - 1])
    && MinYear <= r.year <= MaxYear
    && |r.audio| == |AudioColumns|
  }

  /**
   * The checks made on a row once its id has passed de-duplication, and the
   * cleaned row built from it: None exactly when the year, the popularity,
   * the genre or the energy is missing.
   */
  function Validate(d: RawRow, genreCol: string, parse: Parser): (r: Option<CleanRow>)
    ensures r.Some? <==> && ExtractYear(Get(d, "track_album_release_date")).Some?
                         && ToInt(Get(d, "track_popularity"), parse).Some?
                         && TextField(d, genreCol) != []
                         && ToFloat(Get(d, "energy"), parse).Some?
    ensures r.Some? ==> && r.value.id == TrackId(d)
                        && r.value.genre == TextField(d, genreCol)
                        && r.value.year == ExtractYear(Get(d, "track_album_release_date")).value
                        && r.value.popularity == ToInt(Get(d, "track_popularity"), parse).value
                        && r.value.energy == ToFloat(Get(d, "energy"), parse).value
  {
    var year := ExtractYear(Get(d, "track_album_release_date"));
    var pop := ToInt(Get(d, "track_popularity"), parse);
    if year.None? || pop.None? then None
    else
      var genre := TextField(d, genreCol);
      if genre == [] then None
      else
        var energy := ToFloat(Get(d, "energy"), parse);
        if energy.None? then None
        else Some(Build(d, genre, year.value, pop.value, energy.value, parse))
  }

  /** A row with an id that passes validation yields a well-formed cleaned row. */
  lemma ValidatedWellFormed(d: RawRow, genreCol: string, parse: Parser)
    requires TrackId(d) != [] && Validate(d, genreCol, parse).Some?
    ensures WellFormed(Validate(d, genreCol, parse).value)
  {
  }

  /** The output record of a row that passed every check. */
  function Build(d: RawRow, genre: string, year: int, pop: int, energy: Double, parse: Parser): (r: CleanRow)
    ensures r.id == TrackId(d) && r.genre == genre && r.year == year && r.popularity == pop && r.energy == energy
    ensures r.name == TextField(d, "track_name") && r.artist == TextField(d, "track_artist")
    ensures |r.audio| == |AudioColumns|
    ensures forall i :: 0 <= i < |AudioColumns| ==> r.audio[i] == ToFloat(Get(d, AudioColumns[i]), parse)
    ensures r.durationMs.Some? <==> ToFloat(Get(d, "duration_ms"), parse).Some? && ToFloat(Get(d, "duration_ms"), parse).value.Finite?
    ensures r.durationMs.Some? ==> r.durationMs == DoubleToInt(ToFloat(Get(d, "duration_ms"), parse).value)
  {
    var duration := ToFloat(Get(d, "duration_ms"), parse);
    CleanRow(
      TrackId(d),
      TextField(d, "track_name"),
      TextField(d, "track_artist"),
      genre,
      year,
      pop,
      energy,
      seq(|AudioColumns|, i requires 0 <= i < |AudioColumns| => ToFloat(Get(d, AudioColumns[i]), parse)),
      if duration.Some? then DoubleToInt(duration.value) else None)
  }

  /** Validation as a function of the row alone, for a fixed genre column and float parser. */
  function Validator(genreCol: string, parse: Parser): RawRow -> Option<CleanRow>
  {
    d => Validate(d, genreCol, parse)
  }

  /** The cleaned rows: de-duplication by track id, then validation. */
  function Kept(input: seq<RawRow>, genreCol: string, parse: Parser): (rows: seq<CleanRow>)
    ensures |rows| <= |input|
  {
    Select(input, TrackId, Validator(genreCol, parse))
  }

  /**
   * The checks of the loop body once the id is known to be new, each
   * failure skipping the row as a `continue` does.
   */
  method CheckRow(d: RawRow, genreCol: string, parse: Parser) returns (row: Option<CleanRow>)
    ensures row == Validate(d, genreCol, parse)
  {
    var year := ExtractYear(Get(d, "track_album_release_date"));
    var pop := ToInt(Get(d, "track_popularity"), parse);
    if year.None? || pop.None? {
      return None;
    }
    var genre := TextField(d, genreCol);
    if genre == [] {
      return None;
    }
    var energy := ToFloat(Get(d, "energy"), parse);
    if energy.None? {
      return None;
    }
    return Some(Build(d, genre, year.value, pop.value, energy.value, parse));
  }

  /**
   * The loop of the script. `seen` receives a track id as soon as the id is
   * found new, BEFORE the row's other fields are checked, so a first row
   * that fails validation still shadows every later row with its id.
   */
  method Clean(input: seq<RawRow>, genreCol: string, parse: Parser) returns (rows: seq<CleanRow>)
    ensures rows == Kept(input, genreCol, parse)
  {
    rows := [];
    var seen: set<string> := {};
    for i := 0 to |input|
      invariant rows == Kept(input[..i], genreCol, parse)
      invariant seen == Seen(input, TrackId, i)
    {
      var d := input[i];
      CleanStep(input, i, genreCol, parse);
      var tid := TrackId(d);
      if tid == [] {
        continue;
      }
      if tid in seen {
        continue;
      }
      seen := seen + {tid};
      var row := CheckRow(d, genreCol, parse);
      if row.None? {
        continue;
      }
      rows := rows + [row.value];
    }
    assert input[..|input|] == input;
  }

  /** One iteration of the loop, in terms of the row's own validation. */
  lemma CleanStep(input: seq<RawRow>, i: nat, genreCol: string, parse: Parser)
    requires i < |input|
    ensures TrackId(input[i]) == [] || TrackId(input[i]) in Seen(input, TrackId, i) || Validate(input[i], genreCol, parse).None?
            ==> Kept(input[..i + 1], genreCol, parse) == Kept(input[..i], genreCol, parse)
    ensures TrackId(input[i]) != [] && TrackId(input[i]) !in Seen(input, TrackId, i) && Validate(input[i], genreCol, parse).Some?
            ==> Kept(input[..i + 1], genreCol, parse) == Kept(input[..i], genreCol, parse) + [Validate(input[i], genreCol, parse).value]
    ensures Seen(input, TrackId, i + 1)
            == if TrackId(input[i]) != [] then Seen(input, TrackId, i) + {TrackId(input[i])} else Seen(input, TrackId, i)
  {
    SelectStep(input, TrackId, Validator(genreCol, parse), i);
    assert Validator(genreCol, parse)(input[i]) == Validate(input[i], genreCol, parse);
  }

  /** The cleaned rows have pairwise distinct track ids. */
  lemma KeptIdsDistinct(input: seq<RawRow>, genreCol: string, parse: Parser)
    ensures var rows := Kept(input, genreCol, parse);
            forall a, b :: 0 <= a < b < |rows| ==> rows[a].id != rows[b].id
  {
    var idOf := (r: CleanRow) => r.id;
    assert forall d :: Validator(genreCol, parse)(d).Some? ==> idOf(Validator(genreCol, parse)(d).value) == TrackId(d);
    SelectKeysDistinct(input, TrackId, Validator(genreCol, parse), idOf);
    var rows := Kept(input, genreCol, parse);
    assert rows == Select(input, TrackId, Validator(genreCol, parse));
    forall a, b | 0 <= a < b < |rows|
      ensures rows[a].id != rows[b].id
    {
      assert idOf(rows[a]) != idOf(rows[b]);
    }
  }

  /** Every cleaned row has an id, a genre, a year in range and all its audio columns. */
  lemma KeptWellFormed(input: seq<RawRow>, genreCol: string, parse: Parser)
    ensures forall r :: r in Kept(input, genreCol, parse) ==> WellFormed(r)
  {
    var rows := Kept(input, genreCol, parse);
    var idx := Origins(input, TrackId, Validator(genreCol, parse));
    forall t | 0 <= t < |rows|
      ensures WellFormed(rows[t])
    {
      ValidatedWellFormed(input[idx[t]], genreCol, parse);
    }
  }

  /**
   * The first row with a given track id decides for the id: when it fails
   * validation, no row with that id is kept, however valid a later duplicate is.
   */
  lemma RejectedFirstShadows(input: seq<RawRow>, k: nat, genreCol: string, parse: Parser)
    requires k < |input| && TrackId(input[k]) != [] && FirstOccurrence(input, TrackId, k)
    requires Validate(input[k], genreCol, parse).None?
    ensures forall r :: r in Kept(input, genreCol, parse) ==> r.id != TrackId(input[k])
  {
    var idOf := (r: CleanRow) => r.id;
    assert forall d :: Validator(genreCol, parse)(d).Some? ==> idOf(Validator(genreCol, parse)(d).value) == TrackId(d);
    Dedup.RejectedFirstShadows(input, TrackId, Validator(genreCol, parse), idOf, k);
  }

  /**
   * `idx` picks, in increasing order, the input positions of `rows`: each
   * chosen row validates to the row at its place, and the chosen positions
   * are exactly the rows that have an id, are the first with it and validate.
   */
  ghost predicate ChosenFrom(input: seq<RawRow>, genreCol: string, parse: Parser, rows: seq<CleanRow>, idx: seq<nat>)
  {
    && |idx| == |rows|
    && (forall s, t :: 0 <= s < t < |idx| ==> idx[s] < idx[t])
    && (forall t :: 0 <= t < |idx| ==> idx[t] < |input| && Some(rows[t]) == Validate(input[idx[t]], genreCol, parse))
    && (forall k :: 0 <= k < |input| ==>
          (k in idx <==> TrackId(input[k]) != [] && FirstOccurrence(input, TrackId, k) && Validate(input[k], genreCol, parse).Some?))
  }

  /** The cleaned rows are, in input order, the validated first occurrences, and no such row is missing. */
  lemma KeptIsSubsequence(input: seq<RawRow>, genreCol: string, parse: Parser)
    ensures exists idx :: ChosenFrom(input, genreCol, parse, Kept(input, genreCol, parse), idx)
  {
    var rows := Kept(input, genreCol, parse);
    var idx := Origins(input, TrackId, Validator(genreCol, parse));
    assert rows == Select(input, TrackId, Validator(genreCol, parse));
    OriginsValidate(input, genreCol, parse);
    OriginsComplete(input, genreCol, parse);
    assert ChosenFrom(input, genreCol, parse, rows, idx);
  }

  /** Each cleaned row is the validation of the input row `Origins` names for it. */
  lemma OriginsValidate(input: seq<RawRow>, genreCol: string, parse: Parser)
    ensures var rows := Kept(input, genreCol, parse);
            var idx := Origins(input, TrackId, Validator(genreCol, parse));
            forall t :: 0 <= t < |idx| ==> idx[t] < |input| && Some(rows[t]) == Validate(input[idx[t]], genreCol, parse)
  {
    var check := Validator(genreCol, parse);
    var idx := Origins(input, TrackId, check);
    forall t | 0 <= t < |idx|
      ensures idx[t] < |input| && Some(Kept(input, genreCol, parse)[t]) == Validate(input[idx[t]], genreCol, parse)
    {
      assert Survives(input, TrackId, check, idx[t]);
      assert check(input[idx[t]]) == Validate(input[idx[t]], genreCol, parse);
    }
  }

  /** `Origins` names exactly the first occurrences that validate. */
  lemma OriginsComplete(input: seq<RawRow>, genreCol: string, parse: Parser)
    ensures var idx := Origins(input, TrackId, Validator(genreCol, parse));
            forall k :: 0 <= k < |input| ==>
              (k in idx <==> TrackId(input[k]) != [] && FirstOccurrence(input, TrackId, k) && Validate(input[k], genreCol, parse).Some?)
  {
    var check := Validator(genreCol, parse);
    var idx := Origins(input, TrackId, check);
    forall k | 0 <= k < |input|
      ensures k in idx <==> TrackId(input[k]) != [] && FirstOccurrence(input, TrackId, k) && Validate(input[k], genreCol, parse).Some?
    {
      assert check(input[k]) == Validate(input[k], genreCol, parse);
      if k in idx {
        var t :| 0 <= t < |idx| && idx[t] == k;
        assert Survives(input, TrackId, check, k);
      }
    }
  }
}
