/**
 * The preprocessing run as a whole, file reading and writing aside: pick
 * the genre column from the header, clean the rows, keep the ten most
 * frequent genres.
 */
module Pipeline {
  import opened Wrappers
  import opened Numbers
  import opened Columns
  import opened Cleaning
  import opened TopGenres

  /** The run stops when the header names no genre column; it reports the columns it saw. */
  datatype PreprocessError = GenreColumnNotFound(available: seq<string>)

  /** The dataset the run writes, for a given genre column. */
  function CleanDataset(input: seq<RawRow>, genreCol: string, parse: Parser): (out: seq<CleanRow>)
    ensures |out| <= |input|
    ensures forall r :: r in out ==> r in Kept(input, genreCol, parse)
  {
    var rows := Kept(input, genreCol, parse);
    var top := TopGenresOf(rows);
    KeepGenresAt(rows, top);
    KeepGenres(rows, top)
  }

  /**
   * `main` without its I/O: `header` is the CSV header (`reader.fieldnames
   * or []`), `input` the data rows in file order, and the result the rows
   * written to the output file.
   */
  method Preprocess(header: seq<string>, input: seq<RawRow>, parse: Parser)
    returns (result: Result<seq<CleanRow>, PreprocessError>)
    ensures result.Failure? <==> forall c :: c in GenreColumnCandidates ==> c !in header
    ensures result.Failure? ==> result.error == GenreColumnNotFound(header)
    ensures result.Success? ==> result.value == CleanDataset(input, FirstPresent(GenreColumnCandidates, header).value, parse)
  {
    var genreCol := SelectGenreColumn(header);
    if genreCol.None? {
      return Failure(GenreColumnNotFound(header));
    }
    var rows := Clean(input, genreCol.value, parse);
    rows := KeepTopGenres(rows);
    result := Success(rows);
  }

  /**
   * What the written dataset satisfies: distinct track ids, well-formed
   * rows, and genres from a top set of at most TopCount genres.
   */
  lemma CleanDatasetProperties(input: seq<RawRow>, genreCol: string, parse: Parser)
    ensures var out := CleanDataset(input, genreCol, parse);
            && (forall a, b :: 0 <= a < b < |out| ==> out[a].id != out[b].id)
            && (forall r :: r in out ==> WellFormed(r) && r.genre in TopGenresOf(Kept(input, genreCol, parse)))
            && |TopGenresOf(Kept(input, genreCol, parse))| <= TopCount
  {
    var rows := Kept(input, genreCol, parse);
    var top := TopGenresOf(rows);
    var out := CleanDataset(input, genreCol, parse);
    var idx := KeepPositions(rows, top);
    KeepGenresAt(rows, top);
    KeptIdsDistinct(input, genreCol, parse);
    KeptWellFormed(input, genreCol, parse);
    TopAtMostTen(rows);
    forall a, b | 0 <= a < b < |out|
      ensures out[a].id != out[b].id
    {
      assert out[a] == rows[idx[a]] && out[b] == rows[idx[b]];
    }
    forall r | r in out
      ensures WellFormed(r) && r.genre in top
    {
      var t :| 0 <= t < |out| && out[t] == r;
      assert r == rows[idx[t]];
    }
  }
}
