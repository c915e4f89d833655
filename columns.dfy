/**
 * Choosing the genre column: the first of the candidate names, in their
 * listed order, that the CSV header contains; a header with none of them
 * stops the run.
 */
module Columns {
  import opened Wrappers

  /** `GENRE_COL_CANDIDATES`, in order of preference. */
  const GenreColumnCandidates: seq<string> := ["playlist_genre", "genre"]

  /** The first element of `candidates` that occurs in `header`, if any. */
  function FirstPresent(candidates: seq<string>, header: seq<string>): (r: Option<string>)
    ensures r.None? <==> forall i :: 0 <= i < |candidates| ==> candidates[i] !in header
    ensures r.Some? ==> exists i :: 0 <= i < |candidates| && candidates[i] == r.value && r.value in header
                                    && forall j :: 0 <= j < i ==> candidates[j] !in header
  {
    if candidates == [] then None
    else if candidates[0] in header then Some(candidates[0])
    else
      var r := FirstPresent(candidates[1..], header);
      assert forall i :: 1 <= i < |candidates| ==> candidates[i] == candidates[1..][i - 1];
      r
  }

  /**
   * The search loop of the script: walk the candidates in order and stop at
   * the first one the header contains. None is the "genre column not found"
   * case, which the caller reports as an error.
   */
  method SelectGenreColumn(header: seq<string>) returns (col: Option<string>)
    ensures col == FirstPresent(GenreColumnCandidates, header)
    ensures col.Some? ==> col.value in header
  {
    col := None;
    var i := 0;
    while i < |GenreColumnCandidates|
      invariant 0 <= i <= |GenreColumnCandidates|
      invariant col.None?
      invariant FirstPresent(GenreColumnCandidates, header) == FirstPresent(GenreColumnCandidates[i..], header)
    {
      var c := GenreColumnCandidates[i];
      if c in header {
        col := Some(c);
        break;
      }
      assert GenreColumnCandidates[i..][1..] == GenreColumnCandidates[i + 1..];
      i := i + 1;
    }
  }
}
