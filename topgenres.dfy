/**
 * Keeping the ten most frequent genres: count the cleaned rows per genre (a
 * dict, whose keys keep the order in which genres were first met), sort the
 * (genre, count) pairs by count, largest first, with Python's stable sort,
 * take the genres of the first ten pairs and keep the rows of those genres.
 */
module TopGenres {
  import opened Cleaning

  /** How many genres are kept. */
  const TopCount: nat := 10

  /** One entry of the genre counts, `(genre, count)` in `counts.items()`. */
  datatype GenreCount = GenreCount(genre: string, count: nat)

  /** The number of rows of genre `g`. */
  function CountOf(rows: seq<CleanRow>, g: string): (n: nat)
    ensures n <= |rows|
    decreases |rows|
  {
    if rows == [] then 0
    else CountOf(rows[..|rows| - 1], g) + if rows[|rows| - 1].genre == g then 1 else 0
  }

  /** A genre has a positive count exactly when some row has it. */
  lemma {:induction false} CountPositive(rows: seq<CleanRow>, g: string)
    ensures CountOf(rows, g) > 0 <==> HasGenre(rows, g)
    decreases |rows|
  {
    if rows != [] {
      var n := |rows| - 1;
      CountPositive(rows[..n], g);
      assert forall i :: 0 <= i < n ==> rows[..n][i] == rows[i];
      assert HasGenre(rows, g) <==> HasGenre(rows[..n], g) || rows[n].genre == g;
    }
  }

  /** Some row has genre `g`. */
  predicate HasGenre(rows: seq<CleanRow>, g: string)
  {
    exists i :: 0 <= i < |rows| && rows[i].genre == g
  }

  predicate Distinct<T(==)>(s: seq<T>)
  {
    forall i, j :: 0 <= i < j < |s| ==> s[i] != s[j]
  }

  /** `x` stands before `y` in `s`. */
  predicate Precedes<T(==)>(s: seq<T>, x: T, y: T)
  {
    exists i, j :: 0 <= i < j < |s| && s[i] == x && s[j] == y
  }

  /** The genres in the order the counting loop first meets them: the key order of the dict. */
  function FirstSeen(rows: seq<CleanRow>): (order: seq<string>)
    ensures Distinct(order)
    ensures forall g :: g in order <==> HasGenre(rows, g)
    decreases |rows|
  {
    if rows == [] then []
    else
      var n := |rows| - 1;
      var p := FirstSeen(rows[..n]);
      var g := rows[n].genre;
      assert forall i :: 0 <= i < n ==> rows[..n][i] == rows[i];
      assert forall h :: HasGenre(rows, h) <==> HasGenre(rows[..n], h) || h == g;
      if g in p then p else p + [g]
  }

  /** Genres are listed by their first row: one listed before another had a row before any row of the other. */
  lemma {:induction false} FirstSeenOrder(rows: seq<CleanRow>, g: string, h: string)
    requires Precedes(FirstSeen(rows), g, h)
    ensures exists i :: 0 <= i < |rows| && rows[i].genre == g && forall j :: 0 <= j <= i ==> rows[j].genre != h
    decreases |rows|
  {
    var n := |rows| - 1;
    var pre := rows[..n];
    var p := FirstSeen(pre);
    assert forall i :: 0 <= i < n ==> pre[i] == rows[i];
    var a, b :| 0 <= a < b < |FirstSeen(rows)| && FirstSeen(rows)[a] == g && FirstSeen(rows)[b] == h;
    if b < |p| {
      assert p[a] == g && p[b] == h;
      FirstSeenOrder(pre, g, h);
    } else {
      assert h == rows[n].genre && h !in p && g in p;
      var i :| 0 <= i < n && pre[i].genre == g;
      forall j | 0 <= j <= i
        ensures rows[j].genre != h
      {
        assert pre[j].genre in p;
      }
    }
  }

  /** `order` and `counts` are the dict the counting loop has built from `rows`. */
  ghost predicate Tallied(rows: seq<CleanRow>, order: seq<string>, counts: map<string, nat>)
  {
    && order == FirstSeen(rows)
    && (forall g :: g in counts <==> g in order)
    && (forall g :: g in counts ==> counts[g] == CountOf(rows, g) && counts[g] >= 1)
  }

  /**
   * The counting loop: `counts[g] = counts.get(g, 0) + 1` for each row, a
   * new genre joining the end of the dict's key order.
   */
  method CountGenres(rows: seq<CleanRow>) returns (order: seq<string>, counts: map<string, nat>)
    ensures order == FirstSeen(rows)
    ensures forall g :: g in counts <==> g in order
    ensures forall g :: g in counts ==> counts[g] == CountOf(rows, g) && counts[g] >= 1
    ensures Items(order, counts) == GenreTable(rows)
  {
    order := [];
    counts := map[];
    for i := 0 to |rows|
      invariant Tallied(rows[..i], order, counts)
    {
      TallyStep(rows, i, order, counts);
      var g := rows[i].genre;
      var c := if g in counts then counts[g] else 0;
      if g !in counts {
        order := order + [g];
      }
      counts := counts[g := c + 1];
    }
    assert rows[..|rows|] == rows;
    TalliedItems(rows, order, counts);
  }

  /** The items of a dict in step with `rows` are the genre table of `rows`. */
  lemma TalliedItems(rows: seq<CleanRow>, order: seq<string>, counts: map<string, nat>)
    requires Tallied(rows, order, counts)
    ensures Items(order, counts) == GenreTable(rows)
  {
    var items, table := Items(order, counts), GenreTable(rows);
    assert |items| == |table|;
    forall i | 0 <= i < |items|
      ensures items[i] == table[i]
    {
      assert items[i].genre == order[i] && items[i] in items;
    }
  }

  /** One row of the counting loop keeps the dict in step with the rows read so far. */
  lemma TallyStep(rows: seq<CleanRow>, i: nat, order: seq<string>, counts: map<string, nat>)
    requires i < |rows| && Tallied(rows[..i], order, counts)
    ensures var g := rows[i].genre;
            Tallied(rows[..i + 1],
                    if g in counts then order else order + [g],
                    counts[g := if g in counts then counts[g] + 1 else 1])
  {
    CountStep(rows, i);
    var g := rows[i].genre;
    CountPositive(rows[..i], g);
    var next := counts[g := if g in counts then counts[g] + 1 else 1];
    forall h | h in next
      ensures next[h] == CountOf(rows[..i + 1], h) && next[h] >= 1
    {
      if h != g {
        assert h in counts && next[h] == counts[h];
      }
    }
  }

  /** What one more row does to the genre order and to every count. */
  lemma CountStep(rows: seq<CleanRow>, i: nat)
    requires i < |rows|
    ensures var g := rows[i].genre;
            FirstSeen(rows[..i + 1]) == if g in FirstSeen(rows[..i]) then FirstSeen(rows[..i]) else FirstSeen(rows[..i]) + [g]
    ensures forall h :: CountOf(rows[..i + 1], h) == CountOf(rows[..i], h) + if h == rows[i].genre then 1 else 0
  {
    assert rows[..i + 1][..i] == rows[..i];
  }

  /** `counts.items()`: the (genre, count) pairs in the dict's key order. */
  function Items(order: seq<string>, counts: map<string, nat>): (items: seq<GenreCount>)
    requires forall g :: g in order ==> g in counts
    ensures |items| == |order| && forall i :: 0 <= i < |items| ==> items[i].genre == order[i]
    ensures forall e :: e in items <==> e.genre in order && e.count == counts[e.genre]
  {
    seq(|order|, i requires 0 <= i < |order| => GenreCount(order[i], counts[order[i]]))
  }

  /** The (genre, count) table of a list of rows, as the counting loop leaves it. */
  function GenreTable(rows: seq<CleanRow>): (items: seq<GenreCount>)
    ensures |items| == |FirstSeen(rows)|
    ensures forall e :: e in items <==> HasGenre(rows, e.genre) && e.count == CountOf(rows, e.genre)
  {
    var order := FirstSeen(rows);
    var items := seq(|order|, i requires 0 <= i < |order| => GenreCount(order[i], CountOf(rows, order[i])));
    assert forall i :: 0 <= i < |items| ==> items[i] == GenreCount(order[i], CountOf(rows, order[i]));
    assert forall g :: g in order ==> exists i :: 0 <= i < |order| && order[i] == g;
    items
  }

  /** Counts never increase along `s`. */
  predicate SortedDesc(s: seq<GenreCount>)
  {
    forall i, j :: 0 <= i < j < |s| ==> s[i].count >= s[j].count
  }

  /** The entries of `s` with count `c`, in their order in `s`. */
  function WithCount(s: seq<GenreCount>, c: nat): seq<GenreCount>
  {
    if s == [] then []
    else if s[0].count == c then [s[0]] + WithCount(s[1..], c)
    else WithCount(s[1..], c)
  }

  /** WithCount keeps exactly the entries of count `c`. */
  lemma {:induction false} WithCountMembers(s: seq<GenreCount>, c: nat)
    ensures forall x :: x in WithCount(s, c) <==> x in s && x.count == c
  {
    if s != [] {
      WithCountMembers(s[1..], c);
      assert forall x :: x in s <==> x == s[0] || x in s[1..];
    }
  }

  /** No entry of count `c`, nothing kept. */
  lemma {:induction false} WithCountNone(s: seq<GenreCount>, c: nat)
    requires forall k :: 0 <= k < |s| ==> s[k].count != c
    ensures WithCount(s, c) == []
  {
    if s != [] {
      WithCountNone(s[1..], c);
    }
  }

  lemma {:induction false} WithCountAppend(a: seq<GenreCount>, b: seq<GenreCount>, c: nat)
    ensures WithCount(a + b, c) == WithCount(a, c) + WithCount(b, c)
  {
    if a == [] {
      assert a + b == b;
    } else {
      assert (a + b)[1..] == a[1..] + b;
      WithCountAppend(a[1..], b, c);
    }
  }

  /**
   * Stable insertion of `x` into a list sorted by count, largest first: it
   * goes after every entry whose count is at least its own.
   */
  function Insert(x: GenreCount, s: seq<GenreCount>): seq<GenreCount>
  {
    if s == [] then [x]
    else if s[0].count >= x.count then [s[0]] + Insert(x, s[1..])
    else [x] + s
  }

  /** No entry of `s` has a count above `m`. */
  predicate AtMost(s: seq<GenreCount>, m: nat)
  {
    forall k :: 0 <= k < |s| ==> s[k].count <= m
  }

  /** An entry whose count bounds a sorted list may stand in front of it. */
  lemma SortedCons(a: GenreCount, t: seq<GenreCount>)
    requires SortedDesc(t) && AtMost(t, a.count)
    ensures SortedDesc([a] + t)
  {
    forall i, j | 0 <= i < j < |[a] + t|
      ensures ([a] + t)[i].count >= ([a] + t)[j].count
    {
      if i == 0 {
        assert ([a] + t)[j] == t[j - 1];
      } else {
        assert ([a] + t)[i] == t[i - 1] && ([a] + t)[j] == t[j - 1];
      }
    }
  }

  /** Inserting an entry under a bound keeps the list under it. */
  lemma {:induction false} InsertAtMost(x: GenreCount, s: seq<GenreCount>, m: nat)
    requires AtMost(s, m) && x.count <= m
    ensures AtMost(Insert(x, s), m)
    decreases |s|
  {
    if s != [] && s[0].count >= x.count {
      assert AtMost(s[1..], m);
      InsertAtMost(x, s[1..], m);
      var u := [s[0]] + Insert(x, s[1..]);
      assert Insert(x, s) == u;
      assert forall k :: 0 < k < |u| ==> u[k] == Insert(x, s[1..])[k - 1];
    } else if s != [] {
      assert Insert(x, s) == [x] + s;
    }
  }

  /** Insertion keeps a list sorted. */
  lemma {:induction false} InsertSorted(x: GenreCount, s: seq<GenreCount>)
    requires SortedDesc(s)
    ensures SortedDesc(Insert(x, s))
    decreases |s|
  {
    if s != [] {
      if s[0].count >= x.count {
        var t := Insert(x, s[1..]);
        assert SortedDesc(s[1..]);
        assert forall k :: 0 <= k < |s[1..]| ==> s[1..][k] == s[k + 1];
        InsertSorted(x, s[1..]);
        InsertAtMost(x, s[1..], s[0].count);
        SortedCons(s[0], t);
        assert Insert(x, s) == [s[0]] + t;
      } else {
        assert forall k :: 0 <= k < |s| ==> s[k].count <= s[0].count;
        SortedCons(x, s);
        assert Insert(x, s) == [x] + s;
      }
    }
  }

  /** Insertion adds exactly `x`. */
  lemma {:induction false} InsertPermutes(x: GenreCount, s: seq<GenreCount>)
    ensures multiset(Insert(x, s)) == multiset(s) + multiset{x}
    decreases |s|
  {
    if s != [] {
      if s[0].count >= x.count {
        InsertPermutes(x, s[1..]);
        assert Insert(x, s) == [s[0]] + Insert(x, s[1..]);
        assert s == [s[0]] + s[1..];
      } else {
        assert Insert(x, s) == [x] + s;
      }
    }
  }

  /** Insertion is stable: among entries of any one count, `x` comes last. */
  lemma {:induction false} InsertStable(x: GenreCount, s: seq<GenreCount>, c: nat)
    requires SortedDesc(s)
    ensures WithCount(Insert(x, s), c) == WithCount(s, c) + WithCount([x], c)
    decreases |s|, 1
  {
    if s == [] {
      assert Insert(x, s) == [x];
      assert [x] == [] + [x];
    } else if s[0].count >= x.count {
      InsertBehind(x, s, c);
    } else {
      InsertInFront(x, s, c);
    }
  }

  lemma {:induction false} InsertBehind(x: GenreCount, s: seq<GenreCount>, c: nat)
    requires SortedDesc(s) && s != [] && s[0].count >= x.count
    ensures WithCount(Insert(x, s), c) == WithCount(s, c) + WithCount([x], c)
    decreases |s|, 0
  {
    assert SortedDesc(s[1..]);
    var t := Insert(x, s[1..]);
    var u := [s[0]] + t;
    assert Insert(x, s) == u;
    assert u[0] == s[0] && u[1..] == t;
    InsertStable(x, s[1..], c);
    if s[0].count == c {
      assert WithCount(u, c) == [s[0]] + WithCount(t, c);
      assert WithCount(s, c) == [s[0]] + WithCount(s[1..], c);
    } else {
      assert WithCount(u, c) == WithCount(t, c);
      assert WithCount(s, c) == WithCount(s[1..], c);
    }
  }

  lemma {:induction false} InsertInFront(x: GenreCount, s: seq<GenreCount>, c: nat)
    requires SortedDesc(s) && s != [] && s[0].count < x.count
    ensures WithCount(Insert(x, s), c) == WithCount(s, c) + WithCount([x], c)
  {
    assert Insert(x, s) == [x] + s;
    WithCountAppend([x], s, c);
    if x.count == c {
      WithCountNone(s, c);
    } else {
      assert [x][1..] == [];
    }
  }

  /**
   * `sorted(items, key=count, reverse=True)`: sorted by count, largest first,
   * and a permutation of `items`.
   */
  function SortByCount(items: seq<GenreCount>): (r: seq<GenreCount>)
    ensures SortedDesc(r)
    ensures multiset(r) == multiset(items)
    decreases |items|
  {
    if items == [] then []
    else
      var n := |items| - 1;
      assert items == items[..n] + [items[n]];
      InsertSorted(items[n], SortByCount(items[..n]));
      InsertPermutes(items[n], SortByCount(items[..n]));
      Insert(items[n], SortByCount(items[..n]))
  }

  /**
   * Python's sort is stable, also with `reverse=True`: entries of equal
   * count keep their relative order.
   */
  lemma {:induction false} SortStable(items: seq<GenreCount>, c: nat)
    ensures WithCount(SortByCount(items), c) == WithCount(items, c)
    decreases |items|
  {
    if items != [] {
      var n := |items| - 1;
      assert items == items[..n] + [items[n]];
      SortStable(items[..n], c);
      InsertStable(items[n], SortByCount(items[..n]), c);
      WithCountAppend(items[..n], [items[n]], c);
    }
  }

  /** The genres of the first `k` entries: `set(g for g, _ in sorted_items[:k])`. */
  function GenresOfFirst(s: seq<GenreCount>, k: nat): (top: set<string>)
    requires k <= |s|
    ensures |top| <= k
    ensures forall g :: g in top <==> exists i :: 0 <= i < k && s[i].genre == g
  {
    if k == 0 then {} else GenresOfFirst(s, k - 1) + {s[k - 1].genre}
  }

  /** The genres kept: those of the first TopCount entries of the sorted table. */
  function TopGenresOf(rows: seq<CleanRow>): (top: set<string>)
    ensures |top| <= TopCount
  {
    var sorted := SortByCount(GenreTable(rows));
    GenresOfFirst(sorted, if |sorted| < TopCount then |sorted| else TopCount)
  }

  /** `[r for r in rows if r["genre"] in top]` */
  function KeepGenres(rows: seq<CleanRow>, top: set<string>): (kept: seq<CleanRow>)
    ensures |kept| <= |rows|
    decreases |rows|
  {
    if rows == [] then []
    else
      var n := |rows| - 1;
      KeepGenres(rows[..n], top) + if rows[n].genre in top then [rows[n]] else []
  }

  /** The filter keeps all the rows of a kept genre and none of a dropped one. */
  lemma {:induction false} KeepGenresCounts(rows: seq<CleanRow>, top: set<string>, g: string)
    ensures CountOf(KeepGenres(rows, top), g) == if g in top then CountOf(rows, g) else 0
    decreases |rows|
  {
    if rows != [] {
      var n := |rows| - 1;
      var p := KeepGenres(rows[..n], top);
      KeepGenresCounts(rows[..n], top, g);
      if rows[n].genre in top {
        assert (p + [rows[n]])[..|p|] == p;
      } else {
        assert KeepGenres(rows, top) == p;
      }
    }
  }

  /** The input positions of the rows whose genre is in `top`, in increasing order. */
  function KeepPositions(rows: seq<CleanRow>, top: set<string>): (idx: seq<nat>)
    ensures forall t :: 0 <= t < |idx| ==> idx[t] < |rows| && rows[idx[t]].genre in top
    ensures forall s, t :: 0 <= s < t < |idx| ==> idx[s] < idx[t]
    ensures forall k :: 0 <= k < |rows| && rows[k].genre in top ==> k in idx
    decreases |rows|
  {
    if rows == [] then []
    else
      var n := |rows| - 1;
      var p := KeepPositions(rows[..n], top);
      assert forall k :: 0 <= k < n ==> rows[..n][k] == rows[k];
      if rows[n].genre in top then
        assert forall t :: 0 <= t < |p| ==> (p + [n])[t] == p[t];
        p + [n]
      else
        p
  }

  /** The filter's output is, position by position, the rows at KeepPositions. */
  ghost predicate PositionsMatch(rows: seq<CleanRow>, top: set<string>)
  {
    var idx := KeepPositions(rows, top);
    && |idx| == |KeepGenres(rows, top)|
    && forall t :: 0 <= t < |idx| ==> KeepGenres(rows, top)[t] == rows[idx[t]]
  }

  lemma {:induction false} KeepGenresAt(rows: seq<CleanRow>, top: set<string>)
    ensures PositionsMatch(rows, top)
    decreases |rows|
  {
    if rows != [] {
      KeepGenresAt(rows[..|rows| - 1], top);
      KeepGenresAtStep(rows, top);
    }
  }

  /** One more row: the match for the prefix extends to the whole list. */
  lemma KeepGenresAtStep(rows: seq<CleanRow>, top: set<string>)
    requires rows != [] && PositionsMatch(rows[..|rows| - 1], top)
    ensures PositionsMatch(rows, top)
  {
    var n := |rows| - 1;
    var p := KeepPositions(rows[..n], top);
    var q := KeepGenres(rows[..n], top);
    if rows[n].genre in top {
      assert KeepPositions(rows, top) == p + [n];
      assert KeepGenres(rows, top) == q + [rows[n]];
      forall t | 0 <= t < |p| + 1
        ensures (q + [rows[n]])[t] == rows[(p + [n])[t]]
      {
        if t < |p| {
          assert (q + [rows[n]])[t] == q[t] && (p + [n])[t] == p[t];
          assert rows[..n][p[t]] == rows[p[t]];
        }
      }
    } else {
      assert KeepPositions(rows, top) == p;
      assert KeepGenres(rows, top) == q;
      forall t | 0 <= t < |p|
        ensures q[t] == rows[p[t]]
      {
        assert rows[..n][p[t]] == rows[p[t]];
      }
    }
  }

  /** The filter keeps every row when every genre is kept. */
  lemma {:induction false} KeepGenresAll(rows: seq<CleanRow>, top: set<string>)
    requires forall i :: 0 <= i < |rows| ==> rows[i].genre in top
    ensures KeepGenres(rows, top) == rows
    decreases |rows|
  {
    if rows != [] {
      var n := |rows| - 1;
      KeepGenresAll(rows[..n], top);
      assert rows == rows[..n] + [rows[n]];
    }
  }

  /** Filtering on count `c` keeps the relative order of two entries of count `c`. */
  lemma {:induction false} PrecedesKeep(s: seq<GenreCount>, x: GenreCount, y: GenreCount, c: nat)
    requires x.count == c && y.count == c && Precedes(s, x, y)
    ensures Precedes(WithCount(s, c), x, y)
    decreases |s|
  {
    var i, j :| 0 <= i < j < |s| && s[i] == x && s[j] == y;
    var w := WithCount(s[1..], c);
    assert s[1..][j - 1] == y;
    if i == 0 {
      assert WithCount(s, c) == [x] + w;
      WithCountMembers(s[1..], c);
      var k :| 0 <= k < |w| && w[k] == y;
      assert ([x] + w)[0] == x && ([x] + w)[k + 1] == y;
    } else {
      assert s[1..][i - 1] == x;
      PrecedesKeep(s[1..], x, y, c);
      var a, b :| 0 <= a < b < |w| && w[a] == x && w[b] == y;
      if s[0].count == c {
        assert WithCount(s, c) == [s[0]] + w;
        assert ([s[0]] + w)[a + 1] == x && ([s[0]] + w)[b + 1] == y;
      } else {
        assert WithCount(s, c) == w;
      }
    }
  }

  /** Two entries in order after filtering were in that order before. */
  lemma {:induction false} PrecedesBack(s: seq<GenreCount>, x: GenreCount, y: GenreCount, c: nat)
    requires Precedes(WithCount(s, c), x, y)
    ensures Precedes(s, x, y)
    decreases |s|
  {
    assert s != [];
    var w := WithCount(s[1..], c);
    if s[0].count == c {
      var v := [s[0]] + w;
      assert WithCount(s, c) == v;
      var a, b :| 0 <= a < b < |v| && v[a] == x && v[b] == y;
      assert w[b - 1] == y;
      if a == 0 {
        WithCountMembers(s[1..], c);
        var k :| 0 <= k < |s[1..]| && s[1..][k] == y;
        assert s[0] == x && s[k + 1] == y;
      } else {
        assert w[a - 1] == x;
        PrecedesBack(s[1..], x, y, c);
        var i, j :| 0 <= i < j < |s[1..]| && s[1..][i] == x && s[1..][j] == y;
        assert s[i + 1] == x && s[j + 1] == y;
      }
    } else {
      assert WithCount(s, c) == w;
      PrecedesBack(s[1..], x, y, c);
      var i, j :| 0 <= i < j < |s[1..]| && s[1..][i] == x && s[1..][j] == y;
      assert s[i + 1] == x && s[j + 1] == y;
    }
  }

  /** Every entry of the sorted table is some genre of the rows with its true count. */
  lemma SortedEntry(rows: seq<CleanRow>, e: GenreCount)
    requires e in multiset(SortByCount(GenreTable(rows)))
    ensures e == GenreCount(e.genre, CountOf(rows, e.genre)) && e.genre in FirstSeen(rows)
  {
    var table := GenreTable(rows);
    assert e in table;
  }

  /** Every genre of the rows has its entry somewhere in the sorted table. */
  lemma SortedPosition(rows: seq<CleanRow>, h: string) returns (b: nat)
    requires HasGenre(rows, h)
    ensures b < |SortByCount(GenreTable(rows))|
    ensures SortByCount(GenreTable(rows))[b] == GenreCount(h, CountOf(rows, h))
  {
    var table := GenreTable(rows);
    var order := FirstSeen(rows);
    var j :| 0 <= j < |order| && order[j] == h;
    assert table[j] in multiset(SortByCount(table));
    b :| 0 <= b < |SortByCount(table)| && SortByCount(table)[b] == table[j];
  }

  /** At most TopCount genres are kept, and only genres that occur. */
  lemma TopAtMostTen(rows: seq<CleanRow>)
    ensures |TopGenresOf(rows)| <= TopCount
    ensures forall g :: g in TopGenresOf(rows) ==> HasGenre(rows, g)
  {
    var sorted := SortByCount(GenreTable(rows));
    forall g | g in TopGenresOf(rows)
      ensures HasGenre(rows, g)
    {
      var a :| 0 <= a < |sorted| && a < TopCount && sorted[a].genre == g;
      assert sorted[a] in multiset(sorted);
      SortedEntry(rows, sorted[a]);
    }
  }

  /** A kept genre has at least as many rows as any dropped genre. */
  lemma TopDominates(rows: seq<CleanRow>, g: string, h: string)
    requires g in TopGenresOf(rows) && HasGenre(rows, h) && h !in TopGenresOf(rows)
    ensures CountOf(rows, g) >= CountOf(rows, h)
  {
    var sorted := SortByCount(GenreTable(rows));
    var a :| 0 <= a < |sorted| && a < TopCount && sorted[a].genre == g;
    assert sorted[a] in multiset(sorted);
    SortedEntry(rows, sorted[a]);
    var b := SortedPosition(rows, h);
    assert a < b;
  }

  /**
   * Ties at the cut go to the genre met first: when a kept and a dropped
   * genre have the same count, a row of the kept genre comes before every
   * row of the dropped one.
   */
  lemma TopTieBreak(rows: seq<CleanRow>, g: string, h: string)
    requires g in TopGenresOf(rows) && HasGenre(rows, h) && h !in TopGenresOf(rows)
    requires CountOf(rows, g) == CountOf(rows, h)
    ensures Precedes(FirstSeen(rows), g, h)
    ensures exists i :: 0 <= i < |rows| && rows[i].genre == g && forall j :: 0 <= j <= i ==> rows[j].genre != h
  {
    var table := GenreTable(rows);
    var c := CountOf(rows, g);
    TieInTable(rows, g, h);
    var i, j :| 0 <= i < j < |table| && table[i] == GenreCount(g, c) && table[j] == GenreCount(h, c);
    assert FirstSeen(rows)[i] == g && FirstSeen(rows)[j] == h;
    FirstSeenOrder(rows, g, h);
  }

  /** The sorting half of TopTieBreak: the kept genre's entry already stood first in `counts.items()`. */
  lemma TieInTable(rows: seq<CleanRow>, g: string, h: string)
    requires g in TopGenresOf(rows) && HasGenre(rows, h) && h !in TopGenresOf(rows)
    requires CountOf(rows, g) == CountOf(rows, h)
    ensures Precedes(GenreTable(rows), GenreCount(g, CountOf(rows, g)), GenreCount(h, CountOf(rows, g)))
  {
    var table := GenreTable(rows);
    var sorted := SortByCount(table);
    var c := CountOf(rows, g);
    var a :| 0 <= a < |sorted| && a < TopCount && sorted[a].genre == g;
    assert sorted[a] in multiset(sorted);
    SortedEntry(rows, sorted[a]);
    var b := SortedPosition(rows, h);
    assert a < b;
    var x, y := GenreCount(g, c), GenreCount(h, c);
    assert Precedes(sorted, x, y);
    PrecedesKeep(sorted, x, y, c);
    SortStable(table, c);
    PrecedesBack(table, x, y, c);
  }

  /** With at most TopCount genres, the filter removes no row. */
  lemma FewGenresKeepAll(rows: seq<CleanRow>)
    requires |FirstSeen(rows)| <= TopCount
    ensures KeepGenres(rows, TopGenresOf(rows)) == rows
  {
    var sorted := SortByCount(GenreTable(rows));
    assert |sorted| == |multiset(sorted)| == |GenreTable(rows)|;
    forall i | 0 <= i < |rows|
      ensures rows[i].genre in TopGenresOf(rows)
    {
      var b := SortedPosition(rows, rows[i].genre);
    }
    KeepGenresAll(rows, TopGenresOf(rows));
  }

  /**
   * The last step of the script: count, sort, take the top genres and keep
   * their rows.
   */
  method KeepTopGenres(rows: seq<CleanRow>) returns (kept: seq<CleanRow>)
    ensures kept == KeepGenres(rows, TopGenresOf(rows))
  {
    var order, counts := CountGenres(rows);
    var items := Items(order, counts);
    var sorted := SortByCount(items);
    var top := GenresOfFirst(sorted, if |sorted| < TopCount then |sorted| else TopCount);
    kept := KeepGenres(rows, top);
  }
}
