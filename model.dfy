/**
 * The genre-overlap recommender of `src/prediction_scripts/model.py`.
 *
 * The pandas table `self.movies` is a sequence of rows plus the optional
 * `similarity_score` column that `recommend` writes into it.
 */
module PredictionModel {
  import opened Options
  import opened Text
  import opened Ranking
  import opened Sets

  /** A row of the movies CSV as read: title, `|`-separated genres, the other cells. */
  datatype RawMovie = RawMovie(title: string, genres: string, otherCells: seq<string>)

  /** A row after preparation: the genres field has become a set of genre names. */
  datatype Movie = Movie(title: string, genres: set<string>, otherCells: seq<string>)

  /** One entry of a recommendation list: `{'title': ..., 'similarity_score': ...}`. */
  datatype Recommendation = Recommendation(title: string, similarityScore: int)

  /** `recommend` returns either a list of entries or a message string. */
  datatype RecommendOutcome =
    | Recommendations(entries: seq<Recommendation>)
    | NotFound(message: string)

  // ---------------------------------------------------------------------------
  // prepare_data
  // ---------------------------------------------------------------------------

  /**
   * `DataFrame.drop_duplicates()`: a row equal in every cell to an earlier row
   * is dropped. No row is invented and none is lost entirely.
   */
  function DropDuplicates(rows: seq<RawMovie>): (kept: seq<RawMovie>)
    ensures forall x :: x in kept <==> x in rows
  {
    if rows == [] then []
    else
      var k := DropDuplicates(rows[..|rows| - 1]);
      var last := rows[|rows| - 1];
      assert rows == rows[..|rows| - 1] + [last];
      if last in k then k else k + [last]
  }

  /** Position of the first occurrence of `x` in `rows`. */
  function FirstOccurrence(rows: seq<RawMovie>, x: RawMovie): (i: nat)
    requires x in rows
    ensures i < |rows| && rows[i] == x
    ensures forall j :: 0 <= j < i ==> rows[j] != x
  {
    if rows[0] == x then 0 else 1 + FirstOccurrence(rows[1..], x)
  }

  /** No two rows of `rows` are equal. */
  predicate Distinct(rows: seq<RawMovie>) {
    forall i, j :: 0 <= i < j < |rows| ==> rows[i] != rows[j]
  }

  /** The rows of `kept` appear in the order of their first occurrences in `rows`. */
  predicate InFirstOccurrenceOrder(rows: seq<RawMovie>, kept: seq<RawMovie>)
    requires forall x :: x in kept ==> x in rows
  {
    forall i, j :: 0 <= i < j < |kept| ==> FirstOccurrence(rows, kept[i]) < FirstOccurrence(rows, kept[j])
  }

  /** After `drop_duplicates` no two rows are equal. */
  lemma {:induction false} DropDuplicatesDistinct(rows: seq<RawMovie>)
    ensures Distinct(DropDuplicates(rows))
  {
    if rows != [] {
      var prefix := rows[..|rows| - 1];
      DropDuplicatesDistinct(prefix);
      var k := DropDuplicates(prefix);
      var last := rows[|rows| - 1];
      if last !in k {
        var kept := k + [last];
        assert DropDuplicates(rows) == kept;
        forall i, j | 0 <= i < j < |kept| ensures kept[i] != kept[j] {
          if j == |k| {
            assert kept[i] == k[i] && k[i] in k;
          } else {
            assert kept[i] == k[i] && kept[j] == k[j];
          }
        }
      }
    }
  }

  /**
   * `drop_duplicates` keeps the first occurrence of each row and the relative
   * order: the kept rows appear in the order of their first occurrences.
   */
  lemma {:induction false} DropDuplicatesKeepsFirstInOrder(rows: seq<RawMovie>)
    ensures InFirstOccurrenceOrder(rows, DropDuplicates(rows))
  {
    if rows != [] {
      var prefix := rows[..|rows| - 1];
      var last := rows[|rows| - 1];
      DropDuplicatesKeepsFirstInOrder(prefix);
      var k := DropDuplicates(prefix);
      forall x | x in prefix ensures FirstOccurrence(rows, x) == FirstOccurrence(prefix, x) {
        FirstOccurrenceInPrefix(prefix, last, x);
      }
      forall i | 0 <= i < |k| ensures k[i] in prefix && FirstOccurrence(rows, k[i]) < |prefix| {
        assert k[i] in k;
      }
      if last !in k {
        assert last !in prefix;
        assert FirstOccurrence(rows, last) == |rows| - 1;
        var kept := k + [last];
        assert DropDuplicates(rows) == kept;
        forall i, j | 0 <= i < j < |kept|
          ensures FirstOccurrence(rows, kept[i]) < FirstOccurrence(rows, kept[j])
        {
          assert kept[i] == k[i];
          if j < |k| {
            assert kept[j] == k[j];
            assert FirstOccurrence(prefix, k[i]) < FirstOccurrence(prefix, k[j]);
          }
        }
      } else {
        forall i, j | 0 <= i < j < |k|
          ensures FirstOccurrence(rows, k[i]) < FirstOccurrence(rows, k[j])
        {
          assert FirstOccurrence(prefix, k[i]) < FirstOccurrence(prefix, k[j]);
        }
      }
    }
  }

  /** Appending a row does not move the first occurrence of an earlier one. */
  lemma {:induction false} FirstOccurrenceInPrefix(prefix: seq<RawMovie>, last: RawMovie, x: RawMovie)
    requires x in prefix
    ensures FirstOccurrence(prefix + [last], x) == FirstOccurrence(prefix, x)
  {
    if prefix[0] != x {
      assert (prefix + [last])[1..] == prefix[1..] + [last];
      FirstOccurrenceInPrefix(prefix[1..], last, x);
    }
  }

  /** `set(field.split('|'))`: the genre names of a raw genres field. */
  function GenreSet(field: string): (genres: set<string>)
    ensures forall g :: g in genres ==> Free(g, '|')
  {
    set g | g in Split(field, '|')
  }

  /** A field written as `|`-joined genre names reads back as exactly those names. */
  lemma GenreSetOfJoined(names: seq<string>)
    requires |names| >= 1
    requires forall k :: 0 <= k < |names| ==> Free(names[k], '|')
    ensures GenreSet(Join(names, '|')) == set g | g in names
  {
    SplitJoin(names, '|');
  }

  /** The genre set holds exactly the pieces of the field, and the pieces rebuild the field. */
  lemma GenreSetCoversField(field: string)
    ensures forall g :: g in GenreSet(field) <==> g in Split(field, '|')
    ensures Join(Split(field, '|'), '|') == field
  {
    JoinSplit(field, '|');
  }

  /** One row after `prepare_data`. */
  function Prepare(row: RawMovie): Movie {
    Movie(row.title, GenreSet(row.genres), row.otherCells)
  }

  /**
   * The table `prepare_data` leaves in `self.movies`: every raw row appears in
   * it prepared, and every row of it is some raw row prepared.
   */
  function PreparedTable(rows: seq<RawMovie>): (table: seq<Movie>)
    ensures var kept := DropDuplicates(rows);
      |table| == |kept| && forall i :: 0 <= i < |table| ==> table[i] == Prepare(kept[i])
    ensures forall r :: r in rows ==> Prepare(r) in table
    ensures forall m :: m in table ==> exists r :: r in rows && m == Prepare(r)
  {
    var kept := DropDuplicates(rows);
    var table := seq(|kept|, i requires 0 <= i < |kept| => Prepare(kept[i]));
    assert forall r :: r in rows ==> Prepare(r) in table by {
      forall r | r in rows ensures Prepare(r) in table {
        var i :| 0 <= i < |kept| && kept[i] == r;
        assert table[i] == Prepare(r);
      }
    }
    assert forall m :: m in table ==> exists r :: r in rows && m == Prepare(r) by {
      forall m | m in table ensures exists r :: r in rows && m == Prepare(r) {
        var i :| 0 <= i < |table| && table[i] == m;
        assert kept[i] in kept;
      }
    }
    table
  }

  // ---------------------------------------------------------------------------
  // recommend
  // ---------------------------------------------------------------------------

  /** The message returned for a title with no row. */
  function NotFoundMessage(title: string): string {
    "Movie '" + title + "' not found in database."
  }

  /** Position of the first row whose title is exactly `title`. */
  function TitleIndex(movies: seq<Movie>, title: string): (r: Option<nat>)
    ensures r.None? <==> forall i :: 0 <= i < |movies| ==> movies[i].title != title
    ensures r.Some? ==> r.value < |movies| && movies[r.value].title == title
    ensures r.Some? ==> forall i :: 0 <= i < r.value ==> movies[i].title != title
  {
    if movies == [] then None
    else match TitleIndex(movies[..|movies| - 1], title)
      case Some(i) => Some(i)
      case None => if movies[|movies| - 1].title == title then Some(|movies| - 1) else None
  }

  /** Number of genres a row shares with the target genres. */
  function SimilarityScore(genres: set<string>, target: set<string>): (n: nat)
    ensures n <= |target| && n <= |genres|
  {
    var both := genres * target;
    SubsetCardinality(both, target);
    SubsetCardinality(both, genres);
    |both|
  }

  /** The `similarity_score` column: each row's overlap with the target genres. */
  function ScoreColumn(movies: seq<Movie>, target: set<string>): (column: seq<int>)
    ensures |column| == |movies|
  {
    seq(|movies|, i requires 0 <= i < |movies| => SimilarityScore(movies[i].genres, target) as int)
  }

  /** `self.movies[self.movies['title'] != movie_title]` as (title, score) pairs, in table order. */
  function Candidates(movies: seq<Movie>, column: seq<int>, title: string): (c: seq<Ranked<string>>)
    requires |column| == |movies|
    ensures forall k :: 0 <= k < |c| ==>
      exists i :: 0 <= i < |movies| && movies[i].title != title && c[k] == Ranked(movies[i].title, column[i])
  {
    if movies == [] then []
    else
      var n := |movies| - 1;
      var earlier := Candidates(movies[..n], column[..n], title);
      assert forall k :: 0 <= k < |earlier| ==>
        exists i :: 0 <= i < |movies| && movies[i].title != title && earlier[k] == Ranked(movies[i].title, column[i])
      by {
        forall k | 0 <= k < |earlier| ensures
          exists i :: 0 <= i < |movies| && movies[i].title != title && earlier[k] == Ranked(movies[i].title, column[i])
        {
          var i :| 0 <= i < n && movies[..n][i].title != title && earlier[k] == Ranked(movies[..n][i].title, column[..n][i]);
          assert movies[..n][i] == movies[i] && column[..n][i] == column[i];
        }
      }
      if movies[n].title != title then earlier + [Ranked(movies[n].title, column[n])] else earlier
  }

  /** Rows whose title differs from `title`. */
  function OtherRows(movies: seq<Movie>, title: string): set<nat> {
    set i | 0 <= i < |movies| && movies[i].title != title
  }

  /** Number of rows `DataFrame.head(n)` keeps of `len`; a negative `n` drops the last `-n`. */
  function HeadCount(len: nat, n: int): (k: nat)
    ensures k <= len
    ensures n >= 0 ==> k == if n < len then n else len
    ensures n < 0 ==> k == if len + n > 0 then len + n else 0
  {
    if n >= 0 then (if n < len then n else len)
    else if len + n > 0 then len + n else 0
  }

  /** The output list built from the top rows. */
  function AsRecommendations(top: seq<Ranked<string>>): (entries: seq<Recommendation>)
    ensures |entries| == |top|
    ensures forall k :: 0 <= k < |top| ==> entries[k] == Recommendation(top[k].item, top[k].score)
  {
    seq(|top|, k requires 0 <= k < |top| => Recommendation(top[k].item, top[k].score))
  }

  /** The rows `recommend` returns: `head(n)` of the candidates sorted by score. */
  function TopCandidates(movies: seq<Movie>, column: seq<int>, title: string, n: int): seq<Ranked<string>>
    requires |column| == |movies|
  {
    var sorted := SortByScore(Candidates(movies, column, title));
    sorted[..HeadCount(|sorted|, n)]
  }

  /** What `recommend(title, n)` returns on table `movies`. */
  function RecommendFor(movies: seq<Movie>, title: string, n: int): RecommendOutcome {
    match TitleIndex(movies, title)
    case None => NotFound(NotFoundMessage(title))
    case Some(t) => Recommendations(AsRecommendations(TopCandidates(movies, ScoreColumn(movies, movies[t].genres), title, n)))
  }

  /** An unknown title gives the message, and only an unknown title does. */
  lemma RecommendNotFound(movies: seq<Movie>, title: string, n: int)
    ensures RecommendFor(movies, title, n).NotFound? <==>
      forall i :: 0 <= i < |movies| ==> movies[i].title != title
    ensures RecommendFor(movies, title, n).NotFound? ==>
      RecommendFor(movies, title, n).message == "Movie '" + title + "' not found in database."
  {
  }

  /** Every candidate carries a title other than the query's. */
  lemma CandidatesExcludeTitle(movies: seq<Movie>, column: seq<int>, title: string)
    requires |column| == |movies|
    ensures forall k :: 0 <= k < |Candidates(movies, column, title)| ==>
      Candidates(movies, column, title)[k].item != title
  {
    var c := Candidates(movies, column, title);
    forall k | 0 <= k < |c| ensures c[k].item != title {
      var i :| 0 <= i < |movies| && movies[i].title != title && c[k] == Ranked(movies[i].title, column[i]);
    }
  }

  /**
   * There is one candidate per row whose title differs: the filtered positions
   * are listed once each, so they are as many as the rows in `OtherRows`.
   */
  lemma {:induction false} CandidatesCount(movies: seq<Movie>, column: seq<int>, title: string)
    requires |column| == |movies|
    ensures |Candidates(movies, column, title)| == |OtherRows(movies, title)|
  {
    var ix := OtherRowIndices(movies, title);
    var rows := OtherRows(movies, title);
    var listed: set<nat> := set i | i in ix;
    CandidatesFollowRows(movies, column, title);
    assert |Candidates(movies, column, title)| == |ix|;
    assert rows == listed by {
      forall i | i in listed ensures i in rows {
        var k :| 0 <= k < |ix| && ix[k] == i;
      }
    }
    assert forall k, l :: 0 <= k < l < |ix| ==> ix[k] != ix[l];
    DistinctCardinality<nat>(ix);
  }

  /** Each row's (title, score) pair is among the candidates when its title differs. */
  lemma {:induction false} CandidatesComplete(movies: seq<Movie>, column: seq<int>, title: string, i: nat)
    requires |column| == |movies|
    requires i < |movies| && movies[i].title != title
    ensures Ranked(movies[i].title, column[i]) in Candidates(movies, column, title)
  {
    var n := |movies| - 1;
    if i < n {
      CandidatesComplete(movies[..n], column[..n], title, i);
    }
  }

  /** Positions of the rows whose title differs from `title`, each once, in ascending order. */
  function OtherRowIndices(movies: seq<Movie>, title: string): (ix: seq<nat>)
    ensures forall k :: 0 <= k < |ix| ==> ix[k] < |movies| && movies[ix[k]].title != title
    ensures forall k, l :: 0 <= k < l < |ix| ==> ix[k] < ix[l]
    ensures forall i :: 0 <= i < |movies| && movies[i].title != title ==> i in ix
  {
    if movies == [] then []
    else
      var n := |movies| - 1;
      var earlier := OtherRowIndices(movies[..n], title);
      assert forall k :: 0 <= k < |earlier| ==> movies[..n][earlier[k]] == movies[earlier[k]];
      if movies[n].title != title then earlier + [n] else earlier
  }

  /** The k-th pair of `c` is the (title, score) of row `ix[k]`. */
  predicate RowPairs(c: seq<Ranked<string>>, ix: seq<nat>, movies: seq<Movie>, column: seq<int>) {
    && |c| == |ix|
    && forall k :: 0 <= k < |c| ==>
         ix[k] < |movies| && ix[k] < |column| && c[k] == Ranked(movies[ix[k]].title, column[ix[k]])
  }

  /** Pairs of rows of a prefix are pairs of the same rows of the whole table, and one more row extends them. */
  lemma RowPairsExtend(movies: seq<Movie>, column: seq<int>, c: seq<Ranked<string>>, ix: seq<nat>, n: nat)
    requires |column| == |movies| && n < |movies|
    requires RowPairs(c, ix, movies[..n], column[..n])
    ensures RowPairs(c, ix, movies, column)
    ensures RowPairs(c + [Ranked(movies[n].title, column[n])], ix + [n], movies, column)
  {
    forall k | 0 <= k < |c| ensures c[k] == Ranked(movies[ix[k]].title, column[ix[k]]) {
      assert movies[..n][ix[k]] == movies[ix[k]] && column[..n][ix[k]] == column[ix[k]];
    }
  }

  /**
   * The filter keeps table order and takes each row once: the k-th candidate
   * is the (title, score) pair of the k-th row whose title differs.
   */
  lemma {:induction false} CandidatesFollowRows(movies: seq<Movie>, column: seq<int>, title: string)
    requires |column| == |movies|
    ensures RowPairs(Candidates(movies, column, title), OtherRowIndices(movies, title), movies, column)
  {
    if movies != [] {
      var n := |movies| - 1;
      CandidatesFollowRows(movies[..n], column[..n], title);
      var earlier := Candidates(movies[..n], column[..n], title);
      var ix := OtherRowIndices(movies[..n], title);
      RowPairsExtend(movies, column, earlier, ix, n);
      if movies[n].title != title {
        assert Candidates(movies, column, title) == earlier + [Ranked(movies[n].title, column[n])];
        assert OtherRowIndices(movies, title) == ix + [n];
      } else {
        assert Candidates(movies, column, title) == earlier;
        assert OtherRowIndices(movies, title) == ix;
      }
    }
  }

  /** The top rows are drawn from the candidates without repeating any of them. */
  lemma TopCandidatesFromCandidates(movies: seq<Movie>, column: seq<int>, title: string, n: int)
    requires |column| == |movies|
    ensures multiset(TopCandidates(movies, column, title, n)) <= multiset(Candidates(movies, column, title))
  {
    var c := Candidates(movies, column, title);
    var sorted := SortByScore(c);
    var h := HeadCount(|sorted|, n);
    assert sorted == sorted[..h] + sorted[h..];
    assert multiset(sorted) == multiset(sorted[..h]) + multiset(sorted[h..]);
  }

  /** Each output entry occurs as often as its (title, score) pair occurs among the top rows. */
  lemma {:induction false} AsRecommendationsCount(top: seq<Ranked<string>>, r: Recommendation)
    ensures multiset(AsRecommendations(top))[r] == multiset(top)[Ranked(r.title, r.similarityScore)]
  {
    if top != [] {
      var n := |top| - 1;
      AsRecommendationsCount(top[..n], r);
      assert AsRecommendations(top) == AsRecommendations(top[..n]) + [Recommendation(top[n].item, top[n].score)];
      assert top == top[..n] + [top[n]];
    }
  }

  /** The entry of every row whose title differs, one per row, in table order. */
  function OtherRowEntries(movies: seq<Movie>, title: string, target: set<string>): seq<Recommendation> {
    var ix := OtherRowIndices(movies, title);
    seq(|ix|, k requires 0 <= k < |ix| => Recommendation(movies[ix[k]].title, |movies[ix[k]].genres * target|))
  }

  /** Turning every candidate into an output entry lists each other row once, in table order. */
  lemma CandidateEntries(movies: seq<Movie>, title: string, target: set<string>)
    ensures AsRecommendations(Candidates(movies, ScoreColumn(movies, target), title)) ==
      OtherRowEntries(movies, title, target)
  {
    var column := ScoreColumn(movies, target);
    var c := Candidates(movies, column, title);
    var ix := OtherRowIndices(movies, title);
    var rows := OtherRowEntries(movies, title, target);
    CandidatesFollowRows(movies, column, title);
    forall k | 0 <= k < |c| ensures AsRecommendations(c)[k] == rows[k] {
      ScoreColumnCounts(movies, target, ix[k]);
    }
  }

  /**
   * No row is listed twice: the entries are a sub-multiset of the entries of
   * the rows whose title differs, taken one per row and scored against the
   * first row titled `title`.
   */
  lemma RecommendEntriesOncePerRow(movies: seq<Movie>, title: string, n: int)
    requires RecommendFor(movies, title, n).Recommendations?
    ensures var t := TitleIndex(movies, title).value;
      multiset(RecommendFor(movies, title, n).entries) <= multiset(OtherRowEntries(movies, title, movies[t].genres))
  {
    var t := TitleIndex(movies, title).value;
    var target := movies[t].genres;
    var column := ScoreColumn(movies, target);
    var c := Candidates(movies, column, title);
    var top := TopCandidates(movies, column, title, n);
    var e := RecommendFor(movies, title, n).entries;
    var rows := OtherRowEntries(movies, title, target);
    TopCandidatesFromCandidates(movies, column, title, n);
    CandidateEntries(movies, title, target);
    forall r ensures multiset(e)[r] <= multiset(rows)[r] {
      AsRecommendationsCount(top, r);
      AsRecommendationsCount(c, r);
    }
  }

  /** No entry has the query title: every row carrying it is excluded. */
  lemma RecommendExcludesQuery(movies: seq<Movie>, title: string, n: int)
    requires RecommendFor(movies, title, n).Recommendations?
    ensures forall k :: 0 <= k < |RecommendFor(movies, title, n).entries| ==>
      RecommendFor(movies, title, n).entries[k].title != title
  {
    var t := TitleIndex(movies, title).value;
    var c := Candidates(movies, ScoreColumn(movies, movies[t].genres), title);
    CandidatesExcludeTitle(movies, ScoreColumn(movies, movies[t].genres), title);
    var sorted := SortByScore(c);
    forall k | 0 <= k < |sorted| ensures sorted[k].item != title {
      assert sorted[k] in multiset(c);
    }
  }

  /**
   * The list has `head(n)` of the rows whose title differs: min(n, count) for
   * n >= 0, so at most 10 with the default.
   */
  lemma RecommendLength(movies: seq<Movie>, title: string, n: int)
    requires RecommendFor(movies, title, n).Recommendations?
    ensures |RecommendFor(movies, title, n).entries| == HeadCount(|OtherRows(movies, title)|, n)
  {
    var t := TitleIndex(movies, title).value;
    var column := ScoreColumn(movies, movies[t].genres);
    CandidatesCount(movies, column, title);
    var c := Candidates(movies, column, title);
    assert |multiset(SortByScore(c))| == |multiset(c)|;
  }

  /** Scores never increase along the returned list. */
  lemma RecommendOrdered(movies: seq<Movie>, title: string, n: int)
    requires RecommendFor(movies, title, n).Recommendations?
    ensures var e := RecommendFor(movies, title, n).entries;
      forall i, j :: 0 <= i < j < |e| ==> e[i].similarityScore >= e[j].similarityScore
  {
  }

  /** Each top entry is the (title, score) of a row whose title differs. */
  lemma TopEntriesAreRows(movies: seq<Movie>, column: seq<int>, title: string, n: int)
    requires |column| == |movies|
    ensures var e := AsRecommendations(TopCandidates(movies, column, title, n));
      forall k :: 0 <= k < |e| ==>
        exists i :: 0 <= i < |movies| && movies[i].title != title && e[k] == Recommendation(movies[i].title, column[i])
  {
    var c := Candidates(movies, column, title);
    var sorted := SortByScore(c);
    var e := AsRecommendations(TopCandidates(movies, column, title, n));
    forall k | 0 <= k < |e| ensures
      exists i :: 0 <= i < |movies| && movies[i].title != title && e[k] == Recommendation(movies[i].title, column[i])
    {
      assert e[k] == Recommendation(sorted[k].item, sorted[k].score);
      assert sorted[k] in multiset(c);
      var m :| 0 <= m < |c| && c[m] == sorted[k];
    }
  }

  /** An entry with fewer copies among the top entries than among the candidates scores no higher than any of them. */
  lemma TopEntriesCopiesLeftOut(movies: seq<Movie>, column: seq<int>, title: string, n: int)
    requires |column| == |movies|
    ensures var e := AsRecommendations(TopCandidates(movies, column, title, n));
      var all := AsRecommendations(Candidates(movies, column, title));
      forall r :: multiset(e)[r] < multiset(all)[r] ==> forall k :: 0 <= k < |e| ==> r.similarityScore <= e[k].similarityScore
  {
    var c := Candidates(movies, column, title);
    var sorted := SortByScore(c);
    SortedEntriesCopiesLeftOut(sorted, c, HeadCount(|sorted|, n));
  }

  /** The same, for the first `h` entries of any non-increasing rearrangement of `c`. */
  lemma SortedEntriesCopiesLeftOut(sorted: seq<Ranked<string>>, c: seq<Ranked<string>>, h: nat)
    requires h <= |sorted| && NonIncreasing(sorted) && multiset(sorted) == multiset(c)
    ensures var e := AsRecommendations(sorted[..h]);
      forall r :: multiset(e)[r] < multiset(AsRecommendations(c))[r] ==> forall k :: 0 <= k < |e| ==> r.similarityScore <= e[k].similarityScore
  {
    var top := sorted[..h];
    var e := AsRecommendations(top);
    forall r | multiset(e)[r] < multiset(AsRecommendations(c))[r]
      ensures forall k :: 0 <= k < |e| ==> r.similarityScore <= e[k].similarityScore
    {
      AsRecommendationsCount(top, r);
      AsRecommendationsCount(c, r);
      PrefixIsBestByCount(sorted, h, Ranked(r.title, r.similarityScore));
    }
  }

  /**
   * A row whose title differs is among the top entries or scores no higher
   * than any of them; counting copies, a row left out while an equal entry is
   * listed still scores no higher than any entry.
   */
  lemma TopEntriesAreBest(movies: seq<Movie>, column: seq<int>, title: string, n: int)
    requires |column| == |movies|
    ensures var e := AsRecommendations(TopCandidates(movies, column, title, n));
      forall i :: 0 <= i < |movies| && movies[i].title != title ==>
        || Recommendation(movies[i].title, column[i]) in e
        || forall k :: 0 <= k < |e| ==> column[i] <= e[k].similarityScore
    ensures var e := AsRecommendations(TopCandidates(movies, column, title, n));
      var all := AsRecommendations(Candidates(movies, column, title));
      forall r :: multiset(e)[r] < multiset(all)[r] ==> forall k :: 0 <= k < |e| ==> r.similarityScore <= e[k].similarityScore
  {
    var c := Candidates(movies, column, title);
    var sorted := SortByScore(c);
    var h := HeadCount(|sorted|, n);
    var e := AsRecommendations(TopCandidates(movies, column, title, n));
    TopEntriesCopiesLeftOut(movies, column, title, n);
    forall i | 0 <= i < |movies| && movies[i].title != title
      ensures Recommendation(movies[i].title, column[i]) in e || forall k :: 0 <= k < |e| ==> column[i] <= e[k].similarityScore
    {
      CandidatesComplete(movies, column, title, i);
      var x := Ranked(movies[i].title, column[i]);
      SortedPrefixIsBest(c, h, x);
      if x in sorted[..h] {
        var p :| 0 <= p < h && sorted[..h][p] == x;
        assert e[p] == Recommendation(movies[i].title, column[i]);
      }
    }
  }

  /** The score column holds each row's genre overlap with the target. */
  lemma ScoreColumnCounts(movies: seq<Movie>, target: set<string>, i: nat)
    requires i < |movies|
    ensures ScoreColumn(movies, target)[i] == |movies[i].genres * target|
    ensures 0 <= ScoreColumn(movies, target)[i] <= |target|
  {
  }

  /**
   * Each entry pairs the title of a row other than the query with that row's
   * overlap with the genres of the first row titled `title`, so its score lies
   * between 0 and the number of target genres.
   */
  lemma RecommendEntriesAreScoredRows(movies: seq<Movie>, title: string, n: int)
    requires RecommendFor(movies, title, n).Recommendations?
    ensures var t := TitleIndex(movies, title).value;
      var e := RecommendFor(movies, title, n).entries;
      forall k :: 0 <= k < |e| ==>
        && 0 <= e[k].similarityScore <= |movies[t].genres|
        && exists i :: 0 <= i < |movies| && movies[i].title != title && e[k].title == movies[i].title
             && e[k].similarityScore == |movies[i].genres * movies[t].genres|
  {
    var t := TitleIndex(movies, title).value;
    var target := movies[t].genres;
    var column := ScoreColumn(movies, target);
    var e := AsRecommendations(TopCandidates(movies, column, title, n));
    assert RecommendFor(movies, title, n).entries == e;
    TopEntriesAreRows(movies, column, title, n);
    forall k | 0 <= k < |e|
      ensures 0 <= e[k].similarityScore <= |target|
      ensures exists i :: (0 <= i < |movies| && movies[i].title != title && e[k].title == movies[i].title &&
        e[k].similarityScore == |movies[i].genres * target|)
    {
      var i :| 0 <= i < |movies| && movies[i].title != title && e[k] == Recommendation(movies[i].title, column[i]);
      ScoreColumnCounts(movies, target, i);
    }
  }

  /**
   * The list holds the best-scoring rows: a row whose title differs either has
   * its (title, score) entry in the list or scores no higher than any entry;
   * and, counting copies, a row left out while an equal entry is listed also
   * scores no higher than any entry.
   */
  lemma RecommendTopScores(movies: seq<Movie>, title: string, n: int)
    requires RecommendFor(movies, title, n).Recommendations?
    ensures var t := TitleIndex(movies, title).value;
      var e := RecommendFor(movies, title, n).entries;
      forall i :: 0 <= i < |movies| && movies[i].title != title ==>
        var s := |movies[i].genres * movies[t].genres|;
        || Recommendation(movies[i].title, s) in e
        || forall k :: 0 <= k < |e| ==> s <= e[k].similarityScore
    ensures var t := TitleIndex(movies, title).value;
      var e := RecommendFor(movies, title, n).entries;
      var rows := OtherRowEntries(movies, title, movies[t].genres);
      forall r :: multiset(e)[r] < multiset(rows)[r] ==> forall k :: 0 <= k < |e| ==> r.similarityScore <= e[k].similarityScore
  {
    RecommendRowsLeftOut(movies, title, n);
    RecommendCopiesLeftOut(movies, title, n);
  }

  /** A row whose title differs is listed with its score or scores no higher than any entry. */
  lemma RecommendRowsLeftOut(movies: seq<Movie>, title: string, n: int)
    requires RecommendFor(movies, title, n).Recommendations?
    ensures var t := TitleIndex(movies, title).value;
      var e := RecommendFor(movies, title, n).entries;
      forall i :: 0 <= i < |movies| && movies[i].title != title ==>
        var s := |movies[i].genres * movies[t].genres|;
        || Recommendation(movies[i].title, s) in e
        || forall k :: 0 <= k < |e| ==> s <= e[k].similarityScore
  {
    var t := TitleIndex(movies, title).value;
    var target := movies[t].genres;
    var column := ScoreColumn(movies, target);
    var e := AsRecommendations(TopCandidates(movies, column, title, n));
    assert RecommendFor(movies, title, n).entries == e;
    TopEntriesAreBest(movies, column, title, n);
    forall i | 0 <= i < |movies| && movies[i].title != title
      ensures var s := |movies[i].genres * target|;
        Recommendation(movies[i].title, s) in e || forall k :: 0 <= k < |e| ==> s <= e[k].similarityScore
    {
      ScoreColumnCounts(movies, target, i);
    }
  }


  /** A row whose entry has fewer copies in the list than among the other rows scores no higher than any entry. */
  lemma RecommendCopiesLeftOut(movies: seq<Movie>, title: string, n: int)
    requires RecommendFor(movies, title, n).Recommendations?
    ensures var t := TitleIndex(movies, title).value;
      var e := RecommendFor(movies, title, n).entries;
      var rows := OtherRowEntries(movies, title, movies[t].genres);
      forall r :: multiset(e)[r] < multiset(rows)[r] ==> forall k :: 0 <= k < |e| ==> r.similarityScore <= e[k].similarityScore
  {
    var t := TitleIndex(movies, title).value;
    var target := movies[t].genres;
    var column := ScoreColumn(movies, target);
    assert RecommendFor(movies, title, n).entries == AsRecommendations(TopCandidates(movies, column, title, n));
    TopEntriesCopiesLeftOut(movies, column, title, n);
    CandidateEntries(movies, title, target);
  }

  /** When `n` keeps every candidate and they are already sorted, the top rows are the candidates. */
  lemma WholeSortedTop(movies: seq<Movie>, column: seq<int>, title: string, n: int)
    requires |column| == |movies|
    requires var c := Candidates(movies, column, title);
      SortByScore(c) == c && n >= |c|
    ensures TopCandidates(movies, column, title, n) == Candidates(movies, column, title)
  {
    var c := Candidates(movies, column, title);
    assert c[..|c|] == c;
  }

  /** A three-row table for the worked case below. */
  predicate ExampleTable(movies: seq<Movie>) {
    && |movies| == 3
    && movies[0] == Movie("A", {"Action", "Adventure"}, [])
    && movies[1] == Movie("B", {"Action", "Comedy"}, [])
    && movies[2] == Movie("C", {"Drama"}, [])
  }

  /** Against the genres of A, the rows score 2, 1 and 0. */
  lemma ExampleScores(movies: seq<Movie>)
    requires ExampleTable(movies)
    ensures ScoreColumn(movies, movies[0].genres) == [2, 1, 0]
  {
    var target := movies[0].genres;
    assert movies[0].genres * target == target;
    assert |target| == 2;
    assert movies[1].genres * target == {"Action"};
    assert movies[2].genres * target == {};
  }

  /** Only B and C are candidates, with their scores, in table order. */
  lemma ExampleCandidates(movies: seq<Movie>, column: seq<int>)
    requires ExampleTable(movies) && column == [2, 1, 0]
    ensures Candidates(movies, column, "A") == [Ranked("B", 1), Ranked("C", 0)]
  {
    assert Candidates(movies[..1], column[..1], "A") == [] by {
      assert movies[..1][..0] == [];
    }
    assert movies[..2][..1] == movies[..1] && column[..2][..1] == column[..1];
    assert Candidates(movies[..2], column[..2], "A") == [Ranked("B", 1)];
    assert movies[..3][..2] == movies[..2] && column[..3][..2] == column[..2];
    assert movies[..3] == movies && column[..3] == column;
  }

  /** B and C are already in score order. */
  lemma ExampleSorted(c: seq<Ranked<string>>)
    requires c == [Ranked("B", 1), Ranked("C", 0)]
    ensures SortByScore(c) == c
  {
    SortedIsFixed(c);
  }

  /** The top two rows for A are B and then C. */
  lemma ExampleTop(movies: seq<Movie>)
    requires ExampleTable(movies)
    ensures TopCandidates(movies, ScoreColumn(movies, movies[0].genres), "A", 2) == [Ranked("B", 1), Ranked("C", 0)]
  {
    var column := ScoreColumn(movies, movies[0].genres);
    assert column == [2, 1, 0] by {
      ExampleScores(movies);
    }
    var cands := Candidates(movies, column, "A");
    assert cands == [Ranked("B", 1), Ranked("C", 0)] by {
      ExampleCandidates(movies, column);
    }
    assert SortByScore(cands) == cands by {
      ExampleSorted(cands);
    }
    WholeSortedTop(movies, column, "A", 2);
  }

  /**
   * A worked case: against A {Action, Adventure}, B {Action, Comedy} shares one
   * genre and C {Drama} none, so the top two are B with 1 and then C with 0.
   */
  lemma RecommendExample(movies: seq<Movie>)
    requires ExampleTable(movies)
    ensures RecommendFor(movies, "A", 2) == Recommendations([Recommendation("B", 1), Recommendation("C", 0)])
  {
    assert TitleIndex(movies, "A") == Some(0) by {
      assert movies[0].title == "A";
    }
    ExampleTop(movies);
    var cands := [Ranked("B", 1), Ranked("C", 0)];
    assert AsRecommendations(cands) == [Recommendation("B", 1), Recommendation("C", 0)];
  }

  // ---------------------------------------------------------------------------
  // The recommender object
  // ---------------------------------------------------------------------------

  /** `MovieRecommender`: the movies table it prepares and annotates. */
  class MovieRecommender {
    /** Whether `prepare_data` has run; before that `self.movies` does not exist. */
    var prepared: bool
    /** The rows of `self.movies`. */
    var movies: seq<Movie>
    /** The `similarity_score` column, once `recommend` has written it. */
    var similarityScore: Option<seq<int>>

    ghost predicate Valid()
      reads this
    {
      similarityScore.Some? ==> |similarityScore.value| == |movies|
    }

    constructor ()
      ensures Valid() && !prepared && similarityScore == None
    {
      prepared := false;
      movies := [];
      similarityScore := None;
    }

    /** Replaces the table with the deduplicated rows, genres split into sets. */
    method PrepareData(rows: seq<RawMovie>)
      modifies this
      ensures Valid() && prepared
      ensures movies == PreparedTable(rows) && similarityScore == None
    {
      movies := PreparedTable(rows);
      similarityScore := None;
      prepared := true;
    }

    /**
     * Scores every row against the first row titled `movieTitle`, stores the
     * scores as the `similarity_score` column and returns the top entries.
     * Only the column changes; an unknown title changes nothing.
     */
    method Recommend(movieTitle: string, nRecommendations: int := 10) returns (result: RecommendOutcome)
      requires prepared && Valid()
      modifies this
      ensures Valid() && prepared && movies == old(movies)
      ensures result == RecommendFor(movies, movieTitle, nRecommendations)
      ensures match TitleIndex(movies, movieTitle)
        case None => similarityScore == old(similarityScore)
        case Some(t) => similarityScore == Some(ScoreColumn(movies, movies[t].genres))
    {
      var found := TitleIndex(movies, movieTitle);
      if found.None? {
        return NotFound(NotFoundMessage(movieTitle));
      }
      var targetGenres := movies[found.value].genres;
      var column := ScoreColumn(movies, targetGenres);
      similarityScore := Some(column);
      var top := TopCandidates(movies, column, movieTitle, nRecommendations);
      var entries: seq<Recommendation> := [];
      for k := 0 to |top|
        invariant entries == AsRecommendations(top[..k])
      {
        entries := entries + [Recommendation(top[k].item, top[k].score)];
      }
      assert top[..|top|] == top;
      result := Recommendations(entries);
    }
  }
}
