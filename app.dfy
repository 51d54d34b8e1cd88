/**
 * The body of the `/predict` handler of `src/recommenderapp/app.py`: for each
 * input title, the three titles ranked just below the top of its similarity
 * row, gathered into a set, minus the input titles, at most ten of them.
 *
 * The catalogue `movies_df` is the sequence of its titles, a row's position
 * standing for its index label; `similarity_matrix` is a sequence of rows of
 * abstract, totally ordered scores.
 */
module RecommenderApp {
  import opened Options
  import opened Ranking
  import opened Sets

  /** The JSON body `/predict` answers with. */
  datatype PredictResponse =
    | Titles(titles: seq<string>)       // 200, a list of titles
    | BadRequest(error: string)         // 400, {'error': ...}

  /** At most this many titles are returned. */
  const MaxPredictions: nat := 10

  /** `movies_df[movies_df['title'] == movie].index[0]`: the first row titled `movie`. */
  function RowIndex(titles: seq<string>, movie: string): (r: Option<nat>)
    ensures r.None? <==> movie !in titles
    ensures r.Some? ==> r.value < |titles| && titles[r.value] == movie
    ensures r.Some? ==> forall i :: 0 <= i < r.value ==> titles[i] != movie
  {
    if titles == [] then None
    else if titles[0] == movie then Some(0)
    else match RowIndex(titles[1..], movie)
      case None => None
      case Some(i) => Some(i + 1)
  }

  /** Python's `s[lo:hi]` for non-negative bounds: out-of-range bounds are clamped. */
  function Slice<T>(s: seq<T>, lo: nat, hi: nat): (r: seq<T>)
    ensures |r| == if lo < hi && lo < |s| then (if hi < |s| then hi else |s|) - lo else 0
    ensures forall k :: 0 <= k < |r| ==> lo + k < |s| && r[k] == s[lo + k]
  {
    var a := if lo < |s| then lo else |s|;
    var b := if hi < |s| then hi else |s|;
    if a <= b then s[a..b] else []
  }

  /** `sorted(enumerate(row), key=score, reverse=True)[1:4]`. */
  function Neighbours(row: seq<int>): seq<Ranked<nat>> {
    Slice(SortByScore(Enumerate(row)), 1, 4)
  }

  /**
   * How many picks are added before `movies_df.iloc[i]` meets a position past
   * the catalogue: the IndexError ends that title's loop.
   */
  function UsablePicks(picks: seq<Ranked<nat>>, rowCount: nat): (k: nat)
    ensures k <= |picks|
    ensures forall l :: 0 <= l < k ==> picks[l].item < rowCount
    ensures k < |picks| ==> picks[k].item >= rowCount
  {
    if picks == [] || picks[0].item >= rowCount then 0
    else 1 + UsablePicks(picks[1..], rowCount)
  }

  /** The titles of the first `k` picks. */
  function PickedTitles(picks: seq<Ranked<nat>>, titles: seq<string>, k: nat): set<string>
    requires k <= |picks|
    requires forall l :: 0 <= l < k ==> picks[l].item < |titles|
  {
    set l | 0 <= l < k :: titles[picks[l].item]
  }

  /**
   * The titles one input title adds. A title with no row, or whose row has no
   * similarity row, adds nothing.
   */
  function Contribution(movie: string, titles: seq<string>, similarity: seq<seq<int>>): set<string> {
    match RowIndex(titles, movie)
    case None => {}
    case Some(i) =>
      if i >= |similarity| then {}
      else
        var picks := Neighbours(similarity[i]);
        PickedTitles(picks, titles, UsablePicks(picks, |titles|))
  }

  /** The set `recommendations` after the loop over `movies`. */
  function Gathered(movies: seq<string>, titles: seq<string>, similarity: seq<seq<int>>): set<string> {
    if movies == [] then {}
    else Gathered(movies[..|movies| - 1], titles, similarity) + Contribution(movies[|movies| - 1], titles, similarity)
  }

  /** `recommendations - set(input_movies)`: the titles the response is drawn from. */
  function Pool(movies: seq<string>, titles: seq<string>, similarity: seq<seq<int>>): set<string> {
    Gathered(movies, titles, similarity) - set m | m in movies
  }

  /** Each input title adds at most three catalogue titles. */
  lemma ContributionBounded(movie: string, titles: seq<string>, similarity: seq<seq<int>>)
    ensures |Contribution(movie, titles, similarity)| <= 3
    ensures forall t :: t in Contribution(movie, titles, similarity) ==> t in titles
  {
    var r := RowIndex(titles, movie);
    if r.Some? && r.value < |similarity| {
      var picks := Neighbours(similarity[r.value]);
      var k := UsablePicks(picks, |titles|);
      PickedTitlesBounded(picks, titles, k);
    }
  }

  /** The titles of `k` picks are at most `k` catalogue titles. */
  lemma {:induction false} PickedTitlesBounded(picks: seq<Ranked<nat>>, titles: seq<string>, k: nat)
    requires k <= |picks|
    requires forall l :: 0 <= l < k ==> picks[l].item < |titles|
    ensures |PickedTitles(picks, titles, k)| <= k
    ensures forall t :: t in PickedTitles(picks, titles, k) ==> t in titles
  {
    if k > 0 {
      PickedTitlesBounded(picks, titles, k - 1);
      assert PickedTitles(picks, titles, k) == PickedTitles(picks, titles, k - 1) + {titles[picks[k - 1].item]};
    }
  }

  /** Gathering over a concatenation is the union of the two gatherings. */
  lemma {:induction false} GatheredAppend(a: seq<string>, b: seq<string>, titles: seq<string>, similarity: seq<seq<int>>)
    ensures Gathered(a + b, titles, similarity) == Gathered(a, titles, similarity) + Gathered(b, titles, similarity)
  {
    if b == [] {
      assert a + b == a;
    } else {
      var n := |b| - 1;
      GatheredAppend(a, b[..n], titles, similarity);
      assert (a + b)[..|a + b| - 1] == a + b[..n];
      assert (a + b)[|a + b| - 1] == b[n];
      var c := Contribution(b[n], titles, similarity);
      assert Gathered(a + b, titles, similarity) == Gathered(a + b[..n], titles, similarity) + c;
      assert Gathered(b, titles, similarity) == Gathered(b[..n], titles, similarity) + c;
    }
  }

  /** A title with no row is skipped: the rest of the batch gathers the same titles. */
  lemma SkipsUnknownTitle(a: seq<string>, movie: string, b: seq<string>, titles: seq<string>, similarity: seq<seq<int>>)
    requires movie !in titles
    ensures Gathered(a + [movie] + b, titles, similarity) == Gathered(a + b, titles, similarity)
  {
    GatheredAppend(a + [movie], b, titles, similarity);
    GatheredAppend(a, b, titles, similarity);
    assert (a + [movie])[..|a|] == a;
  }

  /** At most three titles per input, all from the catalogue. */
  lemma {:induction false} GatheredBounded(movies: seq<string>, titles: seq<string>, similarity: seq<seq<int>>)
    ensures |Gathered(movies, titles, similarity)| <= 3 * |movies|
    ensures forall t :: t in Gathered(movies, titles, similarity) ==> t in titles
  {
    if movies != [] {
      var n := |movies| - 1;
      GatheredBounded(movies[..n], titles, similarity);
      ContributionBounded(movies[n], titles, similarity);
      var g := Gathered(movies[..n], titles, similarity);
      var c := Contribution(movies[n], titles, similarity);
      assert |g + c| + |g * c| == |g| + |c|;
    }
  }

  /**
   * In a strictly ranked list, an element that is neither the first nor among
   * positions 1 to 3 ranks below each of those positions.
   */
  lemma {:induction false} BelowNeighbours(sorted: seq<Ranked<nat>>, x: Ranked<nat>)
    requires StrictlyRanked(sorted) && |sorted| >= 1
    requires x in sorted && x != sorted[0] && x !in Slice(sorted, 1, 4)
    ensures forall k :: 0 <= k < |Slice(sorted, 1, 4)| ==> Before(Slice(sorted, 1, 4)[k], x)
  {
    var nb := Slice(sorted, 1, 4);
    var p :| 0 <= p < |sorted| && sorted[p] == x;
    forall k | 0 <= k < |nb| ensures Before(nb[k], x) {
      assert nb[k] == sorted[k + 1];
    }
  }

  /**
   * Positions 1 to 3 of the stably sorted row: ordered by descending score and
   * then ascending position, every one of them is outranked by the first entry
   * and outranks every other position of the row.
   */
  lemma NeighboursRanked(row: seq<int>)
    requires |row| >= 1
    ensures var sorted := SortByScore(Enumerate(row));
      var nb := Neighbours(row);
      && |nb| == (if |row| >= 4 then 3 else |row| - 1)
      && StrictlyRanked(nb)
      && (forall k :: 0 <= k < |nb| ==> Before(sorted[0], nb[k]))
      && (forall j, k :: 0 <= j < |row| && 0 <= k < |nb| && Ranked(j, row[j]) != sorted[0] && Ranked(j, row[j]) !in nb
            ==> Before(nb[k], Ranked(j, row[j])))
  {
    var sorted := SortByScore(Enumerate(row));
    RankedRow(row);
    var nb := Neighbours(row);
    assert forall k :: 0 <= k < |nb| ==> nb[k] == sorted[k + 1];
    forall j | 0 <= j < |row| && Ranked(j, row[j]) != sorted[0] && Ranked(j, row[j]) !in nb
      ensures forall k :: 0 <= k < |nb| ==> Before(nb[k], Ranked(j, row[j]))
    {
      var x: Ranked<nat> := Ranked(j, row[j]);
      assert Enumerate(row)[j] == x;
      assert x in multiset(sorted);
      BelowNeighbours(sorted, x);
    }
  }

  /**
   * Position 0 of the ranking, the one skipped as the movie itself, is the
   * queried row exactly when that row outranks every other: it scores above
   * every earlier row and no lower than any later one. When an earlier row
   * ties it, that row is skipped instead and the queried row is picked.
   */
  lemma SkippedIsQueryIff(row: seq<int>, i: nat)
    requires i < |row|
    ensures SortByScore(Enumerate(row))[0] == Ranked(i, row[i]) <==>
      forall k :: 0 <= k < |row| && k != i ==> Before(Ranked(i, row[i]), Ranked(k, row[k]))
  {
    var sorted := SortByScore(Enumerate(row));
    var q: Ranked<nat> := Ranked(i, row[i]);
    RankedRow(row);
    assert q in multiset(sorted) by {
      assert Enumerate(row)[i] == q;
    }
    if sorted[0] == q {
      forall k | 0 <= k < |row| && k != i
        ensures Before(q, Ranked(k, row[k]))
      {
        var x: Ranked<nat> := Ranked(k, row[k]);
        assert Enumerate(row)[k] == x;
        assert x in multiset(sorted);
        HeadComesFirst(sorted, x);
      }
    } else {
      assert sorted[0] in multiset(Enumerate(row));
      var k :| 0 <= k < |row| && Enumerate(row)[k] == sorted[0];
      HeadComesFirst(sorted, q);
      assert !Before(q, Ranked(k, row[k]));
    }
  }

  /** Asked about one title, the response is drawn from that title's picks other than itself. */
  lemma PoolOfOne(movie: string, titles: seq<string>, similarity: seq<seq<int>>)
    ensures Pool([movie], titles, similarity) == Contribution(movie, titles, similarity) - {movie}
  {
    var inputs := [movie];
    assert Gathered(inputs, titles, similarity) == Contribution(movie, titles, similarity) by {
      assert inputs[..0] == [];
    }
    assert (set m | m in inputs) == {movie};
  }

  /**
   * One pass of the loop over the input titles (the body of its `try`): adds
   * the catalogue titles of the movie's picks, and nothing when an IndexError
   * ends the pass early.
   */
  method AddNeighbours(recommendations: set<string>, movie: string, titles: seq<string>, similarity: seq<seq<int>>)
    returns (updated: set<string>)
    ensures updated == recommendations + Contribution(movie, titles, similarity)
  {
    updated := recommendations;
    var found := RowIndex(titles, movie);
    if found.None? || found.value >= |similarity| {
      return;
    }
    var distances := SortByScore(Enumerate(similarity[found.value]));
    var picks := Slice(distances, 1, 4);
    updated := AddPicks(recommendations, picks, titles);
  }

  /**
   * The inner loop over `distances[1:4]`: each pick's title is added until a
   * pick past the catalogue raises the IndexError that ends the pass.
   */
  method AddPicks(recommendations: set<string>, picks: seq<Ranked<nat>>, titles: seq<string>)
    returns (updated: set<string>)
    ensures updated == recommendations + PickedTitles(picks, titles, UsablePicks(picks, |titles|))
  {
    updated := recommendations;
    ghost var usable := UsablePicks(picks, |titles|);
    var l := 0;
    while l < |picks|
      invariant l <= usable
      invariant updated == recommendations + PickedTitles(picks, titles, l)
    {
      if picks[l].item >= |titles| {
        break;
      }
      assert l != usable ==> l < usable;
      assert PickedTitles(picks, titles, l + 1) == PickedTitles(picks, titles, l) + {titles[picks[l].item]};
      updated := updated + {titles[picks[l].item]};
      l := l + 1;
    }
    assert l == usable;
  }

  /**
   * The loop over the input titles: each found title adds the catalogue titles
   * of its picks to the `recommendations` set.
   */
  method GatherRecommendations(inputMovies: seq<string>, titles: seq<string>, similarity: seq<seq<int>>)
    returns (recommendations: set<string>)
    ensures recommendations == Gathered(inputMovies, titles, similarity)
    ensures |recommendations| <= 3 * |inputMovies|
    ensures forall t :: t in recommendations ==> t in titles
  {
    recommendations := {};
    for m := 0 to |inputMovies|
      invariant recommendations == Gathered(inputMovies[..m], titles, similarity)
    {
      assert inputMovies[..m + 1][..m] == inputMovies[..m];
      recommendations := AddNeighbours(recommendations, inputMovies[m], titles, similarity);
    }
    assert inputMovies[..|inputMovies|] == inputMovies;
    GatheredBounded(inputMovies, titles, similarity);
  }

  /** `list(pool)`: every title of the set once, in an order the set chooses. */
  method ListSet(pool: set<string>) returns (listed: seq<string>)
    ensures |listed| == |pool|
    ensures forall i, j :: 0 <= i < j < |listed| ==> listed[i] != listed[j]
    ensures forall t :: t in listed <==> t in pool
  {
    var remaining := pool;
    listed := [];
    while remaining != {}
      invariant remaining <= pool
      invariant forall k :: 0 <= k < |listed| ==> listed[k] in pool && listed[k] !in remaining
      invariant forall i, j :: 0 <= i < j < |listed| ==> listed[i] != listed[j]
      invariant forall t :: t in pool ==> t in remaining || t in listed
      decreases |remaining|
    {
      var t :| t in remaining;
      listed := listed + [t];
      remaining := remaining - {t};
    }
    DistinctCardinality(listed);
    assert (set x | x in listed) == pool;
  }

  /** `list(pool)[:10]`: at most ten titles of the set, each once. */
  method FirstTitles(pool: set<string>) returns (out: seq<string>)
    ensures |out| == if |pool| < MaxPredictions then |pool| else MaxPredictions
    ensures forall i, j :: 0 <= i < j < |out| ==> out[i] != out[j]
    ensures forall k :: 0 <= k < |out| ==> out[k] in pool
  {
    var listed := ListSet(pool);
    out := listed[..if |listed| < MaxPredictions then |listed| else MaxPredictions];
    assert forall k :: 0 <= k < |out| ==> out[k] == listed[k];
  }

  /**
   * The `/predict` handler: answers 400 when no titles are given; otherwise
   * gathers each found title's picks into a set, removes the input titles and
   * returns at most ten of the rest, in the set's own (unspecified) order.
   */
  method Predict(requestMovies: Option<seq<string>>, titles: seq<string>, similarity: seq<seq<int>>)
    returns (response: PredictResponse)
    ensures response.BadRequest? <==> requestMovies.None? || requestMovies.value == []
    ensures response.BadRequest? ==> response.error == "No movies provided"
    ensures response.Titles? ==>
      var inputs := requestMovies.value;
      var pool := Pool(inputs, titles, similarity);
      var out := response.titles;
      && |out| == (if |pool| < MaxPredictions then |pool| else MaxPredictions)
      && |out| <= 3 * |inputs|
      && (forall i, j :: 0 <= i < j < |out| ==> out[i] != out[j])
      && (forall k :: 0 <= k < |out| ==> out[k] in pool && out[k] in titles && out[k] !in inputs)
  {
    var inputMovies := if requestMovies.Some? then requestMovies.value else [];
    if inputMovies == [] {
      return BadRequest("No movies provided");
    }
    var recommendations := GatherRecommendations(inputMovies, titles, similarity);
    var remaining := recommendations - set t | t in inputMovies;
    SubsetCardinality(remaining, recommendations);
    assert remaining == Pool(inputMovies, titles, similarity);
    var out := FirstTitles(remaining);
    assert forall k :: 0 <= k < |out| ==> out[k] in remaining;
    response := Titles(out);
  }
}
