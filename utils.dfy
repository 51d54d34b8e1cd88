/**
 * The pure helpers of `src/recommenderapp/utils.py`: genre tags as coloured
 * HTML spans, feedback grouped by status, and the title-to-genres dictionary.
 */
module Utils {
  import opened Text

  // ---------------------------------------------------------------------------
  // create_colored_tags
  // ---------------------------------------------------------------------------

  /** `genre_colors`: the colour of each listed genre. */
  const GenreColors: map<string, string> := map[
    "Musical" := "#FF1493",
    "Sci-Fi" := "#00CED1",
    "Mystery" := "#8A2BE2",
    "Thriller" := "#FF6347",
    "Horror" := "#FF4500",
    "Documentary" := "#228B22",
    "Fantasy" := "#FFA500",
    "Adventure" := "#FFD700",
    "Children" := "#32CD32",
    "Film-Noir" := "#2F4F4F",
    "Comedy" := "#FFB500",
    "Crime" := "#8B0000",
    "Drama" := "#8B008B",
    "Western" := "#FF8C00",
    "IMAX" := "#20B2AA",
    "Action" := "#FF0000",
    "War" := "#B22222",
    "(no genres listed)" := "#A9A9A9",
    "Romance" := "#FF69B4",
    "Animation" := "#4B0082"
  ]

  /** The colour of a genre missing from the table. */
  const DefaultColor: string := "#CCCCCC"

  /** `genre_colors.get(genre, "#CCCCCC")`. */
  function Color(genre: string): string {
    if genre in GenreColors then GenreColors[genre] else DefaultColor
  }

  /**
   * The opening tag of a span in `color`. The source's line continuation
   * leaves thirteen spaces between `#FFFFFF;` and `padding`.
   */
  function SpanOpen(color: string): string {
    "<span style=\"background-color: " + color + "; color: #FFFFFF;             padding: 5px; border-radius: 5px;\">"
  }

  /** The closing tag of a span. */
  const SpanClose: string := "</span>"

  /** The tag built for one genre. */
  function Tag(genre: string): string {
    SpanOpen(Color(genre)) + genre + SpanClose
  }

  /** The tags of `genres`, one per genre, in order. */
  function Tags(genres: seq<string>): (tags: seq<string>)
    ensures |tags| == |genres|
    ensures forall i :: 0 <= i < |genres| ==> tags[i] == Tag(genres[i])
  {
    seq(|genres|, i requires 0 <= i < |genres| => Tag(genres[i]))
  }

  /** `create_colored_tags(genres)`: the tags joined by single spaces. */
  method CreateColoredTags(genres: seq<string>) returns (html: string)
    ensures html == Join(Tags(genres), ' ')
    ensures genres == [] ==> html == ""
    ensures |genres| == 1 ==> html == Tag(genres[0])
  {
    var tags: seq<string> := [];
    for i := 0 to |genres|
      invariant |tags| == i
      invariant forall k :: 0 <= k < i ==> tags[k] == Tag(genres[k])
    {
      var color := Color(genres[i]);
      var tag := SpanOpen(color) + genres[i] + SpanClose;
      tags := tags + [tag];
    }
    assert tags == Tags(genres);
    html := Join(tags, ' ');
  }

  /**
   * A listed genre gets its own colour, any other genre the default one; the
   * genre text sits unchanged between the opening and the closing tag.
   */
  lemma TagShape(genre: string)
    ensures genre in GenreColors ==> Tag(genre) == SpanOpen(GenreColors[genre]) + genre + "</span>"
    ensures genre !in GenreColors ==> Tag(genre) == SpanOpen("#CCCCCC") + genre + "</span>"
    ensures var start := |SpanOpen(Color(genre))|;
      Tag(genre)[start..start + |genre|] == genre
  {
    var start := |SpanOpen(Color(genre))|;
    assert Tag(genre) == SpanOpen(Color(genre)) + genre + SpanClose;
    assert (SpanOpen(Color(genre)) + genre + SpanClose)[start..start + |genre|] == genre;
  }

  /** Tags of two non-empty lists of genres are joined by one more space. */
  lemma ColoredTagsAppend(a: seq<string>, b: seq<string>)
    requires a != [] && b != []
    ensures Join(Tags(a + b), ' ') == Join(Tags(a), ' ') + " " + Join(Tags(b), ' ')
  {
    var ta, tb, tab := Tags(a), Tags(b), Tags(a + b);
    assert tab == ta + tb by {
      forall k | 0 <= k < |tab| ensures tab[k] == (ta + tb)[k] {
        if k < |a| {
          assert (a + b)[k] == a[k];
        } else {
          assert (a + b)[k] == b[k - |a|];
        }
      }
    }
    JoinAppend(ta, tb, ' ');
  }

  // ---------------------------------------------------------------------------
  // beautify_feedback_data
  // ---------------------------------------------------------------------------

  /** The feedback dictionary: (movie, status) pairs in insertion order. */
  type Feedback = seq<(string, string)>

  /** A dictionary has each movie once. */
  predicate DistinctMovies(data: Feedback) {
    forall i, j :: 0 <= i < j < |data| ==> data[i].0 != data[j].0
  }

  /** The movies whose status is exactly `status`, in iteration order. */
  function WithStatus(data: Feedback, status: string): seq<string> {
    if data == [] then []
    else
      var n := |data| - 1;
      WithStatus(data[..n], status) + (if data[n].1 == status then [data[n].0] else [])
  }

  /** `beautify_feedback_data(data)`: the movies grouped under three category keys. */
  method BeautifyFeedbackData(data: Feedback) returns (categorized: map<string, seq<string>>)
    ensures categorized.Keys == {"Liked", "Disliked", "Yet to Watch"}
    ensures categorized["Liked"] == WithStatus(data, "Like")
    ensures categorized["Disliked"] == WithStatus(data, "Dislike")
    ensures categorized["Yet to Watch"] == WithStatus(data, "Yet to watch")
  {
    var yetToWatch: seq<string> := [];
    var like: seq<string> := [];
    var dislike: seq<string> := [];
    for i := 0 to |data|
      invariant yetToWatch == WithStatus(data[..i], "Yet to watch")
      invariant like == WithStatus(data[..i], "Like")
      invariant dislike == WithStatus(data[..i], "Dislike")
    {
      assert data[..i + 1][..i] == data[..i];
      var (movie, status) := data[i];
      if status == "Yet to watch" {
        yetToWatch := yetToWatch + [movie];
      } else if status == "Like" {
        like := like + [movie];
      } else if status == "Dislike" {
        dislike := dislike + [movie];
      }
    }
    assert data[..|data|] == data;
    categorized := map["Liked" := like, "Disliked" := dislike, "Yet to Watch" := yetToWatch];
  }

  /** A movie is listed under a status exactly when it has that status. */
  lemma {:induction false} WithStatusMembership(data: Feedback, status: string, movie: string)
    ensures movie in WithStatus(data, status) <==>
      exists i :: 0 <= i < |data| && data[i] == (movie, status)
  {
    if data != [] {
      var n := |data| - 1;
      WithStatusMembership(data[..n], status, movie);
      if exists i :: 0 <= i < n && data[..n][i] == (movie, status) {
        var i :| 0 <= i < n && data[..n][i] == (movie, status);
        assert data[i] == (movie, status);
      }
      if exists i :: 0 <= i < |data| && data[i] == (movie, status) {
        var i :| 0 <= i < |data| && data[i] == (movie, status);
        if i < n {
          assert data[..n][i] == (movie, status);
        }
      }
    }
  }

  /** Iterating over two parts in turn lists the first part's movies first. */
  lemma {:induction false} WithStatusAppend(a: Feedback, b: Feedback, status: string)
    ensures WithStatus(a + b, status) == WithStatus(a, status) + WithStatus(b, status)
  {
    if b == [] {
      assert a + b == a;
    } else {
      var n := |b| - 1;
      WithStatusAppend(a, b[..n], status);
      assert (a + b)[..|a + b| - 1] == a + b[..n];
      assert (a + b)[|a + b| - 1] == b[n];
    }
  }

  /**
   * In a dictionary the categories are disjoint, and movies with any other
   * status are in none of them.
   */
  lemma CategoriesDisjoint(data: Feedback, movie: string)
    requires DistinctMovies(data)
    ensures !(movie in WithStatus(data, "Like") && movie in WithStatus(data, "Dislike"))
    ensures !(movie in WithStatus(data, "Like") && movie in WithStatus(data, "Yet to watch"))
    ensures !(movie in WithStatus(data, "Dislike") && movie in WithStatus(data, "Yet to watch"))
    ensures (forall i :: 0 <= i < |data| && data[i].0 == movie ==>
               data[i].1 !in {"Like", "Dislike", "Yet to watch"}) ==>
      movie !in WithStatus(data, "Like") && movie !in WithStatus(data, "Dislike")
        && movie !in WithStatus(data, "Yet to watch")
  {
    WithStatusMembership(data, "Like", movie);
    WithStatusMembership(data, "Dislike", movie);
    WithStatusMembership(data, "Yet to watch", movie);
  }

  // ---------------------------------------------------------------------------
  // create_movie_genres
  // ---------------------------------------------------------------------------

  /** The `title` and `genres` cells of one row of the table. */
  datatype TitleGenres = TitleGenres(title: string, genres: string)

  /** The dictionary after iterating over `rows`: a later row overwrites an earlier one. */
  function MovieGenres(rows: seq<TitleGenres>): map<string, seq<string>> {
    if rows == [] then map[]
    else
      var n := |rows| - 1;
      MovieGenres(rows[..n])[rows[n].title := Split(rows[n].genres, '|')]
  }

  /** `create_movie_genres(df)`: each title mapped to its split genres field. */
  method CreateMovieGenres(rows: seq<TitleGenres>) returns (movieToGenres: map<string, seq<string>>)
    ensures movieToGenres == MovieGenres(rows)
  {
    movieToGenres := map[];
    for i := 0 to |rows|
      invariant movieToGenres == MovieGenres(rows[..i])
    {
      assert rows[..i + 1][..i] == rows[..i];
      var movie := rows[i].title;
      var genres := Split(rows[i].genres, '|');
      movieToGenres := movieToGenres[movie := genres];
    }
    assert rows[..|rows|] == rows;
  }

  /** Every title of the table is a key, and nothing else is. */
  lemma {:induction false} MovieGenresKeys(rows: seq<TitleGenres>, title: string)
    ensures title in MovieGenres(rows) <==> exists i :: 0 <= i < |rows| && rows[i].title == title
  {
    if rows != [] {
      var n := |rows| - 1;
      MovieGenresKeys(rows[..n], title);
      if exists i :: 0 <= i < n && rows[..n][i].title == title {
        var i :| 0 <= i < n && rows[..n][i].title == title;
        assert rows[i].title == title;
      }
      if exists i :: 0 <= i < |rows| && rows[i].title == title {
        var i :| 0 <= i < |rows| && rows[i].title == title;
        if i < n {
          assert rows[..n][i].title == title;
        }
      }
    }
  }

  /**
   * The value of a title is the genres field of the last row with that title,
   * split on `|` with order and repeats kept, so joining it back gives the field.
   */
  lemma {:induction false} MovieGenresLastRowWins(rows: seq<TitleGenres>, i: nat)
    requires i < |rows|
    requires forall j :: i < j < |rows| ==> rows[j].title != rows[i].title
    ensures rows[i].title in MovieGenres(rows)
    ensures MovieGenres(rows)[rows[i].title] == Split(rows[i].genres, '|')
    ensures Join(MovieGenres(rows)[rows[i].title], '|') == rows[i].genres
  {
    var n := |rows| - 1;
    if i < n {
      assert rows[..n][i] == rows[i];
      MovieGenresLastRowWins(rows[..n], i);
    }
    JoinSplit(rows[i].genres, '|');
  }
}
