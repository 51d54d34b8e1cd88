/**
 * The selection logic of the search page (`frontend/src/app/search/page.tsx`):
 * the `selectedMovies`, `searchResults` and `alertState` state and the
 * handlers that update it. Requests are returned instead of fetched.
 */
module SearchPage {
  import opened Options

  /** `alertState`: whether the alert shows, its text and its style. */
  datatype Alert = Alert(show: bool, message: string, kind: string)

  /** The initial, hidden alert. */
  const NoAlert: Alert := Alert(false, "", "default")

  /** At most this many movies can be selected. */
  const MaxSelected: nat := 5

  const TooManyMessage: string := "You can only select up to 5 movies"
  const NothingSelectedMessage: string := "Please select at least one movie"

  /** No movie occurs twice. */
  predicate NoRepeats(s: seq<string>) {
    forall i, j :: 0 <= i < j < |s| ==> s[i] != s[j]
  }

  /** What the page keeps true of its selection. */
  predicate WellFormedSelection(s: seq<string>) {
    |s| <= MaxSelected && NoRepeats(s)
  }

  // ---------------------------------------------------------------------------
  // The selection as a value
  // ---------------------------------------------------------------------------

  /** The selection after `handleMovieSelect(movie)`. */
  function AfterSelect(selected: seq<string>, movie: string): seq<string> {
    if |selected| >= MaxSelected then selected
    else if movie in selected then selected
    else selected + [movie]
  }

  /** `selected.filter(m => m !== movie)`. */
  function Without(selected: seq<string>, movie: string): seq<string> {
    if selected == [] then []
    else
      var n := |selected| - 1;
      Without(selected[..n], movie) + (if selected[n] != movie then [selected[n]] else [])
  }

  /** A user action on the selection. */
  datatype Action = Select(movie: string) | Remove(movie: string)

  /** The selection after a run of actions. */
  function Run(selected: seq<string>, actions: seq<Action>): seq<string>
    decreases |actions|
  {
    if actions == [] then selected
    else
      var next := match actions[0]
        case Select(m) => AfterSelect(selected, m)
        case Remove(m) => Without(selected, m);
      Run(next, actions[1..])
  }

  /**
   * Selecting appends a movie not yet chosen when fewer than five are chosen,
   * and otherwise leaves the selection as it is.
   */
  lemma SelectAppendsNew(selected: seq<string>, movie: string)
    ensures |selected| < MaxSelected && movie !in selected ==> AfterSelect(selected, movie) == selected + [movie]
    ensures |selected| >= MaxSelected || movie in selected ==> AfterSelect(selected, movie) == selected
    ensures movie in AfterSelect(selected, movie) <==> movie in selected || |selected| < MaxSelected
  {
  }

  /** Removing keeps exactly the other movies. */
  lemma {:induction false} WithoutMembership(selected: seq<string>, movie: string, other: string)
    ensures other in Without(selected, movie) <==> other in selected && other != movie
  {
    if selected != [] {
      var n := |selected| - 1;
      WithoutMembership(selected[..n], movie, other);
      assert selected == selected[..n] + [selected[n]];
    }
  }

  /** Removing keeps the order of the other movies: it works part by part. */
  lemma {:induction false} WithoutAppend(a: seq<string>, b: seq<string>, movie: string)
    ensures Without(a + b, movie) == Without(a, movie) + Without(b, movie)
  {
    if b == [] {
      assert a + b == a;
    } else {
      var n := |b| - 1;
      WithoutAppend(a, b[..n], movie);
      assert (a + b)[..|a + b| - 1] == a + b[..n];
      assert (a + b)[|a + b| - 1] == b[n];
    }
  }

  /** Removing never lengthens the selection and keeps it free of repeats. */
  lemma {:induction false} WithoutWellFormed(selected: seq<string>, movie: string)
    ensures |Without(selected, movie)| <= |selected|
    ensures NoRepeats(selected) ==> NoRepeats(Without(selected, movie))
  {
    if selected != [] {
      var n := |selected| - 1;
      WithoutWellFormed(selected[..n], movie);
      WithoutMembership(selected[..n], movie, selected[n]);
      assert NoRepeats(selected) ==> selected[n] !in selected[..n];
    }
  }

  /** Any run of selections and removals keeps at most five distinct movies. */
  lemma {:induction false} RunWellFormed(selected: seq<string>, actions: seq<Action>)
    requires WellFormedSelection(selected)
    ensures WellFormedSelection(Run(selected, actions))
    decreases |actions|
  {
    if actions != [] {
      var next := match actions[0]
        case Select(m) => AfterSelect(selected, m)
        case Remove(m) => Without(selected, m);
      if actions[0].Remove? {
        WithoutWellFormed(selected, actions[0].movie);
      }
      RunWellFormed(next, actions[1..]);
    }
  }

  // ---------------------------------------------------------------------------
  // Blank queries
  // ---------------------------------------------------------------------------

  /** The characters JavaScript's `String.prototype.trim` removes. */
  predicate IsJsWhitespace(c: char) {
    var n := c as int;
    n == 0x09 || n == 0x0A || n == 0x0B || n == 0x0C || n == 0x0D || n == 0x20
    || n == 0xA0 || n == 0x1680 || (0x2000 <= n <= 0x200A) || n == 0x2028 || n == 0x2029
    || n == 0x202F || n == 0x205F || n == 0x3000 || n == 0xFEFF
  }

  function TrimStart(s: string): string {
    if s != [] && IsJsWhitespace(s[0]) then TrimStart(s[1..]) else s
  }

  function TrimEnd(s: string): string {
    if s != [] && IsJsWhitespace(s[|s| - 1]) then TrimEnd(s[..|s| - 1]) else s
  }

  /** `s.trim()`. */
  function Trim(s: string): string {
    TrimEnd(TrimStart(s))
  }

  /** `!query.trim()`: the query is blank. */
  predicate IsBlank(query: string) {
    Trim(query) == ""
  }

  /** Trimming from the start leaves nothing or a string starting with a non-space. */
  lemma {:induction false} TrimStartShape(s: string)
    ensures TrimStart(s) == [] <==> forall i :: 0 <= i < |s| ==> IsJsWhitespace(s[i])
    ensures TrimStart(s) != [] ==> !IsJsWhitespace(TrimStart(s)[0])
  {
    if s != [] && IsJsWhitespace(s[0]) {
      TrimStartShape(s[1..]);
      assert forall i :: 1 <= i < |s| ==> s[i] == s[1..][i - 1];
    }
  }

  /** Trimming from the end keeps a string whose first character is not a space. */
  lemma {:induction false} TrimEndKeepsHead(s: string)
    requires s != [] && !IsJsWhitespace(s[0])
    ensures TrimEnd(s) != []
  {
    if IsJsWhitespace(s[|s| - 1]) {
      TrimEndKeepsHead(s[..|s| - 1]);
    }
  }

  /** A query is blank exactly when every character is white space. */
  lemma BlankIffAllWhitespace(query: string)
    ensures IsBlank(query) <==> forall i :: 0 <= i < |query| ==> IsJsWhitespace(query[i])
  {
    TrimStartShape(query);
    if TrimStart(query) != [] {
      TrimEndKeepsHead(TrimStart(query));
    }
  }

  // ---------------------------------------------------------------------------
  // The page
  // ---------------------------------------------------------------------------

  /** The state of `SearchPage` that its handlers update. */
  class SearchPageState {
    var selectedMovies: seq<string>
    var searchResults: seq<string>
    var alertState: Alert

    ghost predicate Valid()
      reads this
    {
      WellFormedSelection(selectedMovies)
    }

    constructor ()
      ensures Valid()
      ensures selectedMovies == [] && searchResults == [] && alertState == NoAlert
    {
      selectedMovies := [];
      searchResults := [];
      alertState := NoAlert;
    }

    /**
     * `handleSearch(query)`: a blank query clears the results and sends
     * nothing; any other query is sent as it is and changes nothing yet.
     */
    method HandleSearch(query: string) returns (request: Option<string>)
      modifies this
      ensures selectedMovies == old(selectedMovies) && alertState == old(alertState)
      ensures IsBlank(query) ==> request == None && searchResults == []
      ensures !IsBlank(query) ==> request == Some(query) && searchResults == old(searchResults)
    {
      if Trim(query) == "" {
        searchResults := [];
        return None;
      }
      request := Some(query);
    }

    /**
     * `handleMovieSelect(movie)`: with five movies selected, shows the alert
     * and changes nothing else; otherwise appends a new movie and clears the
     * search results.
     */
    method HandleMovieSelect(movie: string)
      requires Valid()
      modifies this
      ensures Valid()
      ensures selectedMovies == AfterSelect(old(selectedMovies), movie)
      ensures |old(selectedMovies)| >= MaxSelected ==>
        alertState == Alert(true, TooManyMessage, "default") && searchResults == old(searchResults)
      ensures |old(selectedMovies)| < MaxSelected ==>
        alertState == old(alertState) && searchResults == []
    {
      if |selectedMovies| >= 5 {
        alertState := Alert(true, "You can only select up to 5 movies", "default");
        return;
      }
      if movie !in selectedMovies {
        selectedMovies := selectedMovies + [movie];
      }
      searchResults := [];
    }

    /** `removeSelectedMovie(movie)`: drops every occurrence, keeps the rest in order. */
    method RemoveSelectedMovie(movieToRemove: string)
      requires Valid()
      modifies this
      ensures Valid()
      ensures selectedMovies == Without(old(selectedMovies), movieToRemove)
      ensures searchResults == old(searchResults) && alertState == old(alertState)
    {
      var kept: seq<string> := [];
      for i := 0 to |selectedMovies|
        invariant kept == Without(selectedMovies[..i], movieToRemove)
      {
        assert selectedMovies[..i + 1][..i] == selectedMovies[..i];
        if selectedMovies[i] != movieToRemove {
          kept := kept + [selectedMovies[i]];
        }
      }
      assert selectedMovies[..|selectedMovies|] == selectedMovies;
      WithoutWellFormed(selectedMovies, movieToRemove);
      selectedMovies := kept;
    }

    /**
     * `handlePredict()`: with nothing selected, shows the alert and sends
     * nothing; otherwise sends the selection.
     */
    method HandlePredict() returns (request: Option<seq<string>>)
      modifies this
      ensures selectedMovies == old(selectedMovies) && searchResults == old(searchResults)
      ensures old(selectedMovies) == [] ==>
        request == None && alertState == Alert(true, NothingSelectedMessage, "default")
      ensures old(selectedMovies) != [] ==>
        request == Some(old(selectedMovies)) && alertState == old(alertState)
    {
      if |selectedMovies| == 0 {
        alertState := Alert(true, "Please select at least one movie", "default");
        return None;
      }
      request := Some(selectedMovies);
    }
  }
}
