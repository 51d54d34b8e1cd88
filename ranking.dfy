/**
 * Ranking by a score, highest first. The sort is stable: equal scores keep
 * the order they had in the input, which is what Python's
 * `sorted(..., reverse=True)` guarantees.
 */
module Ranking {

  /** An item paired with the score it is ranked by. */
  datatype Ranked<T> = Ranked(item: T, score: int)

  /** Scores never increase along `s`. */
  predicate NonIncreasing<T>(s: seq<Ranked<T>>) {
    forall i, j :: 0 <= i < j < |s| ==> s[i].score >= s[j].score
  }

  /** `x` goes in front of the first element that does not outscore it. */
  function Insert<T>(x: Ranked<T>, s: seq<Ranked<T>>): (r: seq<Ranked<T>>)
    ensures |r| == |s| + 1
    ensures multiset(r) == multiset(s) + multiset{x}
    ensures NonIncreasing(s) ==> NonIncreasing(r)
  {
    if s == [] || s[0].score <= x.score then [x] + s
    else
      var t := Insert(x, s[1..]);
      assert s == [s[0]] + s[1..];
      assert NonIncreasing(s) ==> NonIncreasing([s[0]] + t) by {
        if NonIncreasing(s) {
          assert NonIncreasing(s[1..]);
          ScoresBounded(t, s[1..], x, s[0].score);
          ConsNonIncreasing(s[0], t);
        }
      }
      [s[0]] + t
  }

  /** A list holding `s` and `x` and nothing else scores no higher than they do. */
  lemma ScoresBounded<T>(t: seq<Ranked<T>>, s: seq<Ranked<T>>, x: Ranked<T>, bound: int)
    requires multiset(t) == multiset(s) + multiset{x}
    requires x.score <= bound
    requires forall k :: 0 <= k < |s| ==> s[k].score <= bound
    ensures forall k :: 0 <= k < |t| ==> t[k].score <= bound
  {
    forall k | 0 <= k < |t| ensures t[k].score <= bound {
      assert t[k] in multiset(t);
      if t[k] != x {
        assert t[k] in multiset(s);
      }
    }
  }

  /** A head scoring at least as much as a non-increasing tail keeps it non-increasing. */
  lemma ConsNonIncreasing<T>(h: Ranked<T>, t: seq<Ranked<T>>)
    requires NonIncreasing(t)
    requires forall k :: 0 <= k < |t| ==> t[k].score <= h.score
    ensures NonIncreasing([h] + t)
  {
    var r := [h] + t;
    forall i, j | 0 <= i < j < |r| ensures r[i].score >= r[j].score {
      assert r[j] == t[j - 1];
      if i > 0 {
        assert r[i] == t[i - 1];
      }
    }
  }

  /** Stable descending insertion sort by score. */
  function SortByScore<T>(s: seq<Ranked<T>>): (r: seq<Ranked<T>>)
    ensures |r| == |s|
    ensures multiset(r) == multiset(s)
    ensures NonIncreasing(r)
  {
    if s == [] then []
    else
      var rest := SortByScore(s[1..]);
      assert NonIncreasing(rest);
      assert multiset(s) == multiset(s[1..]) + multiset{s[0]} by {
        assert s == [s[0]] + s[1..];
      }
      Insert(s[0], rest)
  }

  /**
   * The stable sort leaves an already ranked list as it is; in particular
   * sorting twice is sorting once.
   */
  lemma {:induction false} SortedIsFixed<T>(s: seq<Ranked<T>>)
    requires NonIncreasing(s)
    ensures SortByScore(s) == s
  {
    if s != [] {
      assert NonIncreasing(s[1..]);
      SortedIsFixed(s[1..]);
      assert s == [s[0]] + s[1..];
    }
  }

  /** Any `h` first elements of the sorted list are a best `h`: an element left out scores no higher. */
  lemma SortedPrefixIsBest<T>(s: seq<Ranked<T>>, h: nat, x: Ranked<T>)
    requires x in s && h <= |s|
    ensures x in SortByScore(s)[..h] || forall k :: 0 <= k < h ==> x.score <= SortByScore(s)[k].score
  {
    var sorted := SortByScore(s);
    assert x in multiset(sorted) by {
      assert x in multiset(s);
    }
    var p :| 0 <= p < |sorted| && sorted[p] == x;
    if p < h {
      assert sorted[..h][p] == x;
    } else {
      forall k | 0 <= k < h ensures x.score <= sorted[k].score {
        assert k < p;
      }
    }
  }

  /** A copy of `x` beyond the first `h` elements of a non-increasing list scores no higher than they do. */
  lemma PrefixIsBestByCount<T>(sorted: seq<Ranked<T>>, h: nat, x: Ranked<T>)
    requires h <= |sorted| && NonIncreasing(sorted)
    requires multiset(sorted[..h])[x] < multiset(sorted)[x]
    ensures forall k :: 0 <= k < h ==> x.score <= sorted[k].score
  {
    assert sorted == sorted[..h] + sorted[h..];
    var rest := sorted[h..];
    assert multiset(rest)[x] > 0;
    var p :| 0 <= p < |rest| && rest[p] == x;
    assert sorted[h + p] == x;
  }

  /** Python's `list(enumerate(row))`: each score paired with its position. */
  function Enumerate(row: seq<int>): (r: seq<Ranked<nat>>)
    ensures |r| == |row|
    ensures forall i :: 0 <= i < |row| ==> r[i] == Ranked(i, row[i])
  {
    seq(|row|, i requires 0 <= i < |row| => Ranked(i, row[i]))
  }

  /** `a` comes before `b`: higher score first, then the lower position. */
  predicate Before(a: Ranked<nat>, b: Ranked<nat>) {
    a.score > b.score || (a.score == b.score && a.item < b.item)
  }

  /** Every element comes strictly before every later one. */
  predicate StrictlyRanked(s: seq<Ranked<nat>>) {
    forall i, j :: 0 <= i < j < |s| ==> Before(s[i], s[j])
  }

  /** Positions strictly increase along `s`, as they do in an enumeration. */
  predicate AscendingItems(s: seq<Ranked<nat>>) {
    forall i, j :: 0 <= i < j < |s| ==> s[i].item < s[j].item
  }

  /**
   * Inserting an element whose position is below every position already in
   * a strictly ranked list keeps the list strictly ranked.
   */
  lemma {:induction false} InsertKeepsRanked(x: Ranked<nat>, s: seq<Ranked<nat>>)
    requires StrictlyRanked(s)
    requires forall k :: 0 <= k < |s| ==> x.item < s[k].item
    ensures StrictlyRanked(Insert(x, s))
  {
    if s == [] || s[0].score <= x.score {
      forall k | 0 <= k < |s| ensures Before(x, s[k]) {
        if k > 0 { assert Before(s[0], s[k]); }
      }
    } else {
      InsertKeepsRanked(x, s[1..]);
      var r := Insert(x, s[1..]);
      forall k | 0 <= k < |r| ensures Before(s[0], r[k]) {
        assert r[k] in multiset(r);
        assert r[k] in multiset(s[1..]) || r[k] == x;
        if r[k] != x {
          var m :| 0 <= m < |s[1..]| && s[1..][m] == r[k];
          assert Before(s[0], s[m + 1]);
        }
      }
    }
  }

  /** Sorting a list whose positions ascend orders it by score, then position. */
  lemma {:induction false} SortedEnumerationRanked(s: seq<Ranked<nat>>)
    requires AscendingItems(s)
    ensures StrictlyRanked(SortByScore(s))
  {
    if s != [] {
      SortedEnumerationRanked(s[1..]);
      var r := SortByScore(s[1..]);
      forall k | 0 <= k < |r| ensures s[0].item < r[k].item {
        assert r[k] in multiset(s[1..]);
        var m :| 0 <= m < |s[1..]| && s[1..][m] == r[k];
        assert s[0].item < s[m + 1].item;
      }
      InsertKeepsRanked(s[0], r);
    }
  }

  /**
   * Python's `sorted(enumerate(row), key=score, reverse=True)`: a permutation
   * of the enumeration, ordered by descending score and, among equal scores,
   * by ascending position.
   */
  lemma RankedRow(row: seq<int>)
    ensures multiset(SortByScore(Enumerate(row))) == multiset(Enumerate(row))
    ensures |SortByScore(Enumerate(row))| == |row|
    ensures StrictlyRanked(SortByScore(Enumerate(row)))
  {
    var e := Enumerate(row);
    assert |multiset(SortByScore(e))| == |multiset(e)|;
    SortedEnumerationRanked(e);
  }

  /** The head of a strictly ranked list comes before each of its other elements. */
  lemma HeadComesFirst(a: seq<Ranked<nat>>, x: Ranked<nat>)
    requires StrictlyRanked(a)
    requires x in a && x != a[0]
    ensures Before(a[0], x)
  {
  }

  /** Lists with the same elements and the same head have the same elements after it. */
  lemma SameTails<T>(a: seq<T>, b: seq<T>)
    requires a != [] && b != [] && a[0] == b[0]
    requires multiset(a) == multiset(b)
    ensures multiset(a[1..]) == multiset(b[1..])
  {
    assert a == [a[0]] + a[1..] && b == [b[0]] + b[1..];
    assert multiset(a) == multiset{a[0]} + multiset(a[1..]);
    assert multiset(b) == multiset{b[0]} + multiset(b[1..]);
    assert multiset(a[1..]) == multiset(a) - multiset{a[0]};
    assert multiset(b[1..]) == multiset(b) - multiset{b[0]};
  }

  /** Two strictly ranked lists with the same elements are equal. */
  lemma {:induction false} StrictlyRankedUnique(a: seq<Ranked<nat>>, b: seq<Ranked<nat>>)
    requires StrictlyRanked(a) && StrictlyRanked(b)
    requires multiset(a) == multiset(b)
    ensures a == b
  {
    if a != [] {
      assert a[0] in multiset(b);
      assert b != [];
      assert b[0] in multiset(a);
      if a[0] != b[0] {
        HeadComesFirst(a, b[0]);
        HeadComesFirst(b, a[0]);
        assert false;
      }
      SameTails(a, b);
      assert StrictlyRanked(a[1..]) && StrictlyRanked(b[1..]);
      StrictlyRankedUnique(a[1..], b[1..]);
    }
  }

  /**
   * The ranking of a row is the only ordering of its (position, score) pairs
   * by descending score and then ascending position.
   */
  lemma RankingIsUnique(row: seq<int>, r: seq<Ranked<nat>>)
    requires multiset(r) == multiset(Enumerate(row))
    requires StrictlyRanked(r)
    ensures r == SortByScore(Enumerate(row))
  {
    RankedRow(row);
    StrictlyRankedUnique(r, SortByScore(Enumerate(row)));
  }
}
