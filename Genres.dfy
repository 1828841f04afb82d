/** The genre filter list of the dashboard:
    `sorted(list(set(genre for game in games_list for genre in game.get('genres', []))))`,
    that is, every genre of every listed game, once, in Python's string order. */
module Genres {

  /** Python's `a < b` on `str`: code point by code point, a proper prefix first. */
  predicate StrLess(a: string, b: string)
    decreases |a|
  {
    if a == [] then b != []
    else b != [] && (a[0] < b[0] || (a[0] == b[0] && StrLess(a[1..], b[1..])))
  }

  lemma {:induction false} StrLessIrreflexive(a: string)
    ensures !StrLess(a, a)
    decreases |a|
  {
    if a != [] {
      StrLessIrreflexive(a[1..]);
    }
  }

  lemma {:induction false} StrLessTransitive(a: string, b: string, c: string)
    requires StrLess(a, b) && StrLess(b, c)
    ensures StrLess(a, c)
    decreases |a|
  {
    if a != [] && a[0] == b[0] && b[0] == c[0] {
      StrLessTransitive(a[1..], b[1..], c[1..]);
    }
  }

  lemma {:induction false} StrLessTotal(a: string, b: string)
    ensures a == b || StrLess(a, b) || StrLess(b, a)
    decreases |a|
  {
    if a != [] && b != [] && a[0] == b[0] {
      StrLessTotal(a[1..], b[1..]);
      if a[1..] == b[1..] {
        assert a == [a[0]] + a[1..] && b == [b[0]] + b[1..];
      }
    }
  }

  lemma StrLessAsymmetric(a: string, b: string)
    requires StrLess(a, b)
    ensures !StrLess(b, a)
  {
    if StrLess(b, a) {
      StrLessTransitive(a, b, a);
      StrLessIrreflexive(a);
    }
  }

  /** In ascending order without repetitions. */
  predicate StrictlySorted(s: seq<string>) {
    forall i, j :: 0 <= i < j < |s| ==> StrLess(s[i], s[j])
  }

  /** Adds `x` to a strictly sorted list, keeping it strictly sorted. */
  function Insert(s: seq<string>, x: string): (r: seq<string>)
    requires StrictlySorted(s)
    ensures StrictlySorted(r)
    ensures forall y :: y in r <==> y in s || y == x
    decreases |s|
  {
    if s == [] then [x]
    else if x == s[0] then s
    else if StrLess(x, s[0]) then
      StrLessBelowHead(s, x);
      [x] + s
    else
      StrLessTotal(x, s[0]);
      var rest := Insert(s[1..], x);
      assert forall y :: y in rest ==> StrLess(s[0], y);
      [s[0]] + rest
  }

  /** Something below the head of a sorted list is below all of it. */
  lemma StrLessBelowHead(s: seq<string>, x: string)
    requires StrictlySorted(s) && s != [] && StrLess(x, s[0])
    ensures forall j :: 0 <= j < |s| ==> StrLess(x, s[j])
  {
    forall j | 0 < j < |s|
      ensures StrLess(x, s[j])
    {
      StrLessTransitive(x, s[0], s[j]);
    }
  }

  /** `sorted(set(xs))` */
  function SortedUnique(xs: seq<string>): (r: seq<string>)
    ensures StrictlySorted(r)
    ensures forall y :: y in r <==> y in xs
  {
    if xs == [] then []
    else Insert(SortedUnique(xs[..|xs| - 1]), xs[|xs| - 1])
  }

  /** The generator `genre for game in games for genre in game`. */
  function Flatten(games: seq<seq<string>>): (r: seq<string>)
    ensures forall y :: y in r <==> exists g :: 0 <= g < |games| && y in games[g]
  {
    if games == [] then []
    else
      var r := Flatten(games[..|games| - 1]) + games[|games| - 1];
      assert forall y :: y in games[|games| - 1] ==> y in r;
      r
  }

  /** Some game in the list has genre `y`. */
  predicate HasGenre(games: seq<seq<string>>, y: string) {
    exists g :: 0 <= g < |games| && y in games[g]
  }

  /** `all_genres`, from the genre lists of the listed games. */
  function AllGenres(games: seq<seq<string>>): (r: seq<string>)
    ensures StrictlySorted(r)
    ensures forall y :: y in r <==> HasGenre(games, y)
  {
    SortedUnique(Flatten(games))
  }

  /** A set has exactly one strictly sorted listing: `all_genres` is
      determined by which genres occur, whatever the order of the games and
      however often a genre repeats. */
  lemma {:induction false} SortedListingUnique(a: seq<string>, b: seq<string>)
    requires StrictlySorted(a) && StrictlySorted(b)
    requires forall y :: y in a <==> y in b
    ensures a == b
    decreases |a|
  {
    if a != [] {
      assert a[0] in b;
      assert b[0] in a;
      var k :| 0 <= k < |b| && b[k] == a[0];
      var m :| 0 <= m < |a| && a[m] == b[0];
      if k > 0 {
        StrLessAsymmetric(b[0], b[k]);
      }
      assert b[0] == a[0];
      forall y | y in a[1..]
        ensures y in b[1..]
      {
        var i :| 1 <= i < |a| && a[i] == y;
        StrLessIrreflexive(y);
        assert StrLess(a[0], a[i]);
        assert y in b;
      }
      forall y | y in b[1..]
        ensures y in a[1..]
      {
        var i :| 1 <= i < |b| && b[i] == y;
        StrLessIrreflexive(y);
        assert StrLess(b[0], b[i]);
        assert y in a;
      }
      SortedListingUnique(a[1..], b[1..]);
      assert a == [a[0]] + a[1..] && b == [b[0]] + b[1..];
    } else if b != [] {
      HeadIn(b);
    }
  }

  lemma HeadIn(b: seq<string>)
    requires b != []
    ensures b[0] in b
  {
  }

  /** Listing the same games in another order, or with a genre repeated,
      gives the same `all_genres`. */
  lemma AllGenresDependsOnlyOnGenres(games: seq<seq<string>>, other: seq<seq<string>>)
    requires forall y :: HasGenre(games, y) <==> HasGenre(other, y)
    ensures AllGenres(games) == AllGenres(other)
  {
    SortedListingUnique(AllGenres(games), AllGenres(other));
  }
}
