/** The favourites store of the movie app: the view model's ordered list of
    favourite movies, the list operations it uses (membership, removal of the
    first equal element, append) and the toggle that is its only mutator. */
module Favorites {

  /** A catalog entry. Only its equality matters here: it stands for the
      structural `equals` of the app's movie record. */
  type Movie(==)

  /** No movie occurs twice. */
  predicate NoDuplicates(s: seq<Movie>)
  {
    forall i, j :: 0 <= i < j < |s| ==> s[i] != s[j]
  }

  /** Position of the first element equal to `m`, or -1 when there is none
      (the list's `indexOf`). */
  function IndexOf(s: seq<Movie>, m: Movie): (i: int)
    ensures -1 <= i < |s|
    ensures i == -1 <==> m !in s
    ensures 0 <= i ==> s[i] == m && forall k :: 0 <= k < i ==> s[k] != m
  {
    if s == [] then -1
    else if s[0] == m then 0
    else
      var j := IndexOf(s[1..], m);
      if j < 0 then -1 else j + 1
  }

  /** The list's `contains`: an equal element is found by `indexOf`. */
  predicate Contains(s: seq<Movie>, m: Movie)
    ensures Contains(s, m) <==> m in s
  {
    IndexOf(s, m) >= 0
  }

  /** The list's `remove`: drops the first element equal to `m`, if any. */
  function RemoveFirst(s: seq<Movie>, m: Movie): (r: seq<Movie>)
    ensures |r| == if m in s then |s| - 1 else |s|
  {
    if s == [] then []
    else if s[0] == m then s[1..]
    else [s[0]] + RemoveFirst(s[1..], m)
  }

  /** RemoveFirst changes nothing when no element equals `m`. */
  lemma {:induction false} RemoveFirstAbsent(s: seq<Movie>, m: Movie)
    requires m !in s
    ensures RemoveFirst(s, m) == s
  {
    if s != [] {
      RemoveFirstAbsent(s[1..], m);
      assert [s[0]] + s[1..] == s;
    }
  }

  /** When the first copy of `m` sits at `i`, RemoveFirst cuts out exactly
      that element and keeps every other element in its order. */
  lemma {:induction false} RemoveFirstAt(s: seq<Movie>, m: Movie, i: nat)
    requires i < |s| && s[i] == m
    requires forall k :: 0 <= k < i ==> s[k] != m
    ensures RemoveFirst(s, m) == s[..i] + s[i + 1..]
  {
    if i > 0 {
      var t := s[1..];
      RemoveFirstAt(t, m, i - 1);
      assert [s[0]] + t[..i - 1] == s[..i];
      assert t[i..] == s[i + 1..];
    }
  }

  /** RemoveFirst cuts out exactly the element at IndexOf and keeps every
      other element in its order; it changes nothing when `m` is absent. */
  lemma {:induction false} RemoveFirstAtIndex(s: seq<Movie>, m: Movie)
    ensures RemoveFirst(s, m) ==
      var i := IndexOf(s, m);
      if i < 0 then s else s[..i] + s[i + 1..]
  {
    var i := IndexOf(s, m);
    if i < 0 {
      RemoveFirstAbsent(s, m);
    } else {
      RemoveFirstAt(s, m, i);
    }
  }

  /** RemoveFirst takes away exactly one copy of `m` when there is one. */
  lemma {:induction false} RemoveFirstMultiset(s: seq<Movie>, m: Movie)
    ensures multiset(RemoveFirst(s, m)) == multiset(s) - multiset{m}
  {
    if s != [] {
      var t := s[1..];
      assert s == [s[0]] + t;
      if s[0] != m {
        RemoveFirstMultiset(t, m);
        assert RemoveFirst(s, m) == [s[0]] + RemoveFirst(t, m);
      }
    }
  }

  /** What one call of the view model's toggle does to the list: remove the
      movie when the list contains it, append it otherwise. */
  function Toggle(s: seq<Movie>, m: Movie): (r: seq<Movie>)
    ensures |r| == if m in s then |s| - 1 else |s| + 1
  {
    if Contains(s, m) then RemoveFirst(s, m) else s + [m]
  }

  /** Toggling an absent movie appends it at the end and leaves every earlier
      entry where it was. */
  lemma ToggleAppendsWhenAbsent(s: seq<Movie>, m: Movie)
    requires m !in s
    ensures |Toggle(s, m)| == |s| + 1
    ensures Toggle(s, m)[..|s|] == s && Toggle(s, m)[|s|] == m
  {
  }

  /** Toggling a present movie cuts out its first occurrence; the remaining
      entries keep their relative order. */
  lemma {:induction false} ToggleRemovesWhenPresent(s: seq<Movie>, m: Movie)
    requires m in s
    ensures exists i ::
      && 0 <= i < |s| && s[i] == m
      && (forall k :: 0 <= k < i ==> s[k] != m)
      && Toggle(s, m) == s[..i] + s[i + 1..]
  {
    RemoveFirstAtIndex(s, m);
    var i := IndexOf(s, m);
    assert Toggle(s, m) == s[..i] + s[i + 1..];
  }

  /** Cutting element i out of a duplicate-free list leaves no copy of it. */
  lemma CutLeavesNoCopy(s: seq<Movie>, i: nat)
    requires NoDuplicates(s) && i < |s|
    ensures s[i] !in s[..i] + s[i + 1..]
  {
    var r := s[..i] + s[i + 1..];
    forall k | 0 <= k < |r|
      ensures r[k] != s[i]
    {
      if k < i {
        assert r[k] == s[k];
      } else {
        assert r[k] == s[k + 1];
      }
    }
  }

  /** Membership of the toggled movie flips, provided the list has no
      duplicates (with a duplicate, one removal would leave a copy behind). */
  lemma {:induction false} ToggleFlipsMembership(s: seq<Movie>, m: Movie)
    requires NoDuplicates(s)
    ensures m in Toggle(s, m) <==> m !in s
  {
    if m in s {
      RemoveFirstAtIndex(s, m);
      CutLeavesNoCopy(s, IndexOf(s, m));
    }
  }

  /** The flip needs the list to be duplicate-free: on [m, m] a toggle
      removes one copy and `m` stays in the list. */
  lemma ToggleWithDuplicateDoesNotFlip(m: Movie)
    ensures m in [m, m] && m in Toggle([m, m], m)
  {
    assert Toggle([m, m], m) == [m];
  }

  /** Toggling one movie never changes whether another movie is in the list. */
  lemma {:induction false} ToggleKeepsOthers(s: seq<Movie>, m1: Movie, m2: Movie)
    requires m1 != m2
    ensures m2 in Toggle(s, m1) <==> m2 in s
  {
    if m1 in s {
      RemoveFirstMultiset(s, m1);
      assert multiset(Toggle(s, m1))[m2] == multiset(s)[m2];
    }
  }

  /** Cutting one element out of a duplicate-free list keeps it so. */
  lemma NoDuplicatesAfterCut(s: seq<Movie>, i: nat)
    requires NoDuplicates(s) && i < |s|
    ensures NoDuplicates(s[..i] + s[i + 1..])
  {
    var r := s[..i] + s[i + 1..];
    forall a, b | 0 <= a < b < |r|
      ensures r[a] != r[b]
    {
      var a' := if a < i then a else a + 1;
      var b' := if b < i then b else b + 1;
      assert r[a] == s[a'] && r[b] == s[b'];
    }
  }

  /** Appending a movie that is absent keeps a list duplicate-free. */
  lemma NoDuplicatesAfterAppend(s: seq<Movie>, m: Movie)
    requires NoDuplicates(s) && m !in s
    ensures NoDuplicates(s + [m])
  {
    var r := s + [m];
    forall a, b | 0 <= a < b < |r|
      ensures r[a] != r[b]
    {
      assert r[a] == s[a];
    }
  }

  /** A toggle keeps the list duplicate-free. */
  lemma {:induction false} TogglePreservesNoDuplicates(s: seq<Movie>, m: Movie)
    requires NoDuplicates(s)
    ensures NoDuplicates(Toggle(s, m))
  {
    if m in s {
      RemoveFirstAtIndex(s, m);
      NoDuplicatesAfterCut(s, IndexOf(s, m));
    } else {
      NoDuplicatesAfterAppend(s, m);
    }
  }

  /** Two toggles in a row restore the movie's membership. */
  lemma {:induction false} ToggleTwiceRestoresMembership(s: seq<Movie>, m: Movie)
    requires NoDuplicates(s)
    ensures m in Toggle(Toggle(s, m), m) <==> m in s
  {
    ToggleFlipsMembership(s, m);
    TogglePreservesNoDuplicates(s, m);
    ToggleFlipsMembership(Toggle(s, m), m);
  }

  /** Adding and then removing an absent movie gives back the same list. */
  lemma {:induction false} ToggleTwiceFromAbsent(s: seq<Movie>, m: Movie)
    requires m !in s
    ensures Toggle(Toggle(s, m), m) == s
  {
    var t := s + [m];
    assert Toggle(s, m) == t;
    RemoveFirstAtIndex(t, m);
    assert IndexOf(t, m) == |s|;
    assert t[..|s|] == s;
  }

  /** Removing and re-adding a present movie does not restore its position:
      it moves to the end, behind every other entry. */
  lemma {:induction false} ToggleTwiceMovesToEnd(s: seq<Movie>, m: Movie)
    requires NoDuplicates(s) && m in s
    ensures exists i ::
      && 0 <= i < |s| && s[i] == m
      && Toggle(Toggle(s, m), m) == s[..i] + s[i + 1..] + [m]
  {
    RemoveFirstAtIndex(s, m);
    ToggleFlipsMembership(s, m);
    var i := IndexOf(s, m);
    assert Toggle(s, m) == s[..i] + s[i + 1..];
  }

  /** The list after toggling the movies of `toggles` one by one, starting
      from the empty list the view model is created with. No such list holds
      a movie twice. */
  function Replay(toggles: seq<Movie>): (s: seq<Movie>)
    ensures NoDuplicates(s)
  {
    if toggles == [] then []
    else
      var before := Replay(toggles[..|toggles| - 1]);
      TogglePreservesNoDuplicates(before, toggles[|toggles| - 1]);
      Toggle(before, toggles[|toggles| - 1])
  }

  /** Replaying one more toggle is one more call of Toggle. */
  lemma ReplayAppend(toggles: seq<Movie>, m: Movie)
    ensures Replay(toggles + [m]) == Toggle(Replay(toggles), m)
  {
    assert (toggles + [m])[..|toggles|] == toggles;
  }

  /** After any sequence of toggles from the empty list, a movie is a
      favourite exactly when it was toggled an odd number of times. */
  lemma {:induction false} ReplayMembership(toggles: seq<Movie>, m: Movie)
    ensures m in Replay(toggles) <==> multiset(toggles)[m] % 2 == 1
  {
    if toggles != [] {
      var init, last := toggles[..|toggles| - 1], toggles[|toggles| - 1];
      ReplayMembership(init, m);
      assert toggles == init + [last];
      assert multiset(toggles) == multiset(init) + multiset{last};
      if m == last {
        ToggleFlipsMembership(Replay(init), m);
      } else {
        ToggleKeepsOthers(Replay(init), last, m);
      }
    }
  }

  /** One toggle on a reachable list: the result is the replay of one more
      toggle, still duplicate-free, with the toggled movie's membership
      flipped and every other movie's kept. */
  lemma ToggleStep(toggles: seq<Movie>, m: Movie)
    ensures var s, r := Replay(toggles), Toggle(Replay(toggles), m);
      && r == Replay(toggles + [m])
      && NoDuplicates(r)
      && (m in r <==> m !in s)
      && (forall other :: other != m ==> (other in r <==> other in s))
      && (m !in s ==> r == s + [m])
      && (m in s ==> r == s[..IndexOf(s, m)] + s[IndexOf(s, m) + 1..])
  {
    var s := Replay(toggles);
    ReplayAppend(toggles, m);
    ToggleFlipsMembership(s, m);
    TogglePreservesNoDuplicates(s, m);
    RemoveFirstAtIndex(s, m);
    forall other | other != m
      ensures other in Toggle(s, m) <==> other in s
    {
      ToggleKeepsOthers(s, m, other);
    }
  }

  /** Every favourite is a movie that was toggled at some point, so toggling
      only catalog movies keeps the favourites inside the catalog. */
  lemma {:induction false} ReplayDrawsFromToggles(toggles: seq<Movie>)
    ensures forall m :: m in Replay(toggles) ==> m in toggles
  {
    if toggles != [] {
      var init, last := toggles[..|toggles| - 1], toggles[|toggles| - 1];
      ReplayDrawsFromToggles(init);
      forall m | m in Replay(toggles)
        ensures m in toggles
      {
        if m != last {
          ToggleKeepsOthers(Replay(init), last, m);
          assert m in init;
        }
      }
    }
  }

  /** The view model: it owns the ordered list of favourite movies, which it
      creates empty and changes only through ToggleFavorite. `history` is the
      ghost record of every toggle so far. */
  class MovieViewModel {
    var favoriteMovies: seq<Movie>
    ghost var history: seq<Movie>

    ghost predicate Valid()
      reads this
    {
      favoriteMovies == Replay(history)
    }

    constructor ()
      ensures Valid() && favoriteMovies == [] && history == []
    {
      favoriteMovies := [];
      history := [];
    }

    /** Removes the movie when the list contains it, appends it otherwise. */
    method ToggleFavorite(movie: Movie)
      requires Valid()
      modifies this
      ensures Valid() && history == old(history) + [movie]
      ensures favoriteMovies == Toggle(old(favoriteMovies), movie)
      ensures NoDuplicates(favoriteMovies)
      ensures movie in favoriteMovies <==> movie !in old(favoriteMovies)
      ensures forall other :: other != movie ==> (other in favoriteMovies <==> other in old(favoriteMovies))
      ensures movie !in old(favoriteMovies) ==> favoriteMovies == old(favoriteMovies) + [movie]
      ensures movie in old(favoriteMovies) ==>
        var i := IndexOf(old(favoriteMovies), movie);
        favoriteMovies == old(favoriteMovies)[..i] + old(favoriteMovies)[i + 1..]
    {
      ToggleStep(history, movie);
      if Contains(favoriteMovies, movie) {
        favoriteMovies := RemoveFirst(favoriteMovies, movie);
      } else {
        favoriteMovies := favoriteMovies + [movie];
      }
      history := history + [movie];
    }
  }

  /** Favouring m1, then m2, then unfavouring m1 from a fresh view model
      shows [m1], then [m1, m2], then [m2]. */
  lemma TwoMovieScenario(m1: Movie, m2: Movie)
    requires m1 != m2
    ensures Replay([m1]) == [m1]
    ensures Replay([m1, m2]) == [m1, m2]
    ensures Replay([m1, m2, m1]) == [m2]
  {
    ReplayAppend([], m1);
    assert [] + [m1] == [m1];
    ReplayAppend([m1], m2);
    assert [m1] + [m2] == [m1, m2];
    ReplayAppend([m1, m2], m1);
    assert [m1, m2] + [m1] == [m1, m2, m1];
    RemoveFirstAt([m1, m2], m1, 0);
  }
}
