/** The activity around the view model: the tab selector that decides which
    list is shown, the membership flag each row of the two lists is drawn
    with, and the favourite icons that route to the view model's toggle. */
module Screens {
  import opened Favorites

  /** The tab row's titles, in order; a tab's index is its position here. */
  const Tabs: seq<string> := ["Home", "Favorites"]

  /** One tab of the tab row: its title and whether it is drawn selected. */
  datatype Tab = Tab(title: string, selected: bool)

  /** One row of either list: the movie and whether its heart icon is filled. */
  datatype Row = Row(movie: Movie, isFavorite: bool)

  /** What the activity shows below the tab row. */
  datatype Display =
    | CatalogList(rows: seq<Row>)
    | FavoriteList(rows: seq<Row>)

  /** The tab row for the current tab index: every title in order, and a tab
      is selected exactly when its index is the current one. */
  function TabRow(currentTab: int): (tabs: seq<Tab>)
    ensures |tabs| == |Tabs|
    ensures forall i :: 0 <= i < |tabs| ==>
      tabs[i].title == Tabs[i] && (tabs[i].selected <==> i == currentTab)
  {
    seq(|Tabs|, i requires 0 <= i < |Tabs| => Tab(Tabs[i], currentTab == i))
  }

  /** A current tab that is an index of the tab row selects exactly one tab. */
  lemma ExactlyOneTabSelected(currentTab: int)
    requires 0 <= currentTab < |Tabs|
    ensures exists i :: 0 <= i < |TabRow(currentTab)| && TabRow(currentTab)[i].selected
    ensures forall i, j ::
      (0 <= i < |TabRow(currentTab)| && 0 <= j < |TabRow(currentTab)| &&
       TabRow(currentTab)[i].selected && TabRow(currentTab)[j].selected) ==> i == j
  {
    assert TabRow(currentTab)[currentTab].selected;
  }

  /** The catalog list: one row per catalog movie, in catalog order, whose
      icon is filled exactly when the movie is among the favourites. */
  function MovieListRows(movies: seq<Movie>, favorites: seq<Movie>): (rows: seq<Row>)
    ensures |rows| == |movies|
    ensures forall k :: 0 <= k < |rows| ==>
      rows[k].movie == movies[k] && (rows[k].isFavorite <==> movies[k] in favorites)
  {
    seq(|movies|, k requires 0 <= k < |movies| => Row(movies[k], Contains(favorites, movies[k])))
  }

  /** The favourites list: one row per favourite, in list order; since each
      row asks the same list it was drawn from, every icon is filled. */
  function FavoriteScreenRows(favorites: seq<Movie>): (rows: seq<Row>)
    ensures |rows| == |favorites|
    ensures forall k :: 0 <= k < |rows| ==> rows[k].movie == favorites[k] && rows[k].isFavorite
  {
    seq(|favorites|, k requires 0 <= k < |favorites| => Row(favorites[k], Contains(favorites, favorites[k])))
  }

  /** The two lists agree: a catalog row's icon is filled exactly when the
      favourites list has a row for that movie. */
  lemma ListsAgree(movies: seq<Movie>, favorites: seq<Movie>, k: nat)
    requires k < |movies|
    ensures MovieListRows(movies, favorites)[k].isFavorite <==>
      exists j :: 0 <= j < |FavoriteScreenRows(favorites)| &&
        FavoriteScreenRows(favorites)[j].movie == movies[k]
  {
    var rows := FavoriteScreenRows(favorites);
    if movies[k] in favorites {
      var j :| 0 <= j < |favorites| && favorites[j] == movies[k];
      assert rows[j].movie == movies[k];
    }
  }

  /** The activity: the catalog it lists, the view model it shares between
      both lists, and the index of the selected tab. */
  class MainActivity {
    const catalog: seq<Movie>
    const movieViewModel: MovieViewModel
    var currentTab: int

    ghost predicate Valid()
      reads this, movieViewModel
    {
      0 <= currentTab < |Tabs| && movieViewModel.Valid()
    }

    constructor (catalog: seq<Movie>, movieViewModel: MovieViewModel)
      requires movieViewModel.Valid()
      ensures Valid()
      ensures this.catalog == catalog && this.movieViewModel == movieViewModel
      ensures currentTab == 0
    {
      this.catalog := catalog;
      this.movieViewModel := movieViewModel;
      currentTab := 0;
    }

    /** A click on the tab at `index`; the tab row only offers its own
        indices. */
    method SelectTab(index: int)
      requires Valid()
      requires 0 <= index < |Tabs|
      modifies this
      ensures Valid()
      ensures currentTab == index
      ensures forall i :: 0 <= i < |Tabs| ==> (TabRow(currentTab)[i].selected <==> i == index)
    {
      currentTab := index;
    }

    /** The list shown below the tab row: the catalog for tab 0, the
        favourites for any other tab. Every icon shown agrees with the view
        model's list. */
    function Shown(): (d: Display)
      reads this, movieViewModel
      ensures d.CatalogList? <==> currentTab == 0
      ensures d.CatalogList? ==>
        && |d.rows| == |catalog|
        && forall k :: 0 <= k < |d.rows| ==> d.rows[k].movie == catalog[k]
      ensures d.FavoriteList? ==>
        && |d.rows| == |movieViewModel.favoriteMovies|
        && forall k :: 0 <= k < |d.rows| ==> d.rows[k].movie == movieViewModel.favoriteMovies[k]
      ensures forall k :: 0 <= k < |d.rows| ==>
        (d.rows[k].isFavorite <==> d.rows[k].movie in movieViewModel.favoriteMovies)
    {
      if currentTab == 0 then CatalogList(MovieListRows(catalog, movieViewModel.favoriteMovies))
      else FavoriteList(FavoriteScreenRows(movieViewModel.favoriteMovies))
    }

    /** A click on a movie's heart icon, in either list: the view model
        toggles the movie, so the catalog list next shows that movie's icon
        flipped and every other icon as it was. */
    method ClickFavoriteIcon(movie: Movie)
      requires Valid()
      modifies movieViewModel
      ensures Valid() && currentTab == old(currentTab)
      ensures movieViewModel.favoriteMovies == Toggle(old(movieViewModel.favoriteMovies), movie)
      ensures forall k :: 0 <= k < |catalog| ==>
        MovieListRows(catalog, movieViewModel.favoriteMovies)[k].isFavorite ==
          if catalog[k] == movie
          then !MovieListRows(catalog, old(movieViewModel.favoriteMovies))[k].isFavorite
          else MovieListRows(catalog, old(movieViewModel.favoriteMovies))[k].isFavorite
    {
      movieViewModel.ToggleFavorite(movie);
    }
  }
}
