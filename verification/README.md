# Movie favourites: a Dafny model

This project models the state-bearing core of a small Android movie app
written in Kotlin with Jetpack Compose. The core has two pieces of state:

- **`MovieViewModel`** keeps an ordered list of favourite movies
  (`_favoriteMovies`, exposed read-only as `favoriteMovies`). The list starts
  empty. Its only mutator is `toggleFavorite(movie)`: if the list contains
  the movie, the first equal element is removed; otherwise the movie is
  appended at the end. Two screens read the list through the membership
  query `favoriteMovies.contains(movie)`. The catalog list uses it through
  its `isFavorite` lambda, and the favourites list uses it in each
  `FavoriteMovieRow`.
- **`MainActivity.currentTab`** is the index of the selected tab of a
  two-tab row ("Home", "Favorites"). It starts at 0 and is set only by a
  click on one of those tabs. Tab 0 shows the catalog list; any other value
  shows the favourites list.

The project has two modules.

- `Favorites` (`favorites.dfy`) holds `Movie`, an opaque type with
  equality, and the list operations the view model uses. `IndexOf`,
  `Contains` and `RemoveFirst` model Kotlin's `indexOf`, `contains` and
  `remove`; both screens' membership queries are `Contains` on the view
  model's list. `Toggle` is the specification of one toggle, and `Replay`
  gives the list after a sequence of toggles starting from empty. The class
  `MovieViewModel` has a `favoriteMovies: seq<Movie>` field. Its
  `ToggleFavorite` method reassigns that field, and the ghost field
  `history` records every toggle so far. The class invariant `Valid()` says
  that the list is the replay of its history.
- `Screens` (`screens.dfy`) holds the tab row and the row flags of both
  lists. The class `MainActivity` has the catalog, the shared view model
  and the mutable `currentTab`. `Shown` gives the list displayed below the
  tab row, and `ClickFavoriteIcon` is the heart-icon handler both lists
  wire to `toggleFavorite`.

Ordering policy: favourites are kept in the order they were added.
Re-adding a movie that was removed puts it at the end
(`ToggleTwiceMovesToEnd`). Duplicate-freedom is never assumed; it is proved
for every reachable list (the contract of `Replay`). The flip of membership
relies on it, and `ToggleWithDuplicateDoesNotFlip` shows that the flip fails
on a list that holds a duplicate.

Three points about the code that shape the model:

- `favoriteMovies` is a read-only live view of `_favoriteMovies`
  (MainActivity.kt line 130), not a copy. The model reads the field at each
  query, which gives the same value as the live view at that moment.
- Movies are compared with the movie record's `equals`. The model uses the
  equality of the opaque `Movie` type.
- The favourites are an ordered list, not a set. The model keeps the list
  and proves that a reachable list never holds duplicates.

## Model

| member | source | states |
|---|---|---|
| `Favorites.IndexOf` | src/main/java/com/example/movieappmad23/MainActivity.kt:134 | The result is -1 exactly when no element equals the movie. Otherwise it is the position of the first equal element: nothing before it is equal. |
| `Favorites.Contains` | src/main/java/com/example/movieappmad23/MainActivity.kt:134 | The `indexOf`-based `contains` holds exactly when the movie is an element of the list. The same query decides the icon in both lists (lines 86 and 145; see `MovieListRows` and `FavoriteScreenRows`). |
| `Favorites.RemoveFirst` | src/main/java/com/example/movieappmad23/MainActivity.kt:135 | Removing shortens the list by one when the movie is present and keeps its length otherwise. |
| `Favorites.RemoveFirstAbsent` | src/main/java/com/example/movieappmad23/MainActivity.kt:135 | Removing a movie that is not in the list leaves the list unchanged. |
| `Favorites.RemoveFirstAt` | src/main/java/com/example/movieappmad23/MainActivity.kt:135 | If the first copy of the movie is at position i, removal cuts out exactly that element. The prefix before i and the suffix after i keep their order. |
| `Favorites.RemoveFirstAtIndex` | src/main/java/com/example/movieappmad23/MainActivity.kt:134-135 | The recursive `remove` equals the list with the element at `IndexOf` cut out, or the list itself when `IndexOf` is -1. |
| `Favorites.RemoveFirstMultiset` | src/main/java/com/example/movieappmad23/MainActivity.kt:135 | Removal takes away exactly one copy of the movie, if there is one, and no other element. |
| `Favorites.Toggle` | src/main/java/com/example/movieappmad23/MainActivity.kt:133-138 | One toggle shrinks the list by one when the movie is present and grows it by one otherwise. What the result holds is stated by `ToggleAppendsWhenAbsent`, `ToggleRemovesWhenPresent`, `ToggleFlipsMembership` and `ToggleKeepsOthers`. |
| `Favorites.ToggleAppendsWhenAbsent` | src/main/java/com/example/movieappmad23/MainActivity.kt:136-137 | Toggling an absent movie grows the list by one. Every earlier entry stays where it was, and the movie is last. |
| `Favorites.ToggleRemovesWhenPresent` | src/main/java/com/example/movieappmad23/MainActivity.kt:134-135 | Toggling a present movie cuts out its first occurrence. The remaining entries keep their relative order. |
| `Favorites.ToggleFlipsMembership` | src/main/java/com/example/movieappmad23/MainActivity.kt:133-138 | On a duplicate-free list (every reachable list is one), the toggled movie is in the result exactly when it was not in the list before. |
| `Favorites.ToggleWithDuplicateDoesNotFlip` | src/main/java/com/example/movieappmad23/MainActivity.kt:134-135 | On [m, m], a toggle removes only one copy and m stays a member. This is why the flip needs a duplicate-free list. |
| `Favorites.ToggleKeepsOthers` | src/main/java/com/example/movieappmad23/MainActivity.kt:133-138 | Toggling m1 never changes whether any other movie m2 is in the list. |
| `Favorites.TogglePreservesNoDuplicates` | src/main/java/com/example/movieappmad23/MainActivity.kt:133-138 | A toggle of a duplicate-free list gives a duplicate-free list. |
| `Favorites.ToggleTwiceRestoresMembership` | src/main/java/com/example/movieappmad23/MainActivity.kt:133-138 | Two consecutive toggles of the same movie restore its membership. |
| `Favorites.ToggleTwiceFromAbsent` | src/main/java/com/example/movieappmad23/MainActivity.kt:134-137 | Adding an absent movie and then toggling it again gives back exactly the original list. |
| `Favorites.ToggleTwiceMovesToEnd` | src/main/java/com/example/movieappmad23/MainActivity.kt:134-137 | Removing a present movie and then re-adding it moves it from its old position to the end. The position is not restored. |
| `Favorites.Replay` | src/main/java/com/example/movieappmad23/MainActivity.kt:129-138 | Any sequence of toggles starting from the empty list leaves a list with no movie twice. The proof goes through the contract of each shorter replay. |
| `Favorites.ReplayAppend` | src/main/java/com/example/movieappmad23/MainActivity.kt:133-138 | Replaying one more toggle gives the same list as applying one more toggle to the replayed list. |
| `Favorites.ReplayMembership` | src/main/java/com/example/movieappmad23/MainActivity.kt:129-138 | After any sequence of toggles starting from empty, a movie is a favourite exactly when it was toggled an odd number of times. |
| `Favorites.ToggleStep` | src/main/java/com/example/movieappmad23/MainActivity.kt:133-138 | One toggle on a reachable list is the replay of one more toggle. The result is duplicate-free, the toggled movie's membership flips and every other movie's membership is kept. An absent movie is appended; a present movie is cut out at its `IndexOf` position. |
| `Favorites.ReplayDrawsFromToggles` | src/main/java/com/example/movieappmad23/MainActivity.kt:129-138 | Every favourite is a movie that was toggled at some point. So if only catalog movies are toggled, every favourite is a catalog movie. |
| `Favorites.TwoMovieScenario` | src/main/java/com/example/movieappmad23/MainActivity.kt:129-138 | For two distinct movies: favouring m1, then m2, then m1 again gives [m1], then [m1, m2], then [m2]. |
| `Favorites.MovieViewModel.constructor` | src/main/java/com/example/movieappmad23/MainActivity.kt:129-130 | A new view model has an empty favourites list and an empty history, and satisfies its invariant. |
| `Favorites.MovieViewModel.ToggleFavorite` | src/main/java/com/example/movieappmad23/MainActivity.kt:133-139 | The new list is `Toggle` of the old one, and the history grows by the movie. The invariant and duplicate-freedom are kept. The movie's membership flips and every other movie's membership is unchanged. An absent movie is appended at the end; a present one is cut out at its first position, with the other entries kept in order. |
| `Screens.TabRow` | src/main/java/com/example/movieappmad23/MainActivity.kt:46-57 | The tab row has one tab per title, in order. A tab is drawn selected exactly when its index equals `currentTab`. |
| `Screens.ExactlyOneTabSelected` | src/main/java/com/example/movieappmad23/MainActivity.kt:51-56 | When `currentTab` is an index of the tab row, exactly one tab is selected. |
| `Screens.MovieListRows` | src/main/java/com/example/movieappmad23/MainActivity.kt:143-153 | The catalog list has one row per catalog movie, in catalog order. A row's icon is filled exactly when its movie is among the favourites. |
| `Screens.FavoriteScreenRows` | src/main/java/com/example/movieappmad23/MainActivity.kt:74-86 | The favourites list has one row per favourite, in list order. Every row's icon is filled, because each row queries the list it was drawn from. |
| `Screens.ListsAgree` | src/main/java/com/example/movieappmad23/MainActivity.kt:61-66 | The two lists agree: a catalog row's icon is filled exactly when the favourites list has a row for that movie. |
| `Screens.MainActivity.constructor` | src/main/java/com/example/movieappmad23/MainActivity.kt:30-35 | The activity starts on tab 0 with the given catalog and view model, and satisfies its invariant. |
| `Screens.MainActivity.SelectTab` | src/main/java/com/example/movieappmad23/MainActivity.kt:51-56 | A click on tab `index`, which is always an index of the tab row, makes that tab current. Afterwards exactly the clicked tab is drawn selected, and `currentTab` stays within the tab row. |
| `Screens.MainActivity.Shown` | src/main/java/com/example/movieappmad23/MainActivity.kt:60-66 | Tab 0 shows the catalog list in catalog order, and any other tab shows the favourites in list order. Every displayed icon agrees with the view model's list. |
| `Screens.MainActivity.ClickFavoriteIcon` | src/main/java/com/example/movieappmad23/MainActivity.kt:148-151 | A heart-icon click toggles the movie in the shared view model and leaves the tab unchanged. The catalog list then shows that movie's icon flipped and every other icon unchanged. |

## Left out

- Jetpack Compose rendering is not modelled: cards, rows, images, icons,
  lazy columns, theming, padding and shapes. Only the movie and the
  membership flag of each row are modelled.
- The Android lifecycle and the `by viewModels` delegate are not modelled.
  The activity's constructor takes the view model as a parameter.
- The snapshot-state observation and recomposition that `mutableStateListOf`
  and `mutableStateOf` trigger are not modelled. Both are plain fields, and
  `Shown` is recomputed from the current state.
- The catalog from `getMovies()` and the fields of the movie record are
  not modelled. They live in the `models` package, which is not part of
  this model. The catalog is an arbitrary `seq<Movie>`, and `Movie` is an
  opaque type whose equality stands for the record's `equals`.
- Image resources (`R.drawable.avatar2`) and the "Show details" arrow icon
  are not modelled. They carry no behaviour.
- Aliasing is not modelled. In Kotlin, `favoriteMovies` is a read-only
  view of the same list object as `_favoriteMovies`. The model has one
  field that only `ToggleFavorite` assigns.
- The Boolean result of Kotlin's `remove` is not modelled, because the
  source ignores it.
