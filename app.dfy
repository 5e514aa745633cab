/** The application shell: the favorites store kept as a JavaScript object (its
    keys in insertion order), the search state, and which panels a render
    shows. */
module App {
  import opened Wrappers
  import opened BookService

  // ---------------------------------------------------------------------------
  // Favorites: a plain object from book key to book
  // ---------------------------------------------------------------------------

  /** A plain object: `keys` is the order `Object.keys` lists, `entries` the
      property values. */
  datatype Favorites = Favorites(keys: seq<string>, entries: map<string, Book>)

  predicate Distinct(s: seq<string>) {
    forall i, j | 0 <= i < j < |s| :: s[i] != s[j]
  }

  /** Every property is listed once, and only properties are listed. */
  ghost predicate FavoritesWellFormed(f: Favorites) {
    Distinct(f.keys) && (forall k :: k in f.entries <==> k in f.keys)
  }

  const NoFavorites := Favorites([], map[])

  /** `obj[k] = v`: a new property goes to the end of the key order, an existing
      one keeps its place. */
  function Put(f: Favorites, k: string, v: Book): (r: Favorites)
    requires FavoritesWellFormed(f)
    ensures FavoritesWellFormed(r)
    ensures r.entries == f.entries[k := v]
    ensures k in f.entries ==> r.keys == f.keys
    ensures k !in f.entries ==> r.keys == f.keys + [k]
  {
    if k in f.entries then Favorites(f.keys, f.entries[k := v])
    else Favorites(f.keys + [k], f.entries[k := v])
  }

  /** The key order without `k`. */
  function Without(s: seq<string>, k: string): (r: seq<string>)
    ensures forall x :: x in r <==> x in s && x != k
    ensures Distinct(s) ==> Distinct(r)
    ensures k !in s ==> r == s
    ensures Distinct(s) && |s| > 0 && s[|s| - 1] == k ==> r == s[..|s| - 1]
    ensures Distinct(s) && k in s ==> |r| == |s| - 1
    decreases |s|
  {
    if s == [] then []
    else if s[0] == k then Without(s[1..], k)
    else
      var rest := Without(s[1..], k);
      assert Distinct(s) ==> Distinct([s[0]] + rest) by {
        if Distinct(s) {
          assert s[0] !in s[1..] by {
            forall j | 0 <= j < |s[1..]| ensures s[1..][j] != s[0] {
              assert s[1..][j] == s[j + 1];
            }
          }
          forall i, j | 0 <= i < j < |[s[0]] + rest| ensures ([s[0]] + rest)[i] != ([s[0]] + rest)[j] {
            if i == 0 {
              assert ([s[0]] + rest)[j] == rest[j - 1] && rest[j - 1] in rest;
            }
          }
        }
      }
      [s[0]] + rest
  }

  /** `delete obj[k]`. */
  function Remove(f: Favorites, k: string): (r: Favorites)
    requires FavoritesWellFormed(f)
    ensures FavoritesWellFormed(r)
    ensures r.entries == f.entries - {k}
    ensures k in f.entries ==> |r.keys| == |f.keys| - 1
  {
    Favorites(Without(f.keys, k), f.entries - {k})
  }

  /** `isFavorite(key)`: `Boolean(favoriteMap[key])`; a stored book is an
      object, so it is truthy. */
  predicate IsFavorite(f: Favorites, k: string) {
    k in f.entries
  }

  /** The updater passed to `setFavoriteMap` by `toggleFavorite(book)`. */
  function Toggle(f: Favorites, book: Book): (r: Favorites)
    requires FavoritesWellFormed(f)
    ensures FavoritesWellFormed(r)
    ensures IsFavorite(r, book.key) <==> !IsFavorite(f, book.key)
    ensures IsFavorite(r, book.key) ==> r.entries[book.key] == book
    ensures forall k | k != book.key ::
      (IsFavorite(r, k) <==> IsFavorite(f, k)) && (IsFavorite(f, k) ==> r.entries[k] == f.entries[k])
  {
    if book.key in f.entries then Remove(f, book.key) else Put(f, book.key, book)
  }

  /** Removing a favorite and adding it back moves its key to the end. */
  lemma ToggleTwicePresent(f: Favorites, book: Book)
    requires FavoritesWellFormed(f) && book.key in f.entries && f.entries[book.key] == book
    ensures Toggle(Toggle(f, book), book) == Favorites(Without(f.keys, book.key) + [book.key], f.entries)
  {
    var k := book.key;
    var g := Remove(f, k);
    assert Toggle(f, book) == g;
    assert k !in g.entries;
    assert Toggle(g, book) == Put(g, k, book);
    assert (f.entries - {k})[k := book] == f.entries;
  }

  /** Removing a key just appended to a list without it gives the list back. */
  lemma {:induction false} WithoutAppended(s: seq<string>, k: string)
    requires k !in s
    ensures Without(s + [k], k) == s
    decreases |s|
  {
    if s != [] {
      assert (s + [k])[1..] == s[1..] + [k];
      WithoutAppended(s[1..], k);
    }
  }

  /** Adding a key and deleting it again leaves a map without that key as it was. */
  lemma PutThenDelete(m: map<string, Book>, k: string, v: Book)
    requires k !in m
    ensures m[k := v] - {k} == m
  {
  }

  /** Adding a favorite and removing it again restores the object exactly. */
  lemma ToggleTwiceAbsent(f: Favorites, book: Book)
    requires FavoritesWellFormed(f) && book.key !in f.entries
    ensures Toggle(Toggle(f, book), book) == f
  {
    var k := book.key;
    assert k !in f.keys;
    var g := Favorites(f.keys + [k], f.entries[k := book]);
    assert Toggle(f, book) == g;
    assert Toggle(g, book) == Favorites(Without(f.keys + [k], k), f.entries[k := book] - {k});
    WithoutAppended(f.keys, k);
    PutThenDelete(f.entries, k, book);
  }

  /** Toggling the same book twice gives back the same favorites, and the same
      key order exactly when the book was not a favorite or was the most recently
      added one (a key removed and added again moves to the end). */
  lemma ToggleTwice(f: Favorites, book: Book)
    requires FavoritesWellFormed(f)
    requires IsFavorite(f, book.key) ==> f.entries[book.key] == book
    ensures Toggle(Toggle(f, book), book).entries == f.entries
    ensures Toggle(Toggle(f, book), book).keys == f.keys <==>
      !IsFavorite(f, book.key) || f.keys[|f.keys| - 1] == book.key
  {
    var k := book.key;
    var h := Toggle(Toggle(f, book), book);
    if k in f.entries {
      ToggleTwicePresent(f, book);
      assert h.keys == Without(f.keys, k) + [k];
      assert k in f.keys;
      var n := |f.keys|;
      if f.keys[n - 1] == k {
        assert Without(f.keys, k) == f.keys[..n - 1];
        assert h.keys == f.keys;
      } else {
        assert h.keys[|h.keys| - 1] == k;
      }
    } else {
      ToggleTwiceAbsent(f, book);
    }
  }

  /** Some entry of `entries` has the name `k`. */
  ghost predicate Names(entries: seq<(string, Book)>, k: string) {
    exists i | 0 <= i < |entries| :: entries[i].0 == k
  }

  /** The names of a list are those of all but its last entry, plus the last. */
  lemma NamesSnoc(entries: seq<(string, Book)>)
    requires |entries| > 0
    ensures forall k :: Names(entries, k) <==>
      Names(entries[..|entries| - 1], k) || k == entries[|entries| - 1].0
  {
    var init := entries[..|entries| - 1];
    forall k ensures Names(entries, k) <==> Names(init, k) || k == entries[|entries| - 1].0 {
      if Names(init, k) {
        var i :| 0 <= i < |init| && init[i].0 == k;
        assert entries[i] == init[i];
      }
      if Names(entries, k) {
        var i :| 0 <= i < |entries| && entries[i].0 == k;
        if i < |init| {
          assert init[i] == entries[i];
        }
      }
    }
  }

  /** `JSON.parse` of the stored object: properties are assigned in the order
      they are written, a repeated name overwriting the value but keeping the
      first position. */
  function Load(entries: seq<(string, Book)>): (r: Favorites)
    ensures FavoritesWellFormed(r)
    ensures forall k :: IsFavorite(r, k) <==> Names(entries, k)
    ensures |entries| > 0 ==>
      var last := entries[|entries| - 1]; last.0 in r.entries && r.entries[last.0] == last.1
    decreases |entries|
  {
    if entries == [] then NoFavorites
    else
      var last := entries[|entries| - 1];
      NamesSnoc(entries);
      Put(Load(entries[..|entries| - 1]), last.0, last.1)
  }

  /** The initial state: the stored object, or `{}` when nothing is stored or
      it cannot be read (`None`). */
  function InitialFavorites(stored: Option<seq<(string, Book)>>): (r: Favorites)
    ensures FavoritesWellFormed(r)
    ensures stored.None? ==> r == NoFavorites
  {
    if stored.Some? then Load(stored.value) else NoFavorites
  }

  /** The values of `entries` at `keys`, in order. */
  function ValuesAt(keys: seq<string>, entries: map<string, Book>): (r: seq<Book>)
    requires forall i | 0 <= i < |keys| :: keys[i] in entries
    ensures |r| == |keys|
    ensures forall i | 0 <= i < |r| :: r[i] == entries[keys[i]]
    decreases |keys|
  {
    if keys == [] then []
    else [entries[keys[0]]] + ValuesAt(keys[1..], entries)
  }

  /** `favoriteKeys.map(k => favoriteMap[k])`: the books of the favorites tab,
      in key order. */
  function FavoriteBooks(f: Favorites): (r: seq<Book>)
    requires FavoritesWellFormed(f)
    ensures |r| == |f.keys|
    ensures forall i | 0 <= i < |r| :: r[i] == f.entries[f.keys[i]]
  {
    ValuesAt(f.keys, f.entries)
  }

  /** A list of distinct keys has as many elements as its set. */
  lemma {:induction false} DistinctCardinality(s: seq<string>)
    requires Distinct(s)
    ensures |set x | x in s| == |s|
    decreases |s|
  {
    if s != [] {
      var t := s[1..];
      assert Distinct(t);
      DistinctCardinality(t);
      assert (set x | x in s) == (set x | x in t) + {s[0]};
      assert s[0] !in t by {
        forall j | 0 <= j < |t| ensures t[j] != s[0] {
          assert t[j] == s[j + 1];
        }
      }
    }
  }

  /** The profile's favorites count (`favoriteKeys.length`) is the number of
      favorite books, and the favorites tab shows that many cards. */
  lemma FavoritesCount(f: Favorites)
    requires FavoritesWellFormed(f)
    ensures |f.keys| == |f.entries|
    ensures |FavoriteBooks(f)| == |f.entries|
  {
    DistinctCardinality(f.keys);
    assert f.entries.Keys == set x | x in f.keys;
  }

  /** Each favorite book appears once in the favorites tab, at its key's place. */
  lemma FavoriteBooksListsEach(f: Favorites, k: string)
    requires FavoritesWellFormed(f) && IsFavorite(f, k)
    ensures exists i | 0 <= i < |f.keys| :: f.keys[i] == k && FavoriteBooks(f)[i] == f.entries[k]
    ensures forall i, j | 0 <= i < j < |f.keys| :: f.keys[i] != f.keys[j]
  {
    var i :| 0 <= i < |f.keys| && f.keys[i] == k;
    assert FavoriteBooks(f)[i] == f.entries[k];
  }

  // ---------------------------------------------------------------------------
  // The application state and the render
  // ---------------------------------------------------------------------------

  datatype Tab = SearchTab | FavoritesTab | ProfileTab

  /** What a render shows inside `<main>`, in document order. */
  datatype Panel =
    | SearchForm
    | Spinner
    | ErrorPanel(message: string)
    | Results(books: seq<Book>, hasResults: bool)
    | Welcome
    | FavoritesList(favorites: seq<Book>)
    | Profile(totalFavorites: nat, lastSearchCount: nat)

  /** The truthiness of the `error` state: `null` and `""` are falsy. */
  predicate HasError(error: Option<string>) {
    error.Some? && error.value != ""
  }

  class AppState {
    var books: seq<Book>
    var loading: bool
    var error: Option<string>
    var searchPerformed: bool
    var activeTab: Tab
    var favorites: Favorites

    /** The favorites object is well formed, and while a search is in flight
        no error is set. */
    ghost predicate Valid()
      reads this
    {
      FavoritesWellFormed(favorites) && (loading ==> error == None)
    }

    constructor (stored: Option<seq<(string, Book)>>)
      ensures Valid()
      ensures books == [] && !loading && error == None && !searchPerformed
      ensures activeTab == SearchTab
      ensures favorites == InitialFavorites(stored)
    {
      books := [];
      loading := false;
      error := None;
      searchPerformed := false;
      activeTab := SearchTab;
      favorites := InitialFavorites(stored);
    }

    /** `toggleFavorite(book)`. */
    method ToggleFavorite(book: Book)
      requires Valid()
      modifies this
      ensures Valid()
      ensures favorites == Toggle(old(favorites), book)
      ensures books == old(books) && loading == old(loading) && error == old(error)
      ensures searchPerformed == old(searchPerformed) && activeTab == old(activeTab)
    {
      favorites := Toggle(favorites, book);
    }

    /** The synchronous part of `handleSearch`, before the request is awaited:
        the previous books stay in the state but are hidden by the spinner. */
    method BeginSearch()
      requires Valid()
      modifies this
      ensures Valid()
      ensures loading && error == None && searchPerformed
      ensures books == old(books)
      ensures activeTab == old(activeTab) && favorites == old(favorites)
    {
      loading := true;
      error := None;
      searchPerformed := true;
    }

    /** The part of `handleSearch` after the request settles: the books on
        success, the error's message and no books on failure, and the spinner
        off either way. */
    method FinishSearch(outcome: Result<seq<Book>, JsError>)
      requires Valid()
      modifies this
      ensures Valid()
      ensures !loading
      ensures outcome.Success? ==> books == outcome.value && error == old(error)
      ensures outcome.Failure? ==> books == [] && error == Some(outcome.error.message)
      ensures searchPerformed == old(searchPerformed)
      ensures activeTab == old(activeTab) && favorites == old(favorites)
    {
      match outcome {
        case Success(results) =>
          books := results;
        case Failure(err) =>
          error := Some(err.message);
          books := [];
      }
      loading := false;
    }

    /** `handleSearch(params)` run to completion, with `fetch` as a parameter. */
    method HandleSearch(p: SearchParams, fetch: Request -> FetchOutcome)
      requires Valid()
      modifies this
      ensures Valid()
      ensures var outcome := SearchOutcome(fetch(SearchRequest(SearchQuery(p))));
        !loading && searchPerformed &&
        (outcome.Success? ==> books == outcome.value && error == None) &&
        (outcome.Failure? ==> books == [] && error == Some(outcome.error.message))
      ensures activeTab == old(activeTab) && favorites == old(favorites)
    {
      BeginSearch();
      var r := SearchBooks(p, fetch);
      FinishSearch(r);
    }

    /** `handleClearResults`, also the form's and the results' clear button. */
    method HandleClearResults()
      requires Valid()
      modifies this
      ensures Valid()
      ensures books == [] && error == None && !searchPerformed
      ensures loading == old(loading) && activeTab == old(activeTab) && favorites == old(favorites)
    {
      books := [];
      error := None;
      searchPerformed := false;
    }

    /** The header's `onNavigate`. */
    method Navigate(tab: Tab)
      requires Valid()
      modifies this
      ensures Valid()
      ensures activeTab == tab
      ensures books == old(books) && loading == old(loading) && error == old(error)
      ensures searchPerformed == old(searchPerformed) && favorites == old(favorites)
    {
      activeTab := tab;
    }

    /** The panels of the current render, in document order. */
    function Page(): (r: seq<Panel>)
      reads this
      requires FavoritesWellFormed(favorites)
      ensures activeTab == SearchTab ==> |r| > 0 && r[0] == SearchForm
      ensures activeTab == SearchTab ==> (Spinner in r <==> loading)
      ensures activeTab == SearchTab ==>
        (forall m :: ErrorPanel(m) in r <==> HasError(error) && m == error.value)
      ensures activeTab == SearchTab ==>
        (Results(books, |books| > 0) in r <==> !loading && !HasError(error) && searchPerformed)
      ensures activeTab == SearchTab ==>
        (Welcome in r <==> !loading && !HasError(error) && !searchPerformed)
      ensures activeTab == SearchTab && !loading && !HasError(error) ==>
        (Welcome in r <==> Results(books, |books| > 0) !in r)
      ensures activeTab == FavoritesTab ==> r == [FavoritesList(FavoriteBooks(favorites))]
      ensures activeTab == ProfileTab ==> r == [Profile(|favorites.keys|, |books|)]
    {
      match activeTab
      case SearchTab =>
        [SearchForm]
        + (if loading then [Spinner] else [])
        + (if HasError(error) then [ErrorPanel(error.value)] else [])
        + (if !loading && !HasError(error) && searchPerformed then [Results(books, |books| > 0)] else [])
        + (if !loading && !HasError(error) && !searchPerformed then [Welcome] else [])
      case FavoritesTab => [FavoritesList(FavoriteBooks(favorites))]
      case ProfileTab => [Profile(|favorites.keys|, |books|)]
    }
  }

  /** A search that fails with an empty message sets a falsy error: no error
      panel is shown, and the results panel shows an empty list instead. */
  lemma EmptyMessageShowsNoError(a: AppState)
    requires FavoritesWellFormed(a.favorites)
    requires a.activeTab == SearchTab && !a.loading && a.searchPerformed
    requires a.books == [] && a.error == Some("")
    ensures Results([], false) in a.Page()
    ensures forall m :: ErrorPanel(m) !in a.Page()
  {
  }
}
