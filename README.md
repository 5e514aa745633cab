# Book Finder core in Dafny

Book Finder is a single-page React front end for the Open Library search API.
A reader picks a search type (title, author or subject), types a query,
optionally narrows it by language, first publication year and subject, and
gets back up to fifty books. The books can be sorted, shown as a grid or a
list, and marked as favorites. Favorites are kept in the browser's storage
as a plain object keyed by the Open Library work key.

This project models the logic behind that interface:

- `BookService` models the search service. It builds the `q=` value and the
  `search.json` request. It classifies the response: not ok, no documents, or a
  list of documents. It normalises every returned record and remaps transport
  errors in the `catch` block. It also builds cover-image URLs.
  `encodeURIComponent` is modelled exactly, in module `Uri`, together with its
  inverse, so the query can be read back.
- `BookCard` models one card: the ordered list of cover URLs it tries, the image
  index that walks down that list on load errors, and the author, year, subject
  and edition formatters.
- `BookResults` models the results header. It holds the layout and the sort
  selection. It derives the comparator passed to `sort` and produces the sorted
  copy that is rendered.
- `ErrorMessage` models the error panel. Ordered, case-sensitive substring
  checks pick the text and the icon shown for an error message.
- `SearchSection` models the search form: its fields, the submit guard, the
  trimmed parameters handed to the search, and the clear button.
- `App` models the application shell. The favorites object is kept with its key
  order. It also holds the search state: books, loading flag, error and whether
  a search was performed. `Page` gives the panels a render shows for each tab.

The JavaScript built-ins the core relies on are modelled in `Text`:

- `includes`, `trim` with the exact ECMAScript white-space set;
- `toLowerCase`, `join`, `split`;
- number-to-string;
- `<` on strings.

State that a component updates in place is a class with `modifies` clauses:

- `SearchSection.SearchForm`;
- `BookResults.ResultsView`;
- `BookCard.CoverImage`;
- `App.AppState`.

The pure helpers are functions whose properties are proved as lemmas. Code
that builds a value step by step is a method proved against a specification
function:

- the two `forEach` loops of the cover list are `for` loops with invariants,
  and the final placeholder push follows them;
- the query assembly is a sequence of conditional appends, proved equal to
  `SearchQuery`;
- the sort of the copied array is an in-place insertion sort on an `array`,
  with loop invariants.

The network is a parameter. `SearchBooks` and `AppState.HandleSearch` take the
call to `fetch` as a function from the request to its outcome, which is either
a rejection or a response with a status and a body.

Two behaviours of the code are easy to misread:

- **Error texts for not-found and rate-limit.** The error panel has friendly
  texts for these cases, but its checks are case-sensitive and the service's
  messages start with capitals. So every error the service raises for an
  answered request is shown word for word, with the warning icon
  (`ErrorMessage.ServiceErrorsShownVerbatim`). The friendly texts and the
  magnifier icon are reached only by messages from elsewhere.
- **Distinct cover URLs.** The code does not deduplicate the candidate list;
  its URLs never coincide (`BookCard.CandidateUrlsDistinct`).

## Model

| member | source | states |
|---|---|---|
| BookService.BuildSearchQuery | src/services/bookService.js:15-45 | The query assembled by the type switch and the three conditional appends equals `SearchQuery`. That is: the `title:`, `author:` or `subject:` prefix (none for any other type), then the encoded term, then `&language=` and `&first_publish_year=` with raw values, then `&subject=` with an encoded value, each only when non-empty. |
| BookService.SearchQuerySegments | src/services/bookService.js:33-44 | If the raw language and year hold no `&`, splitting the query at `&` gives the head, then one segment per non-empty filter, in the fixed order. |
| BookService.TakeFilters | src/services/bookService.js:33-44 | Reading the filter segments in order gives back the raw language, the raw year and the encoded subject, with nothing left over. |
| BookService.ParseHeadRoundTrip | src/services/bookService.js:19-31 | The scope and the decoded term can be read back from the head of the query. |
| BookService.ParseSearchQuery | src/services/bookService.js:15-45 | Round trip: if the raw language and year hold no `&`, the scope, term, language, year and subject are all recovered from the query. |
| BookService.EncodedPartsHaveNoSeparators | src/services/bookService.js:21-43 | The encoded term holds no `&` and no `:`, and the encoded subject holds no `&`. So neither can inject a filter or a scope. |
| BookService.RawLanguageIsNotEscaped | src/services/bookService.js:34-36 | Concrete case: the language value `en&subject=x` gives the same query as language `en` plus subject `x`, because the language is inserted without encoding. |
| BookService.ApiUrlLayout | src/services/bookService.js:47 | The URL is the fixed `https://openlibrary.org/search.json?q=` head, the query, and the fixed `&limit=50&fields=…` tail. The query can be cut back out of it. |
| BookService.SearchBooks | src/services/bookService.js:13-108 | The result is `SearchOutcome` applied to what `fetch` returns for the GET request, sent with the two headers, for the query built from the parameters. |
| BookService.Normalize | src/services/bookService.js:77-89 | The title is kept when truthy and is otherwise `Untitled`, so it is never empty. The author list is kept, or `[]` when missing. The cover id is kept only when truthy, and `hasCover` holds exactly then. `isEbook` holds exactly when `ebook_access` is `borrowable` or `public`. `pageCount` is the median when that is truthy, and absent otherwise. Every other field passes through unchanged. |
| BookService.NormalizeWellFormed | src/services/bookService.js:77-89 | Every normalised book satisfies the book invariant. The title is non-empty. `hasCover` holds exactly when a non-zero cover id is present. The ebook flag and the page count agree with their source fields. |
| BookService.NormalizeIdempotent | src/services/bookService.js:77-89 | Normalising an already normalised book, spread back into a record, gives the same book. |
| BookService.NormalizeAll | src/services/bookService.js:77 | `docs.map`: the list has the same length and holds each record normalised, at its own position. |
| BookService.NotOkResponse | src/services/bookService.js:60-68 | A response whose status is outside 200–299 fails, whatever its body. Status 404 gives the not-found message. Status 429 gives the rate-limit message. Any other status gives `API request failed with status N`. |
| BookService.NoDocsResponse | src/services/bookService.js:72-74 | An ok response whose `docs` is missing or empty fails with the not-found message. |
| BookService.SuccessIff | src/services/bookService.js:60-92 | The search succeeds exactly for an ok response with a parsable body and a non-empty `docs`. It then returns exactly those documents normalised, so a success is never an empty list. |
| BookService.CatchRemap | src/services/bookService.js:98-107 | A `TypeError` whose message mentions `fetch` becomes the network message. Any other error whose message mentions `Failed to fetch` becomes the unreachable message, and any remaining error is rethrown unchanged. In particular, any error whose message lacks `fetch` is rethrown unchanged. |
| BookService.CatchRemapIdempotent | src/services/bookService.js:98-107 | Remapping an already remapped error changes nothing. |
| BookService.ServiceErrorsRethrown | src/services/bookService.js:106-107 | The errors the `try` block throws itself pass the `catch` unchanged: every status error and the not-found message. The two remapped texts pass unchanged too. |
| BookService.StatusMessageNoCapitalF | src/services/bookService.js:67 | No status message, whatever the status, contains `Failed to fetch`. |
| BookService.BrowserFetchFailure | src/services/bookService.js:98-104 | A browser's `TypeError: Failed to fetch` becomes the network message. A plain `Error` carrying `Failed to fetch` becomes the unreachable message. |
| BookService.GetCoverImageUrl | src/services/bookService.js:139-142 | A URL is produced exactly when the cover id is truthy. |
| BookService.CoverIdRoundTrip | src/services/bookService.js:139-142 | For a positive id, the URL parses back into the kind `id`, the decimal digits of that id, and the requested size (`L` when none is given). |
| BookService.ParseCoverUrlRoundTrip | src/services/bookService.js:141 | A cover URL splits back into its kind, its value and its size when the kind has no `/` and the value has no `-`. |
| Uri.DecodeEncode | src/services/bookService.js:21 | `decodeURIComponent(encodeURIComponent(s))` gives back `s`, for every string of Unicode scalar values. |
| Uri.EncodeInjective | src/services/bookService.js:21 | Different terms never have the same encoding. |
| Uri.EncodedIsSafe | src/services/bookService.js:21 | The encoding contains only unreserved characters, `%`, and upper-case hexadecimal digits. |
| Uri.EncodedHasNoSeparators | src/services/bookService.js:21-30 | No `&`, `:`, `=` or space survives encoding. |
| Uri.EncodeUnescapedIdentity | src/services/bookService.js:21 | A term made only of unreserved characters is its own encoding. |
| Uri.Utf8RoundTrip | src/services/bookService.js:21 | The UTF-8 bytes `encodeURIComponent` writes for one code point decode back to that code point. |
| BookCard.SizedUrls | src/components/BookCard.jsx:10-24 | One cover gives three URLs, in size order `L`, `M`, `S`, and none of them is the placeholder. |
| BookCard.CandidateUrls | src/components/BookCard.jsx:8-30 | The length is 1, plus 3 when `cover_i` is truthy, plus 3 when `isbn` is non-empty. The id URLs come first, then the URLs of the first ISBN. The placeholder is the last entry, and only the last. |
| BookCard.BuildCandidateUrls | src/components/BookCard.jsx:8-30 | The pushes of the two `forEach` loops and the final placeholder push give exactly `CandidateUrls`. |
| BookCard.CandidateUrlsDistinct | src/components/BookCard.jsx:8-30 | No URL appears twice in the candidate list. |
| BookCard.IdCandidatesAgreeWithService | src/components/BookCard.jsx:13-17 | The id-based candidates are what `getCoverImageUrl` returns for each size. |
| BookCard.CoverImage.constructor | src/components/BookCard.jsx:5-30 | A card starts at index 0 of its candidate list, and that list ends with the placeholder. |
| BookCard.CoverImage.CurrentUrl | src/components/BookCard.jsx:32 | The clamped lookup is always in bounds. From the last index on, it shows the placeholder. |
| BookCard.CoverImage.HandleImageError | src/components/BookCard.jsx:34-37 | On a load error the index moves one step on, but never past the last candidate. The list is unchanged. |
| BookCard.CoverImage.BookChanged | src/components/BookCard.jsx:30 | A new `cover_i` or `isbn` recomputes the list and keeps the index. |
| BookCard.NextIndex | src/components/BookCard.jsx:36 | The next index stays below the count. It advances strictly, except at the last entry. |
| BookCard.ErrorsWalkTheList | src/components/BookCard.jsx:34-37 | After `k` errors the card shows candidate `min(k, count - 1)`. So every URL is tried once, in order, and then the placeholder stays. |
| BookCard.PlaceholderSticks | src/components/BookCard.jsx:36 | Once the placeholder is shown, further errors keep it. |
| BookCard.AuthorDisplay | src/components/BookCard.jsx:43-48 | With no authors the line is `Unknown Author`. With one author, it is that name. |
| BookCard.AuthorDisplayRoundTrip | src/components/BookCard.jsx:47 | If no name contains a comma, splitting the joined line at `", "` gives the names back. |
| BookCard.YearDisplay | src/components/BookCard.jsx:50-58 | The card shows `Unknown Year` exactly when the first publication year is falsy and the year list is missing or empty. A truthy first year is shown. Otherwise the first entry of `publish_year` is shown. |
| BookCard.NumberIsNotUnknownYear | src/components/BookCard.jsx:50-58 | A year that is present never prints as the fallback text. |
| BookCard.Subjects | src/components/BookCard.jsx:60-65 | At most the first three subjects are returned, in order. None are returned when the field is missing. |
| BookCard.ShownSubjects | src/components/BookCard.jsx:221 | The grid shows the first `min(2, n)` subjects and the list view the first `min(3, n)`, always a prefix of the subjects. |
| BookCard.EditionText | src/components/BookCard.jsx:67-72 | The text is empty exactly when the count is falsy. A count of 1 gives `1 edition`. |
| BookCard.EditionTextParts | src/components/BookCard.jsx:69 | The text splits at its first space into the number and `edition`, or `editions` for counts above one. |
| BookResults.ResultsView.constructor | src/components/BookResults.jsx:6-8 | The header starts in grid layout, sorted by relevance, descending. |
| BookResults.SortAfter | src/components/BookResults.jsx:10-17 | Pressing the current field flips the order. Pressing another field selects it with the order reset to descending. |
| BookResults.SortTwice | src/components/BookResults.jsx:10-17 | Pressing a button twice restores the order if that field was already selected, and otherwise ends ascending. |
| BookResults.ResultsView.HandleSort | src/components/BookResults.jsx:10-17 | The new sort field and order are `SortAfter` of the old ones, and the layout is kept. |
| BookResults.ResultsView.ToggleOrder | src/components/BookResults.jsx:145-147 | The toggle, shown only away from relevance, flips the order and keeps the field and the layout. |
| BookResults.ResultsView.SetViewMode | src/components/BookResults.jsx:101-118 | The layout buttons set the layout and keep the sort. |
| BookResults.Flip | src/components/BookResults.jsx:12 | Flipping always changes the order. |
| BookResults.Compare | src/components/BookResults.jsx:19-47 | The comparator is 0 exactly under relevance. Ascending, it is 1 exactly when `b`'s key is below `a`'s. Descending, it is 1 exactly when `a`'s key is below `b`'s. It is never 0 otherwise, even on equal keys. |
| BookResults.InOrderTotal | src/components/BookResults.jsx:42-46 | Of any two books, at least one may precede the other. |
| BookResults.InOrderTransitive | src/components/BookResults.jsx:42-46 | "May precede" is transitive. |
| BookResults.InOrderPreorder | src/components/BookResults.jsx:22-47 | The comparator of every sort selection orders books as a total preorder. |
| BookResults.SortedKeys | src/components/BookResults.jsx:42-46 | In a sorted list, keys never decrease when ascending and never increase when descending. |
| BookResults.InsertAt | src/components/BookResults.jsx:22 | One insertion step leaves the prefix up to `i` ordered and the rest untouched. It keeps the multiset of elements. It moves nothing when every pair is in order. |
| BookResults.InsertionSort | src/components/BookResults.jsx:22 | The array ends ordered by the comparator and is a permutation of the input. It is unchanged when every pair is in order. |
| BookResults.GetSortedBooks | src/components/BookResults.jsx:19-48 | The sorted copy is a permutation of the books, in order for the selected field and direction. Under relevance it is the input order itself. |
| BookResults.ResultsView.SortedBooks | src/components/BookResults.jsx:177 | The rendered list is the sorted copy for the current selection and has as many books as the input, so "Showing N of M" always has N equal to M. |
| Text.LexLessIff | src/components/BookResults.jsx:43-45 | `<` on strings: either `a` is a proper prefix of `b`, or the first differing character of `a` is the smaller one. |
| Text.LexIrreflexive | src/components/BookResults.jsx:43-45 | No string is below itself. |
| Text.LexTransitive | src/components/BookResults.jsx:43-45 | String `<` is transitive. |
| Text.LexTotal | src/components/BookResults.jsx:43-45 | Of two different strings, one is below the other. |
| Text.LexAsymmetric | src/components/BookResults.jsx:43-45 | Two strings are never each below the other. |
| Text.ToLower | src/components/BookResults.jsx:27-32 | Lower-casing keeps the length and maps each character on its own. No upper-case ASCII letter remains. |
| Text.ToLowerIdempotent | src/components/BookResults.jsx:27-32 | Lower-casing twice is lower-casing once. |
| Text.ContainsIff | src/components/ErrorMessage.jsx:6-12 | `includes` holds exactly when the text occurs at some position. |
| Text.SplitJoin | src/components/BookCard.jsx:47 | Joining with `", "` loses nothing when no item contains a comma. |
| Text.TrimSlice | src/components/SearchSection.jsx:20 | `trim` keeps a contiguous slice of the input, cuts only white space from either end, and leaves no white space at either end. |
| Text.TrimEmptyIff | src/components/SearchSection.jsx:16 | The trimmed query is empty exactly when the query is all white space. |
| Text.TrimIdempotent | src/components/SearchSection.jsx:20 | Trimming twice is trimming once. |
| Text.IntToStringInjective | src/services/bookService.js:67 | Different numbers print differently. |
| Text.NatToStringValue | src/services/bookService.js:141 | Reading the printed digits of a number gives back that number. |
| ErrorMessage.GetErrorMessage | src/components/ErrorMessage.jsx:5-16 | The text shown is never empty, and it is one of the four fixed texts or the message itself. The checks apply in order: a message mentioning the network gets the network text; otherwise one mentioning not-found gets the not-found text; otherwise one mentioning the rate limit gets the rate-limit text. A message matching none of the checks is shown as it is, or as the default text when it is empty. |
| ErrorMessage.GetErrorIcon | src/components/ErrorMessage.jsx:18-26 | The magnifier shows exactly when the not-found check matches. The globe shows exactly when only the network check matches, since not-found is checked first. Otherwise the warning icon shows. |
| ErrorMessage.TextAndIcon | src/components/ErrorMessage.jsx:5-26 | Text and icon agree, except for a message that matches both the network and the not-found checks: it gets the network text with the magnifier icon. |
| ErrorMessage.FetchAnd404Disagree | src/components/ErrorMessage.jsx:5-26 | Concrete case: `fetch 404` is shown with the network text and the magnifier icon. |
| ErrorMessage.StatusMessageUnmatched | src/components/ErrorMessage.jsx:5-26 | `API request failed with status N`, for a three-digit status other than 404, matches none of the checks. |
| ErrorMessage.ServiceErrorsShownVerbatim | src/components/ErrorMessage.jsx:5-26 | Every error the service raises for a response that arrived is shown word for word with the warning icon. |
| ErrorMessage.TransportErrorsShownVerbatim | src/components/ErrorMessage.jsx:5-26 | The service's network and unreachable texts are also shown word for word, with the warning icon. |
| SearchSection.SearchForm.constructor | src/components/SearchSection.jsx:4-12 | The form starts as a title search, with every field empty and the filters hidden. |
| SearchSection.SearchForm.SetSearchType | src/components/SearchSection.jsx:65 | A type button sets the type and nothing else. |
| SearchSection.SearchForm.SetSearchQuery | src/components/SearchSection.jsx:85 | Typing sets the query and nothing else. |
| SearchSection.SearchForm.ToggleAdvanced | src/components/SearchSection.jsx:96 | The filters button shows or hides the filters and keeps their values. |
| SearchSection.SearchForm.SetLanguage | src/components/SearchSection.jsx:115 | Typing sets the language and nothing else. |
| SearchSection.SearchForm.SetPublishYear | src/components/SearchSection.jsx:139 | Typing sets the year and nothing else. |
| SearchSection.SearchForm.SetSubject | src/components/SearchSection.jsx:154 | Typing sets the subject and nothing else. |
| SearchSection.SearchForm.SubmitDisabled | src/components/SearchSection.jsx:167 | The submit button is disabled exactly when the query is all white space. |
| SearchSection.SearchForm.HandleSubmit | src/components/SearchSection.jsx:14-25 | Nothing is sent exactly when submit is disabled. Otherwise the query sent is non-empty and already trimmed, and it is a slice of the typed query with only white space around it. The type and the three filters are sent as typed. |
| SearchSection.SearchForm.HandleClear | src/components/SearchSection.jsx:27-36 | Clear empties the query and the filters and resets the type to title. The filters stay shown or hidden as they were. Submit is disabled afterwards. |
| SearchSection.FormTypesAreScoped | src/components/SearchSection.jsx:38-42 | Every type the form offers reaches the service as a scoped search, with the prefix `type:`. |
| App.Put | src/App.jsx:42 | Assigning a property keeps the object well formed. It sets the value. A new key goes to the end of the key order, and an existing key keeps its place. |
| App.Without | src/App.jsx:40 | Deleting a key keeps exactly the other keys, without repeats. It changes nothing when the key is absent, drops the last key when that is the one deleted, and shortens the list by one when the key was present. |
| App.Remove | src/App.jsx:40 | `delete` keeps the object well formed, removes exactly that entry, and shortens the key list by one. |
| App.Toggle | src/App.jsx:36-46 | Toggling flips whether the book is a favorite and stores the book when it is added. Every other favorite and its book is untouched. The object stays well formed. |
| App.ToggleTwicePresent | src/App.jsx:36-46 | Removing a favorite and adding it back moves its key to the end. |
| App.ToggleTwiceAbsent | src/App.jsx:36-46 | Adding a favorite and removing it again restores the object exactly. |
| App.ToggleTwice | src/App.jsx:36-46 | Toggling a book twice restores the favorites. The key order is restored exactly when the book was not a favorite or was the last added. |
| App.Load | src/App.jsx:22 | The parsed object is well formed. Its favorites are exactly the names present, and the last entry's value is the one stored under its name. |
| App.InitialFavorites | src/App.jsx:19-26 | The initial object is well formed, and it is `{}` when nothing can be read. |
| App.FavoriteBooks | src/App.jsx:105 | The favorites tab lists one book per key, in key order, each the stored book. |
| App.FavoriteBooksListsEach | src/App.jsx:105 | Each favorite appears exactly once, at its key's position. |
| App.FavoritesCount | src/App.jsx:112 | The profile's count `favoriteKeys.length` equals the number of favorites and the number of cards in the favorites tab. |
| App.AppState.constructor | src/App.jsx:12-26 | The application starts with no books, no spinner, no error and no search performed, on the search tab, with the stored favorites. |
| App.AppState.ToggleFavorite | src/App.jsx:36-46 | The favorites become `Toggle` of the old ones, and the rest of the state is kept. |
| App.AppState.BeginSearch | src/App.jsx:49-51 | Starting a search sets the spinner, clears the error and marks a search as performed. The previous books are kept. |
| App.AppState.FinishSearch | src/App.jsx:53-61 | On success the books are the results. On failure the error is the message and the books are `[]`. Either way the spinner is off. |
| App.AppState.HandleSearch | src/App.jsx:48-62 | After a search runs to completion, the spinner is off and a search is marked as performed. The books are the service's results and there is no error, or there are no books and the error is the service's message. |
| App.AppState.HandleClearResults | src/App.jsx:64-68 | Clearing empties the books and the error and returns to the welcome state. The spinner, the tab and the favorites are kept. |
| App.AppState.Navigate | src/App.jsx:72 | The header sets the tab and keeps the rest of the state. |
| App.AppState.Page | src/App.jsx:75-114 | On the search tab the form comes first. The spinner shows exactly while loading. The error panel shows exactly when the error is truthy, with that message. The results show exactly when not loading, with no error, after a search; the welcome shows exactly when not loading, with no error, before any search; and exactly one of the two shows. The favorites tab lists the favorite books. The profile tab shows the favorites count and the number of books. |
| App.EmptyMessageShowsNoError | src/App.jsx:79-89 | A search that fails with an empty message shows no error panel. Instead it shows an empty results list. |

## Left out

- **Network and logging.**
  - `fetch` and `response.json()` are a function parameter and an input value: the model does not choose what the server returns.
  - A body that cannot be parsed is the value `Unparsable(error)`.
  - `response.ok` is taken to mean a status from 200 to 299.
  - The `console.log` and `console.error` calls are not modelled.
- **Other service calls.** `getBookDetails` and `getAuthorInfo` are not part of this model: nothing in the modelled components calls them.
- **Local storage.**
  - Reading `localStorage` and `JSON.parse` is the input `stored`: a list of name/value pairs, or `None` when there is nothing stored or parsing throws.
  - Stored values are taken to be book objects, so they are truthy.
  - A stored `null` value, or a string that parses to a non-object, is not modelled.
  - Writing the favorites back to `localStorage` is storage I/O and is not modelled, so the model does not capture favorites persisting from one page load to the next.
- **Object key order and special names.**
  - `Object.keys` lists integer-like names first in numeric order. Open Library work keys (`/works/…`) never look like that, so the model keeps insertion order only.
  - Names the object inherits are not modelled. `favoriteMap[key]` is truthy for a key such as `constructor` or `toString`, through `Object.prototype`, so the source would report such a book as a favorite, and toggling it only runs a `delete` that removes nothing; a key equal to `__proto__` would not be stored as a property at all. The model treats only the object's own properties.
- **Overlapping searches.**
  - React state updates and the `await` are modelled as three steps: `BeginSearch`, the service call, then `FinishSearch`. Two searches running at once are not modelled.
  - Because interleaving exists in the source, the class invariant does not claim that an error implies an empty book list.
- **Screen output.** JSX layout, CSS classes, icons other than the error panel's, the footer, and the `Header`, `FavoritesSection`, `ProfileSection` and `LoadingSpinner` markup are not modelled. Only what each panel receives is modelled.
- **Numbers.**
  - Numbers are integers: `NaN`, fractions and infinities are not modelled.
  - `first_publish_year || 0` is integer truthiness.
  - The number-to-string conversion is decimal, with a leading `-`.
- Text.ToLower: lower-cases ASCII letters only, because full Unicode case mapping (which also changes string lengths) is out of reach. So two non-ASCII titles may compare differently from a browser.
- Text.LexLessIff: describes `<` on Unicode code points, whereas JavaScript compares UTF-16 code units. The two orders differ only for characters beyond U+FFFF.
- Uri.DecodeEncode: `encodeURIComponent` receives Unicode scalar values, so lone surrogates and the `URIError` they raise cannot occur.
- BookResults.GetSortedBooks: proves sortedness and a permutation, but not which of two equally keyed books comes first, because that depends on the engine's sort algorithm. The comparator returns -1 for equal keys, so the source does not fix this order either. The model sorts with an insertion sort.
- **Errors that are not `Error` objects.** A thrown value without a string `message` is not modelled: the service only ever sees `Error` and `TypeError` objects.
- **Form event.** `e.preventDefault()` in the form submit is a DOM side effect and is not modelled.
- **Clear button wiring.** The form's `handleClear` resets its fields and then calls `onClear`, which is `handleClearResults`. The two halves are modelled separately, as `SearchSection.SearchForm.HandleClear` and `App.AppState.HandleClearResults`. No method composes them, because the white-space reasoning behind `SubmitDisabled` makes a combined proof too expensive.
- BookCard.CoverImage.BookChanged: keeps `imageIndex`, as the source does. The model does not capture React remounting a card when the list order changes, which resets the index.
