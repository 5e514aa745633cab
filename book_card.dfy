/** One book card: the ordered list of cover URLs to try, the image state that
    walks down that list on load errors, and the small text formatters. */
module BookCard {
  import opened Wrappers
  import opened Text
  import opened BookService

  /** The two layouts of the results list; any view mode other than `list` renders as a grid. */
  datatype ViewMode = Grid | List

  const Sizes: seq<string> := ["L", "M", "S"]
  const Placeholder := "/placeholder-cover.svg"

  predicate HasIsbn(isbn: Option<seq<string>>) {
    isbn.Some? && |isbn.value| > 0
  }

  /** The three size variants of one cover, largest first. */
  function SizedUrls(kind: string, value: string): (urls: seq<string>)
    ensures |urls| == |Sizes|
    ensures forall j | 0 <= j < |Sizes| :: urls[j] == CoverUrl(kind, value, Sizes[j])
    ensures forall j | 0 <= j < |urls| :: urls[j] != Placeholder
  {
    CoverUrlIsNotPlaceholder(kind, value, "L");
    CoverUrlIsNotPlaceholder(kind, value, "M");
    CoverUrlIsNotPlaceholder(kind, value, "S");
    [CoverUrl(kind, value, "L"), CoverUrl(kind, value, "M"), CoverUrl(kind, value, "S")]
  }

  /** Every cover URL starts with the covers host, never with `/`. */
  lemma CoverUrlIsNotPlaceholder(kind: string, value: string, size: string)
    ensures CoverUrl(kind, value, size) != Placeholder
    ensures CoverUrl(kind, value, size)[0] == 'h'
  {
    assert CoverUrl(kind, value, size)[0] == CoversBase[0];
  }

  /** The cover URLs to try for a book, in order: by cover id (when the id is
      truthy), then by the first ISBN (when there is one), then the placeholder. */
  function CandidateUrls(coverId: Option<int>, isbn: Option<seq<string>>): (urls: seq<string>)
    ensures |urls| == 1 + (if TruthyNumber(coverId) then 3 else 0) + (if HasIsbn(isbn) then 3 else 0)
    ensures urls[|urls| - 1] == Placeholder
    ensures forall j | 0 <= j < |urls| - 1 :: urls[j] != Placeholder
    ensures TruthyNumber(coverId) ==>
      forall j | 0 <= j < |Sizes| :: urls[j] == CoverUrl("id", IntToString(coverId.value), Sizes[j])
    ensures HasIsbn(isbn) ==>
      var offset := if TruthyNumber(coverId) then 3 else 0;
      forall j | 0 <= j < |Sizes| :: urls[offset + j] == CoverUrl("isbn", isbn.value[0], Sizes[j])
  {
    var byId := if TruthyNumber(coverId) then SizedUrls("id", IntToString(coverId.value)) else [];
    var byIsbn := if HasIsbn(isbn) then SizedUrls("isbn", isbn.value[0]) else [];
    var urls := byId + byIsbn + [Placeholder];
    assert forall j | 0 <= j < |byId| :: urls[j] == byId[j];
    assert forall j | 0 <= j < |byIsbn| :: urls[|byId| + j] == byIsbn[j];
    urls
  }

  /** The id-based candidates are exactly what the service's `getCoverImageUrl`
      gives for each size. */
  lemma IdCandidatesAgreeWithService(coverId: Option<int>, isbn: Option<seq<string>>)
    requires TruthyNumber(coverId)
    ensures forall j | 0 <= j < |Sizes| ::
      Some(CandidateUrls(coverId, isbn)[j]) == GetCoverImageUrl(coverId, Some(Sizes[j]))
  {
  }

  /** Two one-letter sizes of one cover give two different URLs. */
  lemma SizesGiveDistinctUrls(kind: string, value: string, s: string, t: string)
    requires |s| == 1 && |t| == 1 && s != t
    ensures CoverUrl(kind, value, s) != CoverUrl(kind, value, t)
  {
    var p := CoversBase + kind + "/" + value + "-";
    assert CoverUrl(kind, value, s) == p + s + ".jpg";
    assert CoverUrl(kind, value, t) == p + t + ".jpg";
    assert (p + s + ".jpg")[|p|] == s[0];
    assert (p + t + ".jpg")[|p|] == t[0];
  }

  /** An id-based URL is never an ISBN-based one: the path differs right after `/b/i`. */
  lemma KindsGiveDistinctUrls(v: string, w: string, s: string, t: string)
    ensures CoverUrl("id", v, s) != CoverUrl("isbn", w, t)
  {
    var n := |CoversBase|;
    assert CoverUrl("id", v, s) == CoversBase + ("id" + ("/" + v + "-" + s + ".jpg"));
    assert CoverUrl("isbn", w, t) == CoversBase + ("isbn" + ("/" + w + "-" + t + ".jpg"));
    assert CoverUrl("id", v, s)[n + 1] == 'd';
    assert CoverUrl("isbn", w, t)[n + 1] == 's';
  }

  /** No element of `s` occurs twice. */
  predicate AllDistinct(s: seq<string>) {
    forall i, j | 0 <= i < j < |s| :: s[i] != s[j]
  }

  /** The three sizes of one cover are three different URLs. */
  lemma SizedUrlsDistinct(kind: string, value: string)
    ensures AllDistinct(SizedUrls(kind, value))
  {
    SizesGiveDistinctUrls(kind, value, "L", "M");
    SizesGiveDistinctUrls(kind, value, "L", "S");
    SizesGiveDistinctUrls(kind, value, "M", "S");
  }

  /** No id-based URL is an ISBN-based one. */
  lemma SizedUrlsDisjoint(v: string, w: string)
    ensures forall i, j | 0 <= i < 3 && 0 <= j < 3 :: SizedUrls("id", v)[i] != SizedUrls("isbn", w)[j]
  {
    forall i, j | 0 <= i < 3 && 0 <= j < 3 ensures SizedUrls("id", v)[i] != SizedUrls("isbn", w)[j] {
      KindsGiveDistinctUrls(v, w, Sizes[i], Sizes[j]);
    }
  }

  /** Two repetition-free, disjoint lists and one new element make a
      repetition-free list. */
  lemma DistinctConcat(a: seq<string>, b: seq<string>, x: string)
    requires AllDistinct(a) && AllDistinct(b)
    requires forall i, j | 0 <= i < |a| && 0 <= j < |b| :: a[i] != b[j]
    requires x !in a && x !in b
    ensures AllDistinct(a + b + [x])
  {
    var s := a + b + [x];
    forall i, j | 0 <= i < j < |s| ensures s[i] != s[j] {
      if j == |s| - 1 {
        if i < |a| {
          assert s[i] == a[i];
        } else {
          assert s[i] == b[i - |a|];
        }
      } else if j < |a| {
        assert s[i] == a[i] && s[j] == a[j];
      } else if i < |a| {
        assert s[i] == a[i] && s[j] == b[j - |a|];
      } else {
        assert s[i] == b[i - |a|] && s[j] == b[j - |a|];
      }
    }
  }

  /** The candidate list holds no URL twice, so no load is ever retried. */
  lemma CandidateUrlsDistinct(coverId: Option<int>, isbn: Option<seq<string>>)
    ensures AllDistinct(CandidateUrls(coverId, isbn))
  {
    var byId := if TruthyNumber(coverId) then SizedUrls("id", IntToString(coverId.value)) else [];
    var byIsbn := if HasIsbn(isbn) then SizedUrls("isbn", isbn.value[0]) else [];
    assert CandidateUrls(coverId, isbn) == byId + byIsbn + [Placeholder];
    if TruthyNumber(coverId) {
      SizedUrlsDistinct("id", IntToString(coverId.value));
    }
    if HasIsbn(isbn) {
      SizedUrlsDistinct("isbn", isbn.value[0]);
    }
    if TruthyNumber(coverId) && HasIsbn(isbn) {
      SizedUrlsDisjoint(IntToString(coverId.value), isbn.value[0]);
    }
    DistinctConcat(byId, byIsbn, Placeholder);
  }

  /** `candidateImageUrls`: pushes the id URLs size by size, then the ISBN URLs,
      then the placeholder. */
  method BuildCandidateUrls(book: Book) returns (urls: seq<string>)
    ensures urls == CandidateUrls(book.coverId, book.isbn)
  {
    urls := [];
    ghost var byId: seq<string> := [];
    if TruthyNumber(book.coverId) {
      var id := IntToString(book.coverId.value);
      byId := SizedUrls("id", id);
      for i := 0 to |Sizes|
        invariant urls == byId[..i]
      {
        urls := urls + [CoverUrl("id", id, Sizes[i])];
      }
    }
    assert urls == byId;
    ghost var byIsbn: seq<string> := [];
    if HasIsbn(book.isbn) {
      var firstIsbn := book.isbn.value[0];
      byIsbn := SizedUrls("isbn", firstIsbn);
      for i := 0 to |Sizes|
        invariant urls == byId + byIsbn[..i]
      {
        urls := urls + [CoverUrl("isbn", firstIsbn, Sizes[i])];
      }
    }
    assert urls == byId + byIsbn;
    urls := urls + [Placeholder];
  }

  // ---------------------------------------------------------------------------
  // Image fallback state
  // ---------------------------------------------------------------------------

  function Min(a: int, b: int): int {
    if a <= b then a else b
  }

  /** The index `handleImageError` moves to: one further, but never past the last entry. */
  function NextIndex(index: nat, count: nat): (r: nat)
    requires count > 0
    ensures r < count
    ensures index < count ==> index <= r && (r == index <==> index == count - 1)
  {
    Min(index + 1, count - 1)
  }

  /** The index after `k` load errors, starting from the first candidate. */
  function IndexAfterErrors(k: nat, count: nat): nat
    requires count > 0
  {
    if k == 0 then 0 else NextIndex(IndexAfterErrors(k - 1, count), count)
  }

  /** After `k` errors the card shows candidate `min(k, count - 1)`: every entry
      is tried once, in order, and the placeholder is kept from then on. */
  lemma {:induction false} ErrorsWalkTheList(k: nat, count: nat)
    requires count > 0
    ensures IndexAfterErrors(k, count) == Min(k, count - 1)
  {
    if k > 0 {
      ErrorsWalkTheList(k - 1, count);
    }
  }

  /** The image state of a card: the memoised candidate list and the index of
      the candidate currently shown. */
  class CoverImage {
    var candidates: seq<string>
    var imageIndex: nat

    /** The candidate list always ends with the placeholder. */
    ghost predicate Valid()
      reads this
    {
      |candidates| > 0 && candidates[|candidates| - 1] == Placeholder
    }

    constructor (book: Book)
      ensures Valid()
      ensures candidates == CandidateUrls(book.coverId, book.isbn) && imageIndex == 0
    {
      var urls := BuildCandidateUrls(book);
      candidates := urls;
      imageIndex := 0;
    }

    /** `currentImageUrl`: the index is clamped, so the lookup is always in bounds. */
    function CurrentUrl(): (url: string)
      reads this
      requires Valid()
      ensures url == candidates[Min(imageIndex, |candidates| - 1)]
      ensures imageIndex >= |candidates| - 1 ==> url == Placeholder
    {
      candidates[Min(imageIndex, |candidates| - 1)]
    }

    /** `handleImageError`. */
    method HandleImageError()
      requires Valid()
      modifies this
      ensures Valid() && candidates == old(candidates)
      ensures imageIndex == NextIndex(old(imageIndex), |candidates|)
    {
      imageIndex := Min(imageIndex + 1, |candidates| - 1);
    }

    /** A new `cover_i` or `isbn` recomputes the list; the index state is kept. */
    method BookChanged(book: Book)
      modifies this
      ensures Valid()
      ensures candidates == CandidateUrls(book.coverId, book.isbn) && imageIndex == old(imageIndex)
    {
      var urls := BuildCandidateUrls(book);
      candidates := urls;
    }
  }

  /** Once the placeholder is shown, further errors keep it. */
  lemma PlaceholderSticks(index: nat, count: nat)
    requires count > 0 && index == count - 1
    ensures NextIndex(index, count) == index
  {
  }

  // ---------------------------------------------------------------------------
  // Text formatters
  // ---------------------------------------------------------------------------

  const UnknownAuthor := "Unknown Author"
  const UnknownYear := "Unknown Year"

  /** `getAuthorDisplay`. */
  function AuthorDisplay(book: Book): (text: string)
    ensures book.authorName == [] ==> text == UnknownAuthor
    ensures |book.authorName| == 1 ==> text == book.authorName[0]
  {
    if book.authorName == [] then UnknownAuthor else Join(book.authorName, ", ")
  }

  /** The author line loses no name: splitting it at `", "` gives the names
      back, provided no name holds a comma. */
  lemma AuthorDisplayRoundTrip(book: Book)
    requires book.authorName != []
    requires forall k | 0 <= k < |book.authorName| :: ',' !in book.authorName[k]
    ensures SplitCommaSpace(AuthorDisplay(book)) == book.authorName
  {
    SplitJoin(book.authorName);
  }

  /** `getYearDisplay`, as the text the card shows. */
  function YearDisplay(book: Book): (text: string)
    ensures text == UnknownYear <==>
      !TruthyNumber(book.firstPublishYear) && !(book.publishYears.Some? && |book.publishYears.value| > 0)
    ensures TruthyNumber(book.firstPublishYear) ==> text == IntToString(book.firstPublishYear.value)
    ensures !TruthyNumber(book.firstPublishYear) && book.publishYears.Some? && |book.publishYears.value| > 0 ==>
      text == IntToString(book.publishYears.value[0])
  {
    if TruthyNumber(book.firstPublishYear) then
      NumberIsNotUnknownYear(book.firstPublishYear.value);
      IntToString(book.firstPublishYear.value)
    else if book.publishYears.Some? && |book.publishYears.value| > 0 then
      NumberIsNotUnknownYear(book.publishYears.value[0]);
      IntToString(book.publishYears.value[0])
    else UnknownYear
  }

  /** A rendered number starts with a digit or `-`, so it is never the fallback text. */
  lemma NumberIsNotUnknownYear(n: int)
    ensures IntToString(n) != UnknownYear
  {
    var s := IntToString(n);
    if n >= 0 {
      assert IsDigit(NatToString(n)[0]);
    }
    assert s[0] != 'U';
  }

  /** `getSubjects`: at most the first three subjects. */
  function Subjects(book: Book): (shown: seq<string>)
    ensures book.subjects.None? ==> shown == []
    ensures book.subjects.Some? ==>
      |shown| == Min(3, |book.subjects.value|) && shown == book.subjects.value[..|shown|]
  {
    if book.subjects.None? || |book.subjects.value| == 0 then []
    else book.subjects.value[..Min(3, |book.subjects.value|)]
  }

  /** The subject chips of a card: the list view shows `getSubjects()`, the grid
      view only its first two. */
  function ShownSubjects(book: Book, view: ViewMode): (shown: seq<string>)
    ensures |shown| <= (if view == Grid then 2 else 3)
    ensures book.subjects.Some? ==> |shown| == Min(if view == Grid then 2 else 3, |book.subjects.value|)
    ensures book.subjects.Some? ==> shown == book.subjects.value[..|shown|]
    ensures book.subjects.None? ==> shown == []
  {
    var subjects := Subjects(book);
    if view == List then subjects
    else
      assert view == Grid;
      assert book.subjects.Some? ==> Min(2, |subjects|) == Min(2, |book.subjects.value|);
      assert book.subjects.Some? ==> subjects[..Min(2, |subjects|)] == book.subjects.value[..Min(2, |subjects|)];
      subjects[..Min(2, |subjects|)]
  }

  /** `getEditionCount`: `""` for a falsy count, otherwise the count and
      `edition`, plural above one. */
  function EditionText(book: Book): (text: string)
    ensures text == "" <==> !TruthyNumber(book.editionCount)
    ensures book.editionCount == Some(1) ==> text == "1 edition"
  {
    if TruthyNumber(book.editionCount) then
      var n := book.editionCount.value;
      IntToString(n) + " edition" + (if n > 1 then "s" else "")
    else ""
  }

  /** The edition text reads back as the count and the right word. */
  lemma EditionTextParts(book: Book)
    requires TruthyNumber(book.editionCount)
    ensures var n := book.editionCount.value;
      SplitAtChar(EditionText(book), ' ') ==
        Some((IntToString(n), if n > 1 then "editions" else "edition"))
  {
    var n := book.editionCount.value;
    var digits := IntToString(n);
    assert ' ' !in digits by {
      if n >= 0 {
        assert forall i | 0 <= i < |digits| :: IsDigit(digits[i]);
      } else {
        var d := NatToString(-n);
        assert forall i | 0 <= i < |d| :: IsDigit(d[i]);
        assert forall i | 1 <= i < |digits| :: digits[i] == d[i - 1];
      }
    }
    var word := if n > 1 then "editions" else "edition";
    assert EditionText(book) == digits + [' '] + word;
    SplitAtCharOf(digits, ' ', word);
  }
}
