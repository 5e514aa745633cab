/** The Open Library search service: building the `search.json` request from the
    search parameters, classifying the response, normalising each returned
    record, remapping transport errors, and the cover-image URL builder.

    The network is not modelled: the outcome of the request is an input value
    (`FetchOutcome`), and `SearchBooks` takes the fetch as a function parameter. */
module BookService {
  import opened Wrappers
  import opened Text
  import Uri

  // ---------------------------------------------------------------------------
  // Values
  // ---------------------------------------------------------------------------

  /** The parameter record the search form hands to the service. */
  datatype SearchParams = SearchParams(
    searchType: string, query: string, language: string, publishYear: string, subject: string)

  /** A JavaScript `Error`: its `name` and `message`. */
  datatype JsError = JsError(name: string, message: string)

  /** One entry of the `docs` array of a `search.json` response; every field may
      be missing (`None`).  Fields, in the order of the `fields=` list:
      key, title, author_name, first_publish_year, publish_year, cover_i,
      edition_count, language, subject, number_of_pages_median, isbn,
      ebook_access, has_fulltext. */
  datatype RawRecord = RawRecord(
    key: string,
    title: Option<string>,
    authorName: Option<seq<string>>,
    firstPublishYear: Option<int>,
    publishYears: Option<seq<int>>,
    coverId: Option<int>,
    editionCount: Option<int>,
    languages: Option<seq<string>>,
    subjects: Option<seq<string>>,
    pagesMedian: Option<int>,
    isbn: Option<seq<string>>,
    ebookAccess: Option<string>,
    hasFulltext: Option<bool>)

  /** A normalised book: every raw field (three of them with defaults filled in)
      plus the computed `hasCover`, `isEbook` and `pageCount`. */
  datatype Book = Book(
    key: string,
    title: string,
    authorName: seq<string>,
    firstPublishYear: Option<int>,
    publishYears: Option<seq<int>>,
    coverId: Option<int>,
    editionCount: Option<int>,
    languages: Option<seq<string>>,
    subjects: Option<seq<string>>,
    pagesMedian: Option<int>,
    isbn: Option<seq<string>>,
    ebookAccess: Option<string>,
    hasFulltext: Option<bool>,
    hasCover: bool,
    isEbook: bool,
    pageCount: Option<int>)

  /** The request handed to `fetch`: URL, HTTP method and headers. */
  datatype Request = Request(url: string, verb: string, headers: seq<(string, string)>)

  /** The parsed body: an object whose `docs` may be missing, or a body that
      `response.json()` rejects. */
  datatype Body = Json(docs: Option<seq<RawRecord>>) | Unparsable(error: JsError)

  /** What `fetch` produces: a rejection (a transport failure) or a response. */
  datatype FetchOutcome = Rejected(error: JsError) | Response(status: int, body: Body)

  /** JavaScript truthiness of an optional number (`NaN` is not modelled). */
  predicate TruthyNumber(v: Option<int>) {
    v.Some? && v.value != 0
  }

  /** JavaScript truthiness of an optional string. */
  predicate TruthyString(v: Option<string>) {
    v.Some? && v.value != ""
  }

  // ---------------------------------------------------------------------------
  // Query and URL
  // ---------------------------------------------------------------------------

  const ApiBase := "https://openlibrary.org"

  /** The `fields=` list of the search request. */
  const FieldList := "key,title,author_name," + "first_publish_year," + "publish_year,cover_i," +
    "edition_count,language," + "subject," + "number_of_pages_median," + "isbn,ebook_access," +
    "has_fulltext"

  const UserAgent := "BookFinder/1.0 " + "(Educational Project)"

  /** The field a search is scoped to; any type other than the three named ones
      searches everything. */
  datatype Scope = TitleScope | AuthorScope | SubjectScope | AnyScope

  function ScopeOf(searchType: string): Scope {
    if searchType == "title" then TitleScope
    else if searchType == "author" then AuthorScope
    else if searchType == "subject" then SubjectScope
    else AnyScope
  }

  function ScopePrefix(scope: Scope): string {
    match scope
    case TitleScope => "title:"
    case AuthorScope => "author:"
    case SubjectScope => "subject:"
    case AnyScope => ""
  }

  /** The `q=` value: scope prefix and encoded term, then each non-empty filter in
      a fixed order; language and year are inserted raw, the subject encoded. */
  function SearchQuery(p: SearchParams): string {
    ScopePrefix(ScopeOf(p.searchType)) + Uri.EncodeUriComponent(p.query)
    + LanguageFilter(p.language) + YearFilter(p.publishYear) + SubjectFilter(p.subject)
  }

  function LanguageFilter(language: string): string {
    if language != "" then "&language=" + language else ""
  }

  function YearFilter(publishYear: string): string {
    if publishYear != "" then "&first_publish_year=" + publishYear else ""
  }

  function SubjectFilter(subject: string): string {
    if subject != "" then "&subject=" + Uri.EncodeUriComponent(subject) else ""
  }

  /** The query as the service assembles it: a switch on the type, then one
      append per non-empty filter. */
  method BuildSearchQuery(p: SearchParams) returns (q: string)
    ensures q == SearchQuery(p)
  {
    var term := Uri.EncodeUriComponent(p.query);
    if p.searchType == "title" {
      q := "title:" + term;
    } else if p.searchType == "author" {
      q := "author:" + term;
    } else if p.searchType == "subject" {
      q := "subject:" + term;
    } else {
      q := term;
    }
    ghost var head := q;
    assert head == ScopePrefix(ScopeOf(p.searchType)) + term;
    if p.language != "" {
      q := q + ("&language=" + p.language);
    }
    ghost var withLanguage := q;
    assert withLanguage == head + LanguageFilter(p.language);
    if p.publishYear != "" {
      q := q + ("&first_publish_year=" + p.publishYear);
    }
    ghost var withYear := q;
    assert withYear == withLanguage + YearFilter(p.publishYear);
    if p.subject != "" {
      q := q + ("&subject=" + Uri.EncodeUriComponent(p.subject));
    }
    assert q == withYear + SubjectFilter(p.subject);
  }

  const UrlHead := ApiBase + "/search.json?q="
  const UrlTail := "&limit=50&fields=" + FieldList

  function ApiUrl(q: string): string {
    UrlHead + q + UrlTail
  }

  /** The request `searchBooks` sends for a given query. */
  function SearchRequest(q: string): Request {
    Request(ApiUrl(q), "GET", [("Accept", "application/json"), ("User-Agent", UserAgent)])
  }

  /** The query carried by a search URL, if it is one. */
  function QueryOfUrl(url: string): Option<string> {
    StripAffixes(url, UrlHead, UrlTail)
  }

  /** The URL is exactly the fixed head, the query and the fixed tail. */
  lemma ApiUrlLayout(q: string)
    ensures StartsWith(ApiUrl(q), UrlHead) && EndsWith(ApiUrl(q), UrlTail)
    ensures QueryOfUrl(ApiUrl(q)) == Some(q)
  {
    StripAffixesOf(UrlHead, q, UrlTail);
  }

  // --- Reading a query back --------------------------------------------------

  /** The components a query string carries. */
  datatype QueryParts = QueryParts(
    scope: Scope, term: string, language: string, publishYear: string, subject: string)

  function PartsOf(p: SearchParams): QueryParts {
    QueryParts(ScopeOf(p.searchType), p.query, p.language, p.publishYear, p.subject)
  }

  /** Splits the scope prefix off the head of the query. */
  function SplitScope(h: string): (Scope, string) {
    if StartsWith(h, "title:") then (TitleScope, h[6..])
    else if StartsWith(h, "author:") then (AuthorScope, h[7..])
    else if StartsWith(h, "subject:") then (SubjectScope, h[8..])
    else (AnyScope, h)
  }

  /** The scope and the decoded term of the head of a query. */
  function ParseHead(h: string): Option<(Scope, string)> {
    var (scope, encoded) := SplitScope(h);
    match Uri.DecodeUriComponent(encoded)
    case None => None
    case Some(term) => Some((scope, term))
  }

  /** Takes the value of the first segment if it is `name`; otherwise the filter is absent. */
  function TakeFilter(segments: seq<string>, name: string): (string, seq<string>) {
    if |segments| > 0 && StartsWith(segments[0], name) then (segments[0][|name|..], segments[1..])
    else ("", segments)
  }

  /** Reads the scope, term and filters back out of a query. */
  function ParseQuery(q: string): Option<QueryParts> {
    var segments := SplitOn(q, '&');
    match ParseHead(segments[0])
    case None => None
    case Some((scope, term)) =>
      var (language, r1) := TakeFilter(segments[1..], "language=");
      var (year, r2) := TakeFilter(r1, "first_publish_year=");
      var (subject, r3) := TakeFilter(r2, "subject=");
      if r3 != [] then None
      else match Uri.DecodeUriComponent(subject)
        case None => None
        case Some(s) => Some(QueryParts(scope, term, language, year, s))
  }

  /** Joins segments each preceded by `&`. */
  function AmpTail(segments: seq<string>): string
    decreases |segments|
  {
    if segments == [] then "" else "&" + segments[0] + AmpTail(segments[1..])
  }

  lemma {:induction false} AmpTailAppend(a: seq<string>, b: seq<string>)
    ensures AmpTail(a + b) == AmpTail(a) + AmpTail(b)
    decreases |a|
  {
    if a == [] {
      assert a + b == b;
    } else {
      assert (a + b)[1..] == a[1..] + b;
      AmpTailAppend(a[1..], b);
    }
  }

  lemma {:induction false} SplitAmpTail(head: string, segments: seq<string>)
    requires '&' !in head
    requires forall k | 0 <= k < |segments| :: '&' !in segments[k]
    ensures SplitOn(head + AmpTail(segments), '&') == [head] + segments
    decreases |segments|
  {
    if segments == [] {
      assert head + AmpTail(segments) == head;
      SplitOnAbsent(head, '&');
    } else {
      var rest := segments[0] + AmpTail(segments[1..]);
      assert head + AmpTail(segments) == head + ['&'] + rest;
      SplitOnCons(head, '&', rest);
      SplitAmpTail(segments[0], segments[1..]);
      assert segments == [segments[0]] + segments[1..];
    }
  }

  lemma SplitScopeOf(scope: Scope, e: string)
    requires ':' !in e
    ensures SplitScope(ScopePrefix(scope) + e) == (scope, e)
  {
    var h := ScopePrefix(scope) + e;
    match scope
    case TitleScope =>
      assert h[..6] == "title:" && h[6..] == e;
    case AuthorScope =>
      assert h[0] == 'a' && h[..7] == "author:" && h[7..] == e;
    case SubjectScope =>
      assert h[0] == 's' && h[1] == 'u' && h[..8] == "subject:" && h[8..] == e;
    case AnyScope =>
      assert h == e;
      if |e| >= 6 {
        assert e[5] != ':' && e[..6][5] == e[5];
      }
      if |e| >= 7 {
        assert e[6] != ':' && e[..7][6] == e[6];
      }
      if |e| >= 8 {
        assert e[7] != ':' && e[..8][7] == e[7];
      }
  }

  lemma ParseHeadRoundTrip(scope: Scope, term: string)
    ensures ParseHead(ScopePrefix(scope) + Uri.EncodeUriComponent(term)) == Some((scope, term))
  {
    Uri.EncodedHasNoSeparators(term);
    SplitScopeOf(scope, Uri.EncodeUriComponent(term));
    Uri.DecodeEncode(term);
  }

  /** The segments after the head, one per non-empty filter, in the fixed order. */
  function FilterSegments(p: SearchParams): seq<string> {
    LanguageSegments(p.language) + YearSegments(p.publishYear) + SubjectSegments(p.subject)
  }

  lemma TakeFilterPresent(name: string, v: string, rest: seq<string>)
    ensures TakeFilter([name + v] + rest, name) == (v, rest)
  {
    assert (name + v)[..|name|] == name && (name + v)[|name|..] == v;
  }

  lemma TakeFilterAbsent(segments: seq<string>, name: string)
    requires |name| > 0
    requires segments == [] || segments[0] == [] || segments[0][0] != name[0]
    ensures TakeFilter(segments, name) == ("", segments)
  {
    if |segments| > 0 && |name| <= |segments[0]| {
      assert segments[0][..|name|][0] == segments[0][0];
    }
  }

  lemma AmpTailSingle(x: string)
    ensures AmpTail([x]) == "&" + x
  {
    assert [x][1..] == [];
  }

  function LanguageSegments(language: string): seq<string> {
    if language != "" then ["language=" + language] else []
  }

  function YearSegments(publishYear: string): seq<string> {
    if publishYear != "" then ["first_publish_year=" + publishYear] else []
  }

  function SubjectSegments(subject: string): seq<string> {
    if subject != "" then ["subject=" + Uri.EncodeUriComponent(subject)] else []
  }

  lemma LanguageSegmentsTail(language: string)
    ensures AmpTail(LanguageSegments(language)) == LanguageFilter(language)
  {
    if language != "" {
      AmpTailSingle("language=" + language);
    }
  }

  lemma YearSegmentsTail(publishYear: string)
    ensures AmpTail(YearSegments(publishYear)) == YearFilter(publishYear)
  {
    if publishYear != "" {
      AmpTailSingle("first_publish_year=" + publishYear);
    }
  }

  lemma SubjectSegmentsTail(subject: string)
    ensures AmpTail(SubjectSegments(subject)) == SubjectFilter(subject)
  {
    if subject != "" {
      AmpTailSingle("subject=" + Uri.EncodeUriComponent(subject));
    }
  }

  lemma AmpTail3(a: seq<string>, b: seq<string>, c: seq<string>)
    ensures AmpTail(a + b + c) == AmpTail(a) + AmpTail(b) + AmpTail(c)
  {
    AmpTailAppend(a + b, c);
    AmpTailAppend(a, b);
  }

  /** The filters are the `&`-prefixed filter segments. */
  lemma FiltersAsAmpTail(p: SearchParams)
    ensures LanguageFilter(p.language) + YearFilter(p.publishYear) + SubjectFilter(p.subject)
         == AmpTail(FilterSegments(p))
  {
    AmpTail3(LanguageSegments(p.language), YearSegments(p.publishYear), SubjectSegments(p.subject));
    LanguageSegmentsTail(p.language);
    YearSegmentsTail(p.publishYear);
    SubjectSegmentsTail(p.subject);
  }

  lemma FilterSegmentsAmpFree(p: SearchParams)
    requires '&' !in p.language && '&' !in p.publishYear
    ensures forall k | 0 <= k < |FilterSegments(p)| :: '&' !in FilterSegments(p)[k]
  {
    Uri.EncodedHasNoSeparators(p.subject);
    assert '&' !in "language=" && '&' !in "first_publish_year=" && '&' !in "subject=";
  }

  /** The query splits at `&` into its head and one segment per non-empty filter. */
  lemma SearchQuerySegments(p: SearchParams)
    requires '&' !in p.language && '&' !in p.publishYear
    ensures SplitOn(SearchQuery(p), '&') ==
      [ScopePrefix(ScopeOf(p.searchType)) + Uri.EncodeUriComponent(p.query)] + FilterSegments(p)
  {
    var head := ScopePrefix(ScopeOf(p.searchType)) + Uri.EncodeUriComponent(p.query);
    HeadAmpFree(p.searchType, p.query);
    var filters := LanguageFilter(p.language) + YearFilter(p.publishYear) + SubjectFilter(p.subject);
    FiltersAsAmpTail(p);
    assert SearchQuery(p) == head + filters;
    FilterSegmentsAmpFree(p);
    SplitAmpTail(head, FilterSegments(p));
  }

  /** No scope prefix and no encoded term holds an `&`. */
  lemma HeadAmpFree(searchType: string, query: string)
    ensures '&' !in ScopePrefix(ScopeOf(searchType)) + Uri.EncodeUriComponent(query)
  {
    Uri.EncodedHasNoSeparators(query);
    assert '&' !in ScopePrefix(ScopeOf(searchType));
  }

  /** The filter segments read back as the raw language, the raw year and the
      encoded subject, with nothing left over. */
  lemma TakeFilters(p: SearchParams)
    ensures var (language, r1) := TakeFilter(FilterSegments(p), "language=");
      var (year, r2) := TakeFilter(r1, "first_publish_year=");
      var (subject, r3) := TakeFilter(r2, "subject=");
      language == p.language && year == p.publishYear &&
      subject == Uri.EncodeUriComponent(p.subject) && r3 == []
  {
    var subj := Uri.EncodeUriComponent(p.subject);
    var y := if p.publishYear != "" then ["first_publish_year=" + p.publishYear] else [];
    var s := if p.subject != "" then ["subject=" + subj] else [];
    var segs := FilterSegments(p);
    if p.language != "" {
      TakeFilterPresent("language=", p.language, y + s);
      assert segs == ["language=" + p.language] + (y + s);
    } else {
      assert segs == y + s;
      TakeFilterAbsent(segs, "language=");
    }
    if p.publishYear != "" {
      TakeFilterPresent("first_publish_year=", p.publishYear, s);
      assert y + s == ["first_publish_year=" + p.publishYear] + s;
    } else {
      assert y + s == s;
      TakeFilterAbsent(s, "first_publish_year=");
    }
    if p.subject != "" {
      TakeFilterPresent("subject=", subj, []);
      assert s == ["subject=" + subj] + [];
    } else {
      assert subj == "" && s == [];
      TakeFilterAbsent(s, "subject=");
    }
  }

  /** The query can be read back: scope, term and every filter are recovered,
      provided the raw language and year hold no `&`. */
  lemma ParseSearchQuery(p: SearchParams)
    requires '&' !in p.language && '&' !in p.publishYear
    ensures ParseQuery(SearchQuery(p)) == Some(PartsOf(p))
  {
    SearchQuerySegments(p);
    ParseHeadRoundTrip(ScopeOf(p.searchType), p.query);
    TakeFilters(p);
    Uri.DecodeEncode(p.subject);
  }

  /** The term and the subject are always encoded, so they can never inject
      another filter or scope into the query. */
  lemma EncodedPartsHaveNoSeparators(p: SearchParams)
    ensures '&' !in Uri.EncodeUriComponent(p.query) && ':' !in Uri.EncodeUriComponent(p.query)
    ensures '&' !in Uri.EncodeUriComponent(p.subject)
  {
    Uri.EncodedHasNoSeparators(p.query);
    Uri.EncodedHasNoSeparators(p.subject);
  }

  /** Language and year are inserted raw: a language carrying `&subject=` gives
      the same query as a separate subject filter. */
  lemma RawLanguageIsNotEscaped()
    ensures SearchQuery(SearchParams("title", "dune", "en&subject=x", "", ""))
         == SearchQuery(SearchParams("title", "dune", "en", "", "x"))
  {
    var p := SearchParams("title", "dune", "en&subject=x", "", "");
    var p' := SearchParams("title", "dune", "en", "", "x");
    Uri.EncodeUnescapedIdentity("dune");
    Uri.EncodeUnescapedIdentity("x");
    assert SearchQuery(p) == "title:" + "dune" + ("&language=" + "en&subject=x");
    assert SearchQuery(p') == "title:" + "dune" + ("&language=" + "en") + ("&subject=" + "x");
  }

  // ---------------------------------------------------------------------------
  // Normalisation of the returned records
  // ---------------------------------------------------------------------------

  /** One record as the service normalises it: fallback title, empty author
      list, falsy cover id dropped, and the three computed fields. */
  function Normalize(r: RawRecord): (b: Book)
    ensures b.title != "" && (TruthyString(r.title) ==> b.title == r.title.value)
    ensures !TruthyString(r.title) ==> b.title == "Untitled"
    ensures b.authorName == (if r.authorName.Some? then r.authorName.value else [])
    ensures b.hasCover <==> TruthyNumber(r.coverId)
    ensures b.coverId == (if b.hasCover then r.coverId else None)
    ensures b.isEbook <==> r.ebookAccess == Some("borrowable") || r.ebookAccess == Some("public")
    ensures b.pageCount.Some? <==> TruthyNumber(r.pagesMedian)
    ensures b.pageCount.Some? ==> b.pageCount == r.pagesMedian
    ensures b.key == r.key && b.firstPublishYear == r.firstPublishYear
    ensures b.publishYears == r.publishYears && b.editionCount == r.editionCount
    ensures b.languages == r.languages && b.subjects == r.subjects
    ensures b.pagesMedian == r.pagesMedian && b.isbn == r.isbn
    ensures b.ebookAccess == r.ebookAccess && b.hasFulltext == r.hasFulltext
  {
    Book(
      key := r.key,
      title := if TruthyString(r.title) then r.title.value else "Untitled",
      authorName := if r.authorName.Some? then r.authorName.value else [],
      firstPublishYear := r.firstPublishYear,
      publishYears := r.publishYears,
      coverId := if TruthyNumber(r.coverId) then r.coverId else None,
      editionCount := r.editionCount,
      languages := r.languages,
      subjects := r.subjects,
      pagesMedian := r.pagesMedian,
      isbn := r.isbn,
      ebookAccess := r.ebookAccess,
      hasFulltext := r.hasFulltext,
      hasCover := TruthyNumber(r.coverId),
      isEbook := r.ebookAccess == Some("borrowable") || r.ebookAccess == Some("public"),
      pageCount := if TruthyNumber(r.pagesMedian) then r.pagesMedian else None)
  }

  /** The invariant every normalised book satisfies. */
  predicate WellFormed(b: Book) {
    && b.title != ""
    && (b.hasCover <==> b.coverId.Some?)
    && (b.coverId.Some? ==> b.coverId.value != 0)
    && (b.isEbook <==> b.ebookAccess == Some("borrowable") || b.ebookAccess == Some("public"))
    && b.pageCount == (if TruthyNumber(b.pagesMedian) then b.pagesMedian else None)
  }

  /** A book seen as a raw record again (the shape a spread of it would have
      before the computed fields are recomputed). */
  function AsRecord(b: Book): RawRecord {
    RawRecord(b.key, Some(b.title), Some(b.authorName), b.firstPublishYear, b.publishYears,
      b.coverId, b.editionCount, b.languages, b.subjects, b.pagesMedian, b.isbn,
      b.ebookAccess, b.hasFulltext)
  }

  lemma NormalizeWellFormed(r: RawRecord)
    ensures WellFormed(Normalize(r))
  {
  }

  /** Normalising a normalised book changes nothing. */
  lemma NormalizeIdempotent(b: Book)
    requires WellFormed(b)
    ensures Normalize(AsRecord(b)) == b
  {
  }

  /** `docs.map(normalize)`: same length, same order. */
  function NormalizeAll(docs: seq<RawRecord>): (bs: seq<Book>)
    ensures |bs| == |docs|
    ensures forall i | 0 <= i < |docs| :: bs[i] == Normalize(docs[i])
    decreases |docs|
  {
    if docs == [] then [] else [Normalize(docs[0])] + NormalizeAll(docs[1..])
  }

  // ---------------------------------------------------------------------------
  // Response classification and error remapping
  // ---------------------------------------------------------------------------

  const NotFoundMessage := "No books found " + "matching your " + "search criteria"
  const RateLimitMessage := "Rate limit exceeded. " + "Please wait a moment " + "before trying again."
  const NetworkMessage := "Network error. " + "Please check your " + "internet connection."
  const UnreachableMessage := "Unable to connect to " + "the book database. " + "Please try again later."

  function StatusMessage(status: int): string {
    "API request failed " + "with status " + IntToString(status)
  }

  /** `new Error(message)`. */
  function MakeError(message: string): JsError {
    JsError("Error", message)
  }

  /** `response.ok`: the status is in the range 200 to 299. */
  predicate IsOk(status: int) {
    200 <= status <= 299
  }

  /** The error thrown for a response that is not ok. */
  function StatusError(status: int): JsError {
    if status == 404 then MakeError(NotFoundMessage)
    else if status == 429 then MakeError(RateLimitMessage)
    else MakeError(StatusMessage(status))
  }

  /** The body of the `try` block, after the request: what it returns or throws. */
  function TryOutcome(outcome: FetchOutcome): Result<seq<Book>, JsError> {
    match outcome
    case Rejected(e) => Failure(e)
    case Response(status, body) =>
      if !IsOk(status) then Failure(StatusError(status))
      else match body
        case Unparsable(e) => Failure(e)
        case Json(docs) =>
          if docs.None? || |docs.value| == 0 then Failure(MakeError(NotFoundMessage))
          else Success(NormalizeAll(docs.value))
  }

  /** The `catch` block: transport errors get a friendly text, all else is rethrown. */
  function CatchRemap(e: JsError): (r: JsError)
    ensures r == e || r == MakeError(NetworkMessage) || r == MakeError(UnreachableMessage)
    ensures e.name == "TypeError" && Contains(e.message, "fetch") ==> r == MakeError(NetworkMessage)
    ensures !Contains(e.message, "fetch") ==> r == e
    ensures !(e.name == "TypeError" && Contains(e.message, "fetch")) ==>
      (Contains(e.message, "Failed to fetch") ==> r == MakeError(UnreachableMessage)) &&
      (!Contains(e.message, "Failed to fetch") ==> r == e)
  {
    if e.name == "TypeError" && Contains(e.message, "fetch") then MakeError(NetworkMessage)
    else if Contains(e.message, "Failed to fetch") then
      ContainsSuffix(e.message, "Failed to fetch", 10);
      assert "Failed to fetch"[10..] == "fetch";
      MakeError(UnreachableMessage)
    else e
  }

  /** `searchBooks` once the request has been answered with `outcome`. */
  function SearchOutcome(outcome: FetchOutcome): Result<seq<Book>, JsError> {
    match TryOutcome(outcome)
    case Success(books) => Success(books)
    case Failure(e) => Failure(CatchRemap(e))
  }

  /** `searchBooks(params)`, with the call to `fetch` as a parameter. */
  method SearchBooks(p: SearchParams, fetch: Request -> FetchOutcome) returns (r: Result<seq<Book>, JsError>)
    ensures r == SearchOutcome(fetch(SearchRequest(SearchQuery(p))))
  {
    var q := BuildSearchQuery(p);
    var outcome := fetch(SearchRequest(q));
    r := SearchOutcome(outcome);
  }

  // --- Properties of the classification ---------------------------------------

  /** No fixed message of the service holds an upper-case `F`, so none of them
      contains "Failed to fetch". */
  lemma NotFoundNoCapitalF()
    ensures !Contains(NotFoundMessage, "Failed to fetch")
  {
    assert 'F' !in NotFoundMessage;
    MissingCharNotContained(NotFoundMessage, "Failed to fetch", 0);
  }

  lemma RateLimitNoCapitalF()
    ensures !Contains(RateLimitMessage, "Failed to fetch")
  {
    assert 'F' !in RateLimitMessage;
    MissingCharNotContained(RateLimitMessage, "Failed to fetch", 0);
  }

  lemma NetworkNoCapitalF()
    ensures !Contains(NetworkMessage, "Failed to fetch")
  {
    assert 'F' !in NetworkMessage;
    MissingCharNotContained(NetworkMessage, "Failed to fetch", 0);
  }

  lemma UnreachableNoCapitalF()
    ensures !Contains(UnreachableMessage, "Failed to fetch")
  {
    assert 'F' !in UnreachableMessage;
    MissingCharNotContained(UnreachableMessage, "Failed to fetch", 0);
  }

  lemma StatusMessageNoCapitalF(status: int)
    ensures !Contains(StatusMessage(status), "Failed to fetch")
  {
    var digits := IntToString(status);
    assert forall i | 0 <= i < |digits| :: digits[i] != 'F' by {
      if status < 0 {
        var d := NatToString(-status);
        assert forall i | 0 <= i < |d| :: IsDigit(d[i]);
        assert forall i | 1 <= i < |digits| :: digits[i] == d[i - 1];
      }
    }
    MissingCharNotContained(StatusMessage(status), "Failed to fetch", 0);
  }

  /** The errors the service throws itself leave the `catch` block unchanged. */
  lemma ServiceErrorsRethrown(status: int)
    ensures CatchRemap(StatusError(status)) == StatusError(status)
    ensures CatchRemap(MakeError(NotFoundMessage)) == MakeError(NotFoundMessage)
    ensures CatchRemap(MakeError(NetworkMessage)) == MakeError(NetworkMessage)
    ensures CatchRemap(MakeError(UnreachableMessage)) == MakeError(UnreachableMessage)
  {
    NotFoundNoCapitalF();
    RateLimitNoCapitalF();
    NetworkNoCapitalF();
    UnreachableNoCapitalF();
    StatusMessageNoCapitalF(status);
  }

  /** Remapping twice is remapping once. */
  lemma CatchRemapIdempotent(e: JsError)
    ensures CatchRemap(CatchRemap(e)) == CatchRemap(e)
  {
    NetworkNoCapitalF();
    UnreachableNoCapitalF();
  }

  /** A response that is not ok fails with the message its status selects. */
  lemma NotOkResponse(status: int, body: Body)
    requires !IsOk(status)
    ensures SearchOutcome(Response(status, body)) == Failure(StatusError(status))
    ensures status == 404 ==> SearchOutcome(Response(status, body)) == Failure(MakeError(NotFoundMessage))
    ensures status == 429 ==> SearchOutcome(Response(status, body)) == Failure(MakeError(RateLimitMessage))
    ensures status != 404 && status != 429 ==>
      SearchOutcome(Response(status, body)) == Failure(MakeError(StatusMessage(status)))
  {
    ServiceErrorsRethrown(status);
  }

  /** An ok response without documents fails with the not-found message. */
  lemma NoDocsResponse(status: int, docs: Option<seq<RawRecord>>)
    requires IsOk(status) && (docs.None? || docs.value == [])
    ensures SearchOutcome(Response(status, Json(docs))) == Failure(MakeError(NotFoundMessage))
  {
    ServiceErrorsRethrown(status);
  }

  /** Success happens exactly for an ok response with a non-empty `docs`, and
      then yields those documents normalised, so it is never an empty list. */
  lemma SuccessIff(outcome: FetchOutcome)
    ensures SearchOutcome(outcome).Success? <==>
      outcome.Response? && IsOk(outcome.status) && outcome.body.Json? &&
      outcome.body.docs.Some? && |outcome.body.docs.value| > 0
    ensures SearchOutcome(outcome).Success? ==>
      |SearchOutcome(outcome).value| > 0 &&
      SearchOutcome(outcome).value == NormalizeAll(outcome.body.docs.value)
  {
  }

  /** A browser's failed `fetch` (a `TypeError` "Failed to fetch") becomes the
      network message, so the "Unable to connect" branch needs an error of
      another name carrying that text. */
  lemma BrowserFetchFailure()
    ensures SearchOutcome(Rejected(JsError("TypeError", "Failed to fetch"))) ==
      Failure(MakeError(NetworkMessage))
    ensures SearchOutcome(Rejected(JsError("Error", "Failed to fetch"))) ==
      Failure(MakeError(UnreachableMessage))
  {
    var s := "Failed to fetch";
    assert StartsWith(s, s);
    ContainsSuffix(s, s, 10);
    assert s[10..] == "fetch";
  }

  // ---------------------------------------------------------------------------
  // Cover image URLs
  // ---------------------------------------------------------------------------

  const CoversBase := "https://covers." + "openlibrary.org/b/"

  /** `https://covers.openlibrary.org/b/<kind>/<value>-<size>.jpg`. */
  function CoverUrl(kind: string, value: string, size: string): string {
    CoversBase + kind + "/" + value + "-" + size + ".jpg"
  }

  /** `getCoverImageUrl(coverId, size = 'L')`; `None` for a missing size
      argument and for the `null` result. */
  function GetCoverImageUrl(coverId: Option<int>, size: Option<string>): (r: Option<string>)
    ensures r.Some? <==> TruthyNumber(coverId)
  {
    if !TruthyNumber(coverId) then None
    else Some(CoverUrl("id", IntToString(coverId.value), if size.Some? then size.value else "L"))
  }

  /** Reads kind, value and size back out of a cover URL. */
  function ParseCoverUrl(u: string): Option<(string, string, string)> {
    match StripAffixes(u, CoversBase, ".jpg")
    case None => None
    case Some(mid) =>
      match SplitAtChar(mid, '/')
      case None => None
      case Some((kind, rest)) =>
        match SplitAtChar(rest, '-')
        case None => None
        case Some((value, size)) => Some((kind, value, size))
  }

  lemma ParseCoverUrlRoundTrip(kind: string, value: string, size: string)
    requires '/' !in kind && '-' !in value
    ensures ParseCoverUrl(CoverUrl(kind, value, size)) == Some((kind, value, size))
  {
    var rest := value + ['-'] + size;
    var mid := kind + ['/'] + rest;
    assert CoverUrl(kind, value, size) == CoversBase + mid + ".jpg";
    StripAffixesOf(CoversBase, mid, ".jpg");
    SplitAtCharOf(kind, '/', rest);
    SplitAtCharOf(value, '-', size);
  }

  /** A positive cover id can be read back from its URL, with the requested
      size (or `L`). */
  lemma CoverIdRoundTrip(id: int, size: Option<string>)
    requires id > 0
    ensures GetCoverImageUrl(Some(id), size).Some?
    ensures var parsed := ParseCoverUrl(GetCoverImageUrl(Some(id), size).value);
      parsed.Some? && parsed.value.0 == "id" && AllDigits(parsed.value.1) &&
      DigitsValue(parsed.value.1) == id &&
      parsed.value.2 == (if size.Some? then size.value else "L")
  {
    var digits := NatToString(id);
    assert IntToString(id) == digits;
    assert forall i | 0 <= i < |digits| :: IsDigit(digits[i]);
    assert '-' !in digits;
    ParseCoverUrlRoundTrip("id", digits, if size.Some? then size.value else "L");
    NatToStringValue(id);
  }
}
