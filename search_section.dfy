/** The search form: its state, the submit guard, the parameters handed to the
    search, and the clear button. */
module SearchSection {
  import opened Wrappers
  import opened Text
  import opened BookService

  /** The search types offered by the form's buttons. */
  const SearchTypes: seq<string> := ["title", "author", "subject"]

  class SearchForm {
    var searchType: string
    var searchQuery: string
    var language: string
    var publishYear: string
    var subject: string
    var showAdvanced: bool

    /** The form as first rendered: a title search with every field empty and
        the advanced filters hidden. */
    constructor ()
      ensures searchType == "title" && searchQuery == ""
      ensures language == "" && publishYear == "" && subject == ""
      ensures !showAdvanced
    {
      searchType := "title";
      searchQuery := "";
      language := "";
      publishYear := "";
      subject := "";
      showAdvanced := false;
    }

    /** One of the search type buttons. */
    method SetSearchType(t: string)
      modifies this
      ensures searchType == t
      ensures searchQuery == old(searchQuery) && language == old(language)
      ensures publishYear == old(publishYear) && subject == old(subject)
      ensures showAdvanced == old(showAdvanced)
    {
      searchType := t;
    }

    /** Typing into the query input. */
    method SetSearchQuery(q: string)
      modifies this
      ensures searchQuery == q
      ensures searchType == old(searchType) && language == old(language)
      ensures publishYear == old(publishYear) && subject == old(subject)
      ensures showAdvanced == old(showAdvanced)
    {
      searchQuery := q;
    }

    /** Typing into the language filter. */
    method SetLanguage(v: string)
      modifies this
      ensures language == v
      ensures searchType == old(searchType) && searchQuery == old(searchQuery)
      ensures publishYear == old(publishYear) && subject == old(subject)
      ensures showAdvanced == old(showAdvanced)
    {
      language := v;
    }

    /** Typing into the publish year filter. */
    method SetPublishYear(v: string)
      modifies this
      ensures publishYear == v
      ensures searchType == old(searchType) && searchQuery == old(searchQuery)
      ensures language == old(language) && subject == old(subject)
      ensures showAdvanced == old(showAdvanced)
    {
      publishYear := v;
    }

    /** Typing into the subject filter. */
    method SetSubject(v: string)
      modifies this
      ensures subject == v
      ensures searchType == old(searchType) && searchQuery == old(searchQuery)
      ensures language == old(language) && publishYear == old(publishYear)
      ensures showAdvanced == old(showAdvanced)
    {
      subject := v;
    }

    /** The "Advanced Filters" button shows or hides the filters; their values
        are kept either way. */
    method ToggleAdvanced()
      modifies this
      ensures showAdvanced == !old(showAdvanced)
      ensures searchType == old(searchType) && searchQuery == old(searchQuery)
      ensures language == old(language) && publishYear == old(publishYear)
      ensures subject == old(subject)
    {
      showAdvanced := !showAdvanced;
    }

    /** The submit button is disabled exactly when the query is white space only
        (the empty query included). */
    function SubmitDisabled(): (disabled: bool)
      reads this
      ensures disabled <==> AllWhitespace(searchQuery)
    {
      TrimEmptyIff(searchQuery);
      Trim(searchQuery) == ""
    }

    /** `handleSubmit`: what is passed to `onSearch`, or `None` when the guard
        returns early.  The query is sent trimmed; the type and the three filters
        are sent as typed. */
    function HandleSubmit(): (r: Option<SearchParams>)
      reads this
      ensures r.None? <==> SubmitDisabled()
      ensures r.Some? ==>
        r.value.searchType == searchType && r.value.language == language &&
        r.value.publishYear == publishYear && r.value.subject == subject
      ensures r.Some? ==> r.value.query != "" && Trim(r.value.query) == r.value.query
      ensures r.Some? ==> exists i, j | 0 <= i <= j <= |searchQuery| ::
        r.value.query == searchQuery[i..j] &&
        AllWhitespace(searchQuery[..i]) && AllWhitespace(searchQuery[j..])
    {
      var q := Trim(searchQuery);
      TrimIdempotent(searchQuery);
      TrimIsSlice(searchQuery);
      if q == "" then None
      else Some(SearchParams(searchType, q, language, publishYear, subject))
    }

    /** `handleClear`: the query and the filters are emptied and the type goes
        back to title; whether the filters are shown is left as it was.  The
        caller's `onClear` is the application's `ClearResults`. */
    method HandleClear()
      modifies this
      ensures searchType == "title" && searchQuery == ""
      ensures language == "" && publishYear == "" && subject == ""
      ensures showAdvanced == old(showAdvanced)
      ensures SubmitDisabled()
    {
      searchQuery := "";
      language := "";
      publishYear := "";
      subject := "";
      searchType := "title";
    }
  }

  /** Every type the form offers reaches the service as a fielded search: the
      default branch of the service's switch is never taken from the form. */
  lemma FormTypesAreScoped(t: string)
    requires t in SearchTypes
    ensures ScopeOf(t) != AnyScope
    ensures ScopePrefix(ScopeOf(t)) == t + ":"
  {
  }
}
