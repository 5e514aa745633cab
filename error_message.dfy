/** The error panel: ordered, case-sensitive substring checks that map an error
    message to the text and the icon shown. */
module ErrorMessage {
  import opened Wrappers
  import opened Text
  import opened BookService

  const NetworkText := "Network error. Please " + "check your internet " + "connection and try again."
  const NotFoundText := "No books found matching " + "your search criteria. " + "Try different keywords " +
    "or filters."
  const TooManyText := "Too many requests. " + "Please wait a moment " + "before trying again."
  const DefaultText := "An unexpected error " + "occurred. Please try again."

  const SearchIcon := "\U{1F50D}"
  const GlobeIcon := "\U{1F310}"
  const WarningIcon := "\U{26A0}\U{FE0F}"

  predicate MentionsNetwork(msg: string) {
    Contains(msg, "network") || Contains(msg, "fetch")
  }

  predicate MentionsNotFound(msg: string) {
    Contains(msg, "not found") || Contains(msg, "404")
  }

  predicate MentionsRateLimit(msg: string) {
    Contains(msg, "rate limit") || Contains(msg, "too many")
  }

  /** None of the checks matches. */
  predicate Unmatched(msg: string) {
    !MentionsNetwork(msg) && !MentionsNotFound(msg) && !MentionsRateLimit(msg)
  }

  /** `getErrorMessage(msg)`. */
  function GetErrorMessage(msg: string): (text: string)
    ensures text != ""
    ensures text == msg || text == NetworkText || text == NotFoundText || text == TooManyText
      || text == DefaultText
    ensures MentionsNetwork(msg) ==> text == NetworkText
    ensures !MentionsNetwork(msg) && MentionsNotFound(msg) ==> text == NotFoundText
    ensures !MentionsNetwork(msg) && !MentionsNotFound(msg) && MentionsRateLimit(msg) ==> text == TooManyText
    ensures Unmatched(msg) ==> text == (if msg == "" then DefaultText else msg)
  {
    if MentionsNetwork(msg) then NetworkText
    else if MentionsNotFound(msg) then NotFoundText
    else if MentionsRateLimit(msg) then TooManyText
    else if msg != "" then msg
    else DefaultText
  }

  /** `getErrorIcon(msg)`: the not-found check comes before the network check. */
  function GetErrorIcon(msg: string): (icon: string)
    ensures icon == SearchIcon || icon == GlobeIcon || icon == WarningIcon
    ensures icon == SearchIcon <==> MentionsNotFound(msg)
    ensures icon == GlobeIcon <==> !MentionsNotFound(msg) && MentionsNetwork(msg)
  {
    if MentionsNotFound(msg) then SearchIcon
    else if MentionsNetwork(msg) then GlobeIcon
    else WarningIcon
  }

  /** Text and icon tell the same story, unless a message matches both the
      network and the not-found checks: then the text speaks of the network
      while the icon is the magnifier. */
  lemma TextAndIcon(msg: string)
    ensures MentionsNetwork(msg) && MentionsNotFound(msg) ==>
      GetErrorMessage(msg) == NetworkText && GetErrorIcon(msg) == SearchIcon
    ensures !MentionsNetwork(msg) && MentionsNotFound(msg) ==>
      GetErrorMessage(msg) == NotFoundText && GetErrorIcon(msg) == SearchIcon
    ensures MentionsNetwork(msg) && !MentionsNotFound(msg) ==>
      GetErrorMessage(msg) == NetworkText && GetErrorIcon(msg) == GlobeIcon
    ensures Unmatched(msg) ==> GetErrorIcon(msg) == WarningIcon
  {
  }

  /** A concrete message of that kind. */
  lemma FetchAnd404Disagree()
    ensures GetErrorMessage("fetch 404") == NetworkText
    ensures GetErrorIcon("fetch 404") == SearchIcon
  {
    var m := "fetch 404";
    assert StartsWith(m, "fetch");
    assert Contains(m, "404") by {
      ContainsSuffix(m[6..], "404", 0);
      assert m[6..] == "404" && StartsWith(m[6..], "404");
      assert Contains(m[5..], "404") by { assert m[5..][1..] == m[6..]; }
      assert Contains(m[4..], "404") by { assert m[4..][1..] == m[5..]; }
      assert Contains(m[3..], "404") by { assert m[3..][1..] == m[4..]; }
      assert Contains(m[2..], "404") by { assert m[2..][1..] == m[3..]; }
      assert Contains(m[1..], "404") by { assert m[1..][1..] == m[2..]; }
    }
    TextAndIcon(m);
  }

  // ---------------------------------------------------------------------------
  // The service's own messages
  // ---------------------------------------------------------------------------

  /** A pair of adjacent characters missing from three pieces and from their
      two seams is missing from the whole. */
  lemma PairAbsent3(a: string, b: string, c: string, x: char, y: char)
    requires NoPair(a, x, y) && NoPair(b, x, y) && NoPair(c, x, y)
    requires a == [] || b == [] || a[|a| - 1] != x || b[0] != y
    requires b == [] || c == [] || b[|b| - 1] != x || c[0] != y
    requires b != []
    ensures NoPair(a + b + c, x, y)
  {
    NoPairConcat(a, b, x, y);
    NoPairConcat(a + b, c, x, y);
  }

  lemma NotFoundLacksNetwork()
    ensures !Contains(NotFoundMessage, "network")
  {
    assert 'w' !in "No books found ";
    assert 'w' !in "matching your ";
    assert 'w' !in "search criteria";
    MissingCharNotContained(NotFoundMessage, "network", 3);
  }

  lemma NotFoundLacksFetch()
    ensures !Contains(NotFoundMessage, "fetch")
  {
    PairAbsent3("No books found ", "matching your ", "search criteria", 'f', 'e');
    MissingPairNotContained(NotFoundMessage, "fetch", 0);
  }

  lemma NotFoundLacksNotFound()
    ensures !Contains(NotFoundMessage, "not found")
  {
    PairAbsent3("No books found ", "matching your ", "search criteria", 'n', 'o');
    MissingPairNotContained(NotFoundMessage, "not found", 0);
  }

  lemma NotFoundLacksCode404()
    ensures !Contains(NotFoundMessage, "404")
  {
    assert '4' !in "No books found ";
    assert '4' !in "matching your ";
    assert '4' !in "search criteria";
    MissingCharNotContained(NotFoundMessage, "404", 0);
  }

  lemma NotFoundLacksRateLimit()
    ensures !Contains(NotFoundMessage, "rate limit")
  {
    assert 'l' !in "No books found ";
    assert 'l' !in "matching your ";
    assert 'l' !in "search criteria";
    MissingCharNotContained(NotFoundMessage, "rate limit", 5);
  }

  lemma NotFoundLacksTooMany()
    ensures !Contains(NotFoundMessage, "too many")
  {
    PairAbsent3("No books found ", "matching your ", "search criteria", 't', 'o');
    MissingPairNotContained(NotFoundMessage, "too many", 0);
  }

  lemma NotFoundNoNetworkCheck()
    ensures !MentionsNetwork(NotFoundMessage)
  {
    NotFoundLacksNetwork();
    NotFoundLacksFetch();
  }

  lemma NotFoundNoNotFoundCheck()
    ensures !MentionsNotFound(NotFoundMessage)
  {
    NotFoundLacksNotFound();
    NotFoundLacksCode404();
  }

  lemma NotFoundNoRateLimitCheck()
    ensures !MentionsRateLimit(NotFoundMessage)
  {
    NotFoundLacksRateLimit();
    NotFoundLacksTooMany();
  }

  lemma NotFoundMessageUnmatched()
    ensures Unmatched(NotFoundMessage)
  {
    NotFoundNoNetworkCheck();
    NotFoundNoNotFoundCheck();
    NotFoundNoRateLimitCheck();
  }

  lemma RateLimitLacksNetwork()
    ensures !Contains(RateLimitMessage, "network")
  {
    assert 'k' !in "Rate limit exceeded. ";
    assert 'k' !in "Please wait a moment ";
    assert 'k' !in "before trying again.";
    MissingCharNotContained(RateLimitMessage, "network", 6);
  }

  lemma RateLimitLacksFetch()
    ensures !Contains(RateLimitMessage, "fetch")
  {
    assert 'h' !in "Rate limit exceeded. ";
    assert 'h' !in "Please wait a moment ";
    assert 'h' !in "before trying again.";
    MissingCharNotContained(RateLimitMessage, "fetch", 4);
  }

  lemma RateLimitLacksNotFound()
    ensures !Contains(RateLimitMessage, "not found")
  {
    assert 'u' !in "Rate limit exceeded. ";
    assert 'u' !in "Please wait a moment ";
    assert 'u' !in "before trying again.";
    MissingCharNotContained(RateLimitMessage, "not found", 6);
  }

  lemma RateLimitLacksCode404()
    ensures !Contains(RateLimitMessage, "404")
  {
    assert '4' !in "Rate limit exceeded. ";
    assert '4' !in "Please wait a moment ";
    assert '4' !in "before trying again.";
    MissingCharNotContained(RateLimitMessage, "404", 0);
  }

  lemma RateLimitLacksRateLimit()
    ensures !Contains(RateLimitMessage, "rate limit")
  {
    PairAbsent3("Rate limit exceeded. ", "Please wait a moment ", "before trying again.", 'r', 'a');
    MissingPairNotContained(RateLimitMessage, "rate limit", 0);
  }

  lemma RateLimitLacksTooMany()
    ensures !Contains(RateLimitMessage, "too many")
  {
    PairAbsent3("Rate limit exceeded. ", "Please wait a moment ", "before trying again.", 't', 'o');
    MissingPairNotContained(RateLimitMessage, "too many", 0);
  }

  lemma RateLimitNoNetworkCheck()
    ensures !MentionsNetwork(RateLimitMessage)
  {
    RateLimitLacksNetwork();
    RateLimitLacksFetch();
  }

  lemma RateLimitNoNotFoundCheck()
    ensures !MentionsNotFound(RateLimitMessage)
  {
    RateLimitLacksNotFound();
    RateLimitLacksCode404();
  }

  lemma RateLimitNoRateLimitCheck()
    ensures !MentionsRateLimit(RateLimitMessage)
  {
    RateLimitLacksRateLimit();
    RateLimitLacksTooMany();
  }

  lemma RateLimitMessageUnmatched()
    ensures Unmatched(RateLimitMessage)
  {
    RateLimitNoNetworkCheck();
    RateLimitNoNotFoundCheck();
    RateLimitNoRateLimitCheck();
  }

  lemma NetworkLacksNetwork()
    ensures !Contains(NetworkMessage, "network")
  {
    assert NoGapPair(NetworkMessage, 'n', 'w', 3);
    MissingGapPairNotContained(NetworkMessage, "network", 0, 3);
  }

  lemma NetworkLacksFetch()
    ensures !Contains(NetworkMessage, "fetch")
  {
    assert 'f' !in "Network error. ";
    assert 'f' !in "Please check your ";
    assert 'f' !in "internet connection.";
    MissingCharNotContained(NetworkMessage, "fetch", 0);
  }

  lemma NetworkLacksNotFound()
    ensures !Contains(NetworkMessage, "not found")
  {
    assert 'f' !in "Network error. ";
    assert 'f' !in "Please check your ";
    assert 'f' !in "internet connection.";
    MissingCharNotContained(NetworkMessage, "not found", 4);
  }

  lemma NetworkLacksCode404()
    ensures !Contains(NetworkMessage, "404")
  {
    assert '4' !in "Network error. ";
    assert '4' !in "Please check your ";
    assert '4' !in "internet connection.";
    MissingCharNotContained(NetworkMessage, "404", 0);
  }

  lemma NetworkLacksRateLimit()
    ensures !Contains(NetworkMessage, "rate limit")
  {
    assert 'm' !in "Network error. ";
    assert 'm' !in "Please check your ";
    assert 'm' !in "internet connection.";
    MissingCharNotContained(NetworkMessage, "rate limit", 7);
  }

  lemma NetworkLacksTooMany()
    ensures !Contains(NetworkMessage, "too many")
  {
    assert 'm' !in "Network error. ";
    assert 'm' !in "Please check your ";
    assert 'm' !in "internet connection.";
    MissingCharNotContained(NetworkMessage, "too many", 4);
  }

  lemma NetworkNoNetworkCheck()
    ensures !MentionsNetwork(NetworkMessage)
  {
    NetworkLacksNetwork();
    NetworkLacksFetch();
  }

  lemma NetworkNoNotFoundCheck()
    ensures !MentionsNotFound(NetworkMessage)
  {
    NetworkLacksNotFound();
    NetworkLacksCode404();
  }

  lemma NetworkNoRateLimitCheck()
    ensures !MentionsRateLimit(NetworkMessage)
  {
    NetworkLacksRateLimit();
    NetworkLacksTooMany();
  }

  lemma NetworkMessageUnmatched()
    ensures Unmatched(NetworkMessage)
  {
    NetworkNoNetworkCheck();
    NetworkNoNotFoundCheck();
    NetworkNoRateLimitCheck();
  }

  lemma UnreachableLacksNetwork()
    ensures !Contains(UnreachableMessage, "network")
  {
    assert 'w' !in "Unable to connect to ";
    assert 'w' !in "the book database. ";
    assert 'w' !in "Please try again later.";
    MissingCharNotContained(UnreachableMessage, "network", 3);
  }

  lemma UnreachableLacksFetch()
    ensures !Contains(UnreachableMessage, "fetch")
  {
    assert 'f' !in "Unable to connect to ";
    assert 'f' !in "the book database. ";
    assert 'f' !in "Please try again later.";
    MissingCharNotContained(UnreachableMessage, "fetch", 0);
  }

  lemma UnreachableLacksNotFound()
    ensures !Contains(UnreachableMessage, "not found")
  {
    assert 'f' !in "Unable to connect to ";
    assert 'f' !in "the book database. ";
    assert 'f' !in "Please try again later.";
    MissingCharNotContained(UnreachableMessage, "not found", 4);
  }

  lemma UnreachableLacksCode404()
    ensures !Contains(UnreachableMessage, "404")
  {
    assert '4' !in "Unable to connect to ";
    assert '4' !in "the book database. ";
    assert '4' !in "Please try again later.";
    MissingCharNotContained(UnreachableMessage, "404", 0);
  }

  lemma UnreachableLacksRateLimit()
    ensures !Contains(UnreachableMessage, "rate limit")
  {
    assert 'm' !in "Unable to connect to ";
    assert 'm' !in "the book database. ";
    assert 'm' !in "Please try again later.";
    MissingCharNotContained(UnreachableMessage, "rate limit", 7);
  }

  lemma UnreachableLacksTooMany()
    ensures !Contains(UnreachableMessage, "too many")
  {
    assert 'm' !in "Unable to connect to ";
    assert 'm' !in "the book database. ";
    assert 'm' !in "Please try again later.";
    MissingCharNotContained(UnreachableMessage, "too many", 4);
  }

  lemma UnreachableNoNetworkCheck()
    ensures !MentionsNetwork(UnreachableMessage)
  {
    UnreachableLacksNetwork();
    UnreachableLacksFetch();
  }

  lemma UnreachableNoNotFoundCheck()
    ensures !MentionsNotFound(UnreachableMessage)
  {
    UnreachableLacksNotFound();
    UnreachableLacksCode404();
  }

  lemma UnreachableNoRateLimitCheck()
    ensures !MentionsRateLimit(UnreachableMessage)
  {
    UnreachableLacksRateLimit();
    UnreachableLacksTooMany();
  }

  lemma UnreachableMessageUnmatched()
    ensures Unmatched(UnreachableMessage)
  {
    UnreachableNoNetworkCheck();
    UnreachableNoNotFoundCheck();
    UnreachableNoRateLimitCheck();
  }

  const StatusPrefix := "API request failed " + "with status "

  /** Three-digit statuses print as three digits. */
  lemma ThreeDigits(status: int)
    requires 100 <= status <= 999
    ensures |IntToString(status)| == 3 && AllDigits(IntToString(status))
  {
    assert NatToString(status) == NatToString(status / 10) + [DigitChar(status % 10)];
    assert NatToString(status / 10) == NatToString(status / 100) + [DigitChar((status / 10) % 10)];
  }

  /** A non-digit character absent from a prefix is absent after digits are appended. */
  lemma NonDigitAbsent(prefix: string, digits: string, c: char)
    requires c !in prefix && !IsDigit(c) && AllDigits(digits)
    ensures c !in prefix + digits
  {
    var m := prefix + digits;
    forall i | 0 <= i < |m| ensures m[i] != c {
      if i < |prefix| {
        assert m[i] == prefix[i];
      } else {
        assert m[i] == digits[i - |prefix|];
      }
    }
  }

  /** A non-digit character missing from the prefix is missing from the whole
      status message. */
  lemma StatusLacksChar(status: int, c: char)
    requires 100 <= status <= 999
    requires c !in "API request failed " && c !in "with status " && !IsDigit(c)
    ensures c !in StatusMessage(status)
  {
    assert StatusMessage(status) == StatusPrefix + IntToString(status);
    ThreeDigits(status);
    NonDigitAbsent(StatusPrefix, IntToString(status), c);
  }

  /** The letters the checks hang on are missing from the status message. */
  lemma StatusLetters(status: int)
    requires 100 <= status <= 999
    ensures var m := StatusMessage(status);
      'c' !in m && 'k' !in m && 'n' !in m && 'm' !in m
  {
    StatusLacksCK(status);
    StatusLacksNM(status);
  }

  lemma StatusLacksCK(status: int)
    requires 100 <= status <= 999
    ensures 'c' !in StatusMessage(status) && 'k' !in StatusMessage(status)
  {
    StatusLacksChar(status, 'c');
    StatusLacksChar(status, 'k');
  }

  lemma StatusLacksNM(status: int)
    requires 100 <= status <= 999
    ensures 'n' !in StatusMessage(status) && 'm' !in StatusMessage(status)
  {
    StatusLacksChar(status, 'n');
    StatusLacksChar(status, 'm');
  }

  /** The letter checks against the status message. */
  lemma StatusNoLetterChecks(status: int)
    requires 100 <= status <= 999
    ensures var m := StatusMessage(status);
      !MentionsNetwork(m) && !Contains(m, "not found") && !MentionsRateLimit(m)
  {
    var m := StatusMessage(status);
    StatusLetters(status);
    MissingCharNotContained(m, "fetch", 3);
    MissingCharNotContained(m, "network", 6);
    MissingCharNotContained(m, "not found", 0);
    MissingCharNotContained(m, "rate limit", 7);
    MissingCharNotContained(m, "too many", 4);
  }

  /** A '4' only occurs among the three digits, which would then be "404". */
  lemma StatusNo404(status: int)
    requires 100 <= status <= 999 && status != 404
    ensures !Contains(StatusMessage(status), "404")
  {
    var digits := IntToString(status);
    var m := StatusMessage(status);
    assert m == StatusPrefix + digits;
    ThreeDigits(status);
    assert '4' !in StatusPrefix;
    ContainsIff(m, "404");
    forall i | 0 <= i ensures !OccursAt(m, "404", i) {
      if i + 3 <= |m| {
        if i < |StatusPrefix| {
          assert m[i] == StatusPrefix[i];
          assert m[i..i + 3][0] == m[i];
        } else {
          assert i == |StatusPrefix|;
          assert m[i..i + 3] == digits;
          if digits == "404" {
            assert IntToString(404) == "404";
            IntToStringInjective(status, 404);
          }
        }
      }
    }
  }

  /** "API request failed with status N" for a three-digit status other than 404. */
  lemma StatusMessageUnmatched(status: int)
    requires 100 <= status <= 999 && status != 404
    ensures Unmatched(StatusMessage(status))
  {
    StatusNoLetterChecks(status);
    StatusNo404(status);
  }

  /** The errors the service raises for a response that arrived are shown word
      for word with the warning icon: none of them passes the case-sensitive
      checks, so the not-found and rate-limit texts and the magnifier are never
      reached through them. */
  lemma ServiceErrorsShownVerbatim(status: int, docs: Option<seq<RawRecord>>)
    requires 100 <= status <= 599
    ensures var r := SearchOutcome(Response(status, Json(docs)));
      r.Failure? ==>
        GetErrorMessage(r.error.message) == r.error.message &&
        GetErrorIcon(r.error.message) == WarningIcon
  {
    if !IsOk(status) {
      NotOkResponse(status, Json(docs));
      if status == 404 {
        NotFoundMessageUnmatched();
      } else if status == 429 {
        RateLimitMessageUnmatched();
      } else {
        StatusMessageUnmatched(status);
      }
    } else if docs.None? || docs.value == [] {
      NoDocsResponse(status, docs);
      NotFoundMessageUnmatched();
    } else {
      SuccessIff(Response(status, Json(docs)));
    }
  }

  /** The two transport texts of the service are shown word for word too. */
  lemma TransportErrorsShownVerbatim()
    ensures GetErrorMessage(NetworkMessage) == NetworkMessage
    ensures GetErrorMessage(UnreachableMessage) == UnreachableMessage
    ensures GetErrorIcon(NetworkMessage) == WarningIcon && GetErrorIcon(UnreachableMessage) == WarningIcon
  {
    NetworkMessageUnmatched();
    UnreachableMessageUnmatched();
  }
}
