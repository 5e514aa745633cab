/** The results list: the sort selection, the comparator derived from it, and
    the sorted copy of the books that is rendered. */
module BookResults {
  import opened Text
  import opened BookService
  import BookCard

  /** The sort buttons; any other value behaves like relevance. */
  datatype SortField = Relevance | Title | Author | Year
  datatype SortOrder = Asc | Desc

  /** The value a book is compared by. */
  datatype SortKey = TextKey(text: string) | NumberKey(number: int)

  function Flip(order: SortOrder): (r: SortOrder)
    ensures r != order
  {
    if order == Asc then Desc else Asc
  }

  /** `handleSort(field)`: the current field flips the order, another field is
      selected with the order reset to descending. */
  function SortAfter(sortBy: SortField, sortOrder: SortOrder, field: SortField): (r: (SortField, SortOrder))
    ensures r.0 == field
    ensures field == sortBy ==> r.1 != sortOrder
    ensures field != sortBy ==> r.1 == Desc
  {
    if sortBy == field then (sortBy, Flip(sortOrder)) else (field, Desc)
  }

  /** Pressing the same sort button twice restores the order when that field
      was already selected, and ends in ascending order otherwise. */
  lemma SortTwice(sortBy: SortField, sortOrder: SortOrder, field: SortField)
    ensures var (f, o) := SortAfter(sortBy, sortOrder, field);
      SortAfter(f, o, field) == (field, if field == sortBy then sortOrder else Asc)
  {
  }

  /** The key of a book: lower-cased title, lower-cased first author (or `""`),
      or the first publication year (0 when falsy). */
  function Key(field: SortField, b: Book): SortKey {
    match field
    case Title => TextKey(ToLower(b.title))
    case Author => TextKey(if b.authorName == [] then "" else ToLower(b.authorName[0]))
    case Year => NumberKey(if TruthyNumber(b.firstPublishYear) then b.firstPublishYear.value else 0)
    case Relevance => NumberKey(0)
  }

  /** JavaScript `<` on two keys of the same field. */
  predicate KeyLess(x: SortKey, y: SortKey) {
    match (x, y)
    case (TextKey(s), TextKey(t)) => LexLess(s, t)
    case (NumberKey(m), NumberKey(n)) => m < n
    case _ => false
  }

  /** The comparator passed to `sort`: 0 under relevance, otherwise 1 or -1 and
      never 0, even on equal keys. */
  function Compare(field: SortField, order: SortOrder, a: Book, b: Book): (r: int)
    ensures field == Relevance <==> r == 0
    ensures order == Asc && field != Relevance ==> (r == 1 <==> KeyLess(Key(field, b), Key(field, a)))
    ensures order == Desc && field != Relevance ==> (r == 1 <==> KeyLess(Key(field, a), Key(field, b)))
  {
    if field == Relevance then 0
    else
      var x, y := Key(field, a), Key(field, b);
      if order == Asc then (if KeyLess(y, x) then 1 else -1)
      else (if KeyLess(x, y) then 1 else -1)
  }

  /** `a` may stay in front of `b`: the comparator does not ask for a swap. */
  predicate InOrder(field: SortField, order: SortOrder, a: Book, b: Book) {
    Compare(field, order, a, b) <= 0
  }

  predicate Sorted(field: SortField, order: SortOrder, s: seq<Book>) {
    forall p, q | 0 <= p < q < |s| :: InOrder(field, order, s[p], s[q])
  }

  /** Keys of one field are never of two kinds. */
  lemma KeysAlike(field: SortField, a: Book, b: Book)
    ensures Key(field, a).TextKey? == Key(field, b).TextKey?
  {
  }

  lemma InOrderTotal(field: SortField, order: SortOrder, a: Book, b: Book)
    ensures InOrder(field, order, a, b) || InOrder(field, order, b, a)
  {
    var x, y := Key(field, a), Key(field, b);
    if x.TextKey? && y.TextKey? {
      LexAsymmetric(x.text, y.text);
    }
  }

  lemma InOrderTransitive(field: SortField, order: SortOrder, a: Book, b: Book, c: Book)
    requires InOrder(field, order, a, b) && InOrder(field, order, b, c)
    ensures InOrder(field, order, a, c)
  {
    var x, y, z := Key(field, a), Key(field, b), Key(field, c);
    KeysAlike(field, a, b);
    KeysAlike(field, b, c);
    if field != Relevance && x.TextKey? {
      LexTotal(x.text, y.text);
      LexTotal(y.text, z.text);
      LexTotal(x.text, z.text);
      if order == Asc {
        // not (y < x), not (z < y): so not (z < x)
        if LexLess(z.text, x.text) {
          if x.text == y.text {
          } else if LexLess(x.text, y.text) {
            if y.text == z.text {
            } else {
              LexTransitive(z.text, x.text, y.text);
            }
          }
        }
      } else {
        if LexLess(x.text, z.text) {
          if x.text == y.text {
          } else if LexLess(y.text, x.text) {
            if y.text == z.text {
            } else {
              LexTransitive(y.text, x.text, z.text);
            }
          }
        }
      }
    }
  }

  /** In ascending order the keys do not decrease, in descending order they do
      not increase. */
  lemma SortedKeys(field: SortField, order: SortOrder, s: seq<Book>, p: int, q: int)
    requires Sorted(field, order, s) && 0 <= p < q < |s|
    ensures order == Asc ==> !KeyLess(Key(field, s[q]), Key(field, s[p]))
    ensures order == Desc ==> !KeyLess(Key(field, s[p]), Key(field, s[q]))
  {
    assert InOrder(field, order, s[p], s[q]);
  }

  // ---------------------------------------------------------------------------
  // Sorting the copy
  // ---------------------------------------------------------------------------

  /** `le` is total and transitive: a comparator `sort` can order by. */
  ghost predicate TotalPreorder<T(!new)>(le: (T, T) -> bool) {
    && (forall x, y :: le(x, y) || le(y, x))
    && (forall x, y, z :: le(x, y) && le(y, z) ==> le(x, z))
  }

  predicate SortedBy<T>(s: seq<T>, le: (T, T) -> bool) {
    forall p, q | 0 <= p < q < |s| :: le(s[p], s[q])
  }

  /** All pairs of `s[..hi]` are ordered by `le`, except those touching index `gap`. */
  ghost predicate SortedExcept<T>(s: seq<T>, le: (T, T) -> bool, hi: int, gap: int)
    requires 0 <= hi <= |s|
  {
    forall p, q | 0 <= p < q < hi && p != gap && q != gap :: le(s[p], s[q])
  }

  /** One swap of the insertion step moves the gap left and keeps the invariant. */
  lemma SwapStep<T(!new)>(s: seq<T>, le: (T, T) -> bool, i: int, j: int)
    requires TotalPreorder(le)
    requires 0 < j <= i < |s|
    requires SortedExcept(s, le, i + 1, j)
    requires forall q | j < q <= i :: le(s[j], s[q])
    requires !le(s[j - 1], s[j])
    ensures var t := s[j - 1 := s[j]][j := s[j - 1]];
      SortedExcept(t, le, i + 1, j - 1) && (forall q | j - 1 < q <= i :: le(t[j - 1], t[q]))
  {
    var t := s[j - 1 := s[j]][j := s[j - 1]];
    assert le(s[j], s[j - 1]);
    forall q | j - 1 < q <= i ensures le(t[j - 1], t[q]) {
      if q > j {
        assert t[q] == s[q];
      }
    }
    forall p, q | 0 <= p < q < i + 1 && p != j - 1 && q != j - 1 ensures le(t[p], t[q]) {
      if p == j {
        assert t[p] == s[j - 1] && t[q] == s[q];
      } else if q == j {
        assert t[q] == s[j - 1] && t[p] == s[p];
      } else {
        assert t[p] == s[p] && t[q] == s[q];
      }
    }
  }

  /** Swapping two neighbours below `i` keeps the elements and everything after `i`. */
  lemma SwapKeeps<T>(s: seq<T>, i: int, j: int)
    requires 0 < j <= i < |s|
    ensures var t := s[j - 1 := s[j]][j := s[j - 1]];
      multiset(t) == multiset(s) && t[i + 1..] == s[i + 1..]
  {
    var t := s[j - 1 := s[j]][j := s[j - 1]];
    assert t[i + 1..] == s[i + 1..];
  }

  /** When the gap has stopped, the whole prefix is ordered. */
  lemma GapClosed<T(!new)>(s: seq<T>, le: (T, T) -> bool, i: int, j: int)
    requires TotalPreorder(le)
    requires 0 <= j <= i < |s|
    requires SortedExcept(s, le, i + 1, j)
    requires forall q | j < q <= i :: le(s[j], s[q])
    requires j == 0 || le(s[j - 1], s[j])
    ensures SortedBy(s[..i + 1], le)
  {
    forall p, q | 0 <= p < q < i + 1 ensures le(s[p], s[q]) {
      if q == j && p < j - 1 {
        assert le(s[p], s[j - 1]);
      }
    }
  }

  /** The state of the insertion step: `s[j]` is the element being moved, the
      rest of `s[..i + 1]` is ordered, `s[j]` is no greater than what follows it,
      and beyond `i` nothing has changed since `orig`. */
  ghost predicate Inserting<T(!new)>(s: seq<T>, orig: seq<T>, le: (T, T) -> bool, i: int, j: int) {
    && 0 <= j <= i < |s| == |orig|
    && SortedExcept(s, le, i + 1, j)
    && (forall q | j < q <= i :: le(s[j], s[q]))
    && s[i + 1..] == orig[i + 1..]
    && multiset(s) == multiset(orig)
    && (s == orig || exists x, y :: !le(x, y))
  }

  /** The insertion step starts with the gap at `i`. */
  lemma InsertingStart<T(!new)>(s: seq<T>, le: (T, T) -> bool, i: int)
    requires 0 <= i < |s| && SortedBy(s[..i], le)
    ensures Inserting(s, s, le, i, i)
  {
    assert forall p | 0 <= p < i :: s[p] == s[..i][p];
  }

  /** One swap keeps the insertion state, with the gap one place to the left. */
  lemma InsertingSwap<T(!new)>(s: seq<T>, orig: seq<T>, le: (T, T) -> bool, i: int, j: int)
    requires TotalPreorder(le)
    requires Inserting(s, orig, le, i, j) && j > 0 && !le(s[j - 1], s[j])
    ensures Inserting(s[j - 1 := s[j]][j := s[j - 1]], orig, le, i, j - 1)
  {
    SwapStep(s, le, i, j);
    SwapKeeps(s, i, j);
  }

  /** When the gap stops, the prefix up to `i` is ordered. */
  lemma InsertingDone<T(!new)>(s: seq<T>, orig: seq<T>, le: (T, T) -> bool, i: int, j: int)
    requires TotalPreorder(le)
    requires Inserting(s, orig, le, i, j) && (j == 0 || le(s[j - 1], s[j]))
    ensures SortedBy(s[..i + 1], le)
  {
    GapClosed(s, le, i, j);
  }

  /** Moves `a[i]` left into the ordered prefix `a[..i]`, swapping while `le`
      says the neighbours are out of order. */
  method InsertAt<T(!new)>(a: array<T>, i: int, le: (T, T) -> bool)
    requires TotalPreorder(le)
    requires 0 <= i < a.Length && SortedBy(a[..i], le)
    modifies a
    ensures SortedBy(a[..i + 1], le)
    ensures a[i + 1..] == old(a[i + 1..])
    ensures multiset(a[..]) == multiset(old(a[..]))
    ensures (forall x, y :: le(x, y)) ==> a[..] == old(a[..])
  {
    ghost var orig := a[..];
    InsertingStart(orig, le, i);
    var j := i;
    while j > 0 && !le(a[j - 1], a[j])
      invariant Inserting(a[..], orig, le, i, j)
      decreases j
    {
      InsertingSwap(a[..], orig, le, i, j);
      a[j - 1], a[j] := a[j], a[j - 1];
      j := j - 1;
    }
    InsertingDone(a[..], orig, le, i, j);
  }

  /** Insertion sort of `a` in place by `le`. */
  method InsertionSort<T(!new)>(a: array<T>, le: (T, T) -> bool)
    requires TotalPreorder(le)
    modifies a
    ensures SortedBy(a[..], le)
    ensures multiset(a[..]) == multiset(old(a[..]))
    ensures (forall x, y :: le(x, y)) ==> a[..] == old(a[..])
  {
    for i := 0 to a.Length
      invariant SortedBy(a[..i], le)
      invariant multiset(a[..]) == multiset(old(a[..]))
      invariant (forall x, y :: le(x, y)) ==> a[..] == old(a[..])
    {
      InsertAt(a, i, le);
    }
    assert a[..a.Length] == a[..];
  }

  /** The comparator of a sort selection orders like a total preorder. */
  lemma InOrderPreorder(field: SortField, order: SortOrder)
    ensures TotalPreorder((x, y) => InOrder(field, order, x, y))
  {
    forall x, y ensures InOrder(field, order, x, y) || InOrder(field, order, y, x) {
      InOrderTotal(field, order, x, y);
    }
    forall x, y, z | InOrder(field, order, x, y) && InOrder(field, order, y, z)
      ensures InOrder(field, order, x, z)
    {
      InOrderTransitive(field, order, x, y, z);
    }
  }

  /** `getSortedBooks`: `[]` for no books, otherwise a sorted permutation of a
      copy of `books`; under relevance the order is unchanged. */
  method GetSortedBooks(books: seq<Book>, field: SortField, order: SortOrder) returns (sorted: seq<Book>)
    ensures |sorted| == |books|
    ensures multiset(sorted) == multiset(books)
    ensures Sorted(field, order, sorted)
    ensures field == Relevance ==> sorted == books
  {
    if |books| == 0 {
      return [];
    }
    var a := new Book[|books|](k requires 0 <= k < |books| => books[k]);
    assert a[..] == books;
    var le := (x, y) => InOrder(field, order, x, y);
    InOrderPreorder(field, order);
    InsertionSort(a, le);
    sorted := a[..];
    assert SortedBy(sorted, le);
  }

  // ---------------------------------------------------------------------------
  // View state
  // ---------------------------------------------------------------------------

  /** The state of the results header: layout and sort selection. */
  class ResultsView {
    var viewMode: BookCard.ViewMode
    var sortBy: SortField
    var sortOrder: SortOrder

    constructor ()
      ensures viewMode == BookCard.Grid && sortBy == Relevance && sortOrder == Desc
    {
      viewMode := BookCard.Grid;
      sortBy := Relevance;
      sortOrder := Desc;
    }

    /** `handleSort(field)`. */
    method HandleSort(field: SortField)
      modifies this
      ensures (sortBy, sortOrder) == SortAfter(old(sortBy), old(sortOrder), field)
      ensures viewMode == old(viewMode)
    {
      if sortBy == field {
        sortOrder := if sortOrder == Asc then Desc else Asc;
      } else {
        sortBy := field;
        sortOrder := Desc;
      }
    }

    /** The order toggle, shown only while a field other than relevance is selected. */
    method ToggleOrder()
      requires sortBy != Relevance
      modifies this
      ensures sortOrder == Flip(old(sortOrder))
      ensures sortBy == old(sortBy) && viewMode == old(viewMode)
    {
      sortOrder := if sortOrder == Asc then Desc else Asc;
    }

    method SetViewMode(mode: BookCard.ViewMode)
      modifies this
      ensures viewMode == mode && sortBy == old(sortBy) && sortOrder == old(sortOrder)
    {
      viewMode := mode;
    }

    /** The books as rendered; "Showing N of M" then always has N equal to M. */
    method SortedBooks(books: seq<Book>) returns (sorted: seq<Book>)
      ensures |sorted| == |books| && multiset(sorted) == multiset(books)
      ensures Sorted(sortBy, sortOrder, sorted)
      ensures sortBy == Relevance ==> sorted == books
    {
      sorted := GetSortedBooks(books, sortBy, sortOrder);
    }
  }
}
