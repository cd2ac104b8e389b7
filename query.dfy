/** The read-only queries over the catalog: the filtered view of the
    library page, the search page's matching rule, the statistics panel and
    the title lookup of the manage page. */
module Query {
  import opened Books
  import opened Text
  import opened Selection

  // ---------------------------------------------------------------------
  // Filtered view (library page)
  // ---------------------------------------------------------------------

  function InGenres(genres: set<Genre>): Book -> bool {
    (b: Book) => b.genre in genres
  }

  function InStatuses(statuses: set<Status>): Book -> bool {
    (b: Book) => b.status in statuses
  }

  function RatedAtLeast(minRating: Rating): Book -> bool {
    (b: Book) => b.rating >= minRating
  }

  /** One narrowing step of the view, applied only when its control is set. */
  function Narrow(s: seq<Book>, active: bool, p: Book -> bool): seq<Book> {
    if active then Keep(s, p) else s
  }

  /** The filtered view: narrow by genre when genres are chosen, then by
      status when statuses are chosen, then by rating when the minimum is
      above zero. */
  function Filter(library: seq<Book>, genres: set<Genre>, statuses: set<Status>, minRating: Rating): (r: seq<Book>)
    ensures |r| <= |library|
    ensures forall k :: 0 <= k < |r| ==> Admitted(r[k], genres, statuses, minRating)
  {
    var byGenre := Narrow(library, genres != {}, InGenres(genres));
    var byStatus := Narrow(byGenre, statuses != {}, InStatuses(statuses));
    var view := Narrow(byStatus, minRating > 0, RatedAtLeast(minRating));
    assert forall k :: 0 <= k < |view| ==> Admitted(view[k], genres, statuses, minRating) by {
      forall k | 0 <= k < |view| ensures Admitted(view[k], genres, statuses, minRating) {
        NarrowSound(library, genres != {}, InGenres(genres), view[k]);
        NarrowSound(byGenre, statuses != {}, InStatuses(statuses), view[k]);
        NarrowSound(byStatus, minRating > 0, RatedAtLeast(minRating), view[k]);
      }
    }
    view
  }

  /** What a narrowing step lets through was in its input and, when the
      step is active, passes its test. */
  lemma NarrowSound(s: seq<Book>, active: bool, p: Book -> bool, b: Book)
    ensures b in Narrow(s, active, p) ==> b in s && (active ==> p(b))
  {
    if active {
      KeepMembers(s, p, b);
    }
  }

  /** The intended criterion: each control either is unset or lets the book through. */
  predicate Admitted(b: Book, genres: set<Genre>, statuses: set<Status>, minRating: Rating) {
    && (genres == {} || b.genre in genres)
    && (statuses == {} || b.status in statuses)
    && (minRating == 0 || b.rating >= minRating)
  }

  function Admits(genres: set<Genre>, statuses: set<Status>, minRating: Rating): Book -> bool {
    b => Admitted(b, genres, statuses, minRating)
  }

  /** The predicate a narrowing step amounts to: it holds of everything
      when the step is skipped. */
  function Guarded(active: bool, p: Book -> bool): Book -> bool {
    b => !active || p(b)
  }

  lemma NarrowIsKeep(s: seq<Book>, active: bool, p: Book -> bool)
    ensures Narrow(s, active, p) == Keep(s, Guarded(active, p))
  {
  }

  /** The three chained steps select exactly the admitted books. */
  lemma FilterIsSelection(library: seq<Book>, genres: set<Genre>, statuses: set<Status>, minRating: Rating)
    ensures Filter(library, genres, statuses, minRating) == Keep(library, Admits(genres, statuses, minRating))
  {
    var g := Guarded(genres != {}, InGenres(genres));
    var st := Guarded(statuses != {}, InStatuses(statuses));
    var r := Guarded(minRating > 0, RatedAtLeast(minRating));
    var byGenre := Narrow(library, genres != {}, InGenres(genres));
    var byStatus := Narrow(byGenre, statuses != {}, InStatuses(statuses));
    NarrowIsKeep(library, genres != {}, InGenres(genres));
    NarrowIsKeep(byGenre, statuses != {}, InStatuses(statuses));
    NarrowIsKeep(byStatus, minRating > 0, RatedAtLeast(minRating));
    KeepKeep(library, g, st);
    KeepKeep(library, Both(g, st), r);
    KeepAgree(library, Both(Both(g, st), r), Admits(genres, statuses, minRating));
  }

  /** A book is in the view exactly when it is in the library and admitted. */
  lemma FilterMembers(library: seq<Book>, genres: set<Genre>, statuses: set<Status>, minRating: Rating, b: Book)
    ensures b in Filter(library, genres, statuses, minRating)
        <==> b in library && Admitted(b, genres, statuses, minRating)
  {
    FilterIsSelection(library, genres, statuses, minRating);
    KeepMembers(library, Admits(genres, statuses, minRating), b);
  }

  /** The view lists books in library order, each admitted book as often
      as the library holds it and no other book. */
  lemma FilterKeepsOrder(library: seq<Book>, genres: set<Genre>, statuses: set<Status>, minRating: Rating, b: Book)
    ensures IsSubsequence(Filter(library, genres, statuses, minRating), library)
    ensures multiset(Filter(library, genres, statuses, minRating))[b]
         == if Admitted(b, genres, statuses, minRating) then multiset(library)[b] else 0
  {
    FilterIsSelection(library, genres, statuses, minRating);
    KeepIsSubsequence(library, Admits(genres, statuses, minRating));
    KeepMultiplicity(library, Admits(genres, statuses, minRating), b);
  }

  /** Skipping the rating step at a minimum of 0 is the same as always
      applying it, since no rating is below 0. */
  lemma FilterRatingStepUnconditional(library: seq<Book>, genres: set<Genre>, statuses: set<Status>, minRating: Rating)
    ensures Filter(library, genres, statuses, minRating)
         == Keep(library, Both(Admits(genres, statuses, 0), RatedAtLeast(minRating)))
  {
    FilterIsSelection(library, genres, statuses, minRating);
    KeepAgree(library, Admits(genres, statuses, minRating), Both(Admits(genres, statuses, 0), RatedAtLeast(minRating)));
  }

  /** With no control set the view is the whole library, in order. */
  lemma FilterUnsetIsIdentity(library: seq<Book>)
    ensures Filter(library, {}, {}, 0) == library
  {
  }

  /** The view is the whole library exactly when every book is admitted. */
  lemma FilterWholeIff(library: seq<Book>, genres: set<Genre>, statuses: set<Status>, minRating: Rating)
    ensures Filter(library, genres, statuses, minRating) == library
        <==> forall k :: 0 <= k < |library| ==> Admitted(library[k], genres, statuses, minRating)
  {
    var p := Admits(genres, statuses, minRating);
    FilterIsSelection(library, genres, statuses, minRating);
    if Keep(library, p) == library {
      KeepAllOnly(library, p);
    }
    if forall k :: 0 <= k < |library| ==> Admitted(library[k], genres, statuses, minRating) {
      KeepAll(library, p);
    }
  }

  // ---------------------------------------------------------------------
  // Search (search page)
  // ---------------------------------------------------------------------

  /** The field the search page's radio button selects. */
  datatype SearchField = ByTitle | ByAuthor | ByNotes

  function FieldText(b: Book, field: SearchField): string {
    match field
    case ByTitle => b.title
    case ByAuthor => b.author
    case ByNotes => b.notes
  }

  /** Whether a book is a hit for an already lower-cased term: the term is
      a substring of the lower-cased field, and for notes the notes are
      non-empty. */
  function Matches(b: Book, lowered: string, field: SearchField): (r: bool)
    ensures r <==> Occurs(lowered, Lower(FieldText(b, field))) && (field == ByNotes ==> b.notes != [])
  {
    ContainsIff(lowered, Lower(FieldText(b, field)));
    match field
    case ByTitle => Contains(lowered, Lower(b.title))
    case ByAuthor => Contains(lowered, Lower(b.author))
    case ByNotes => b.notes != [] && Contains(lowered, Lower(b.notes))
  }

  function MatchesTerm(lowered: string, field: SearchField): Book -> bool {
    b => Matches(b, lowered, field)
  }

  /** The hits of a search, in library order. */
  function SearchResults(library: seq<Book>, term: string, field: SearchField): (r: seq<Book>)
    ensures |r| <= |library|
    ensures forall k :: 0 <= k < |r| ==> Matches(r[k], Lower(term), field)
  {
    var hits := Keep(library, MatchesTerm(Lower(term), field));
    assert forall k :: 0 <= k < |hits| ==> Matches(hits[k], Lower(term), field) by {
      forall k | 0 <= k < |hits| ensures Matches(hits[k], Lower(term), field) {
        KeepSatisfies(library, MatchesTerm(Lower(term), field), k);
      }
    }
    hits
  }

  /** A book is a hit exactly when it is in the library and the lower-cased
      term occurs in its lower-cased field; a book whose notes are empty is
      never a hit of a notes search. */
  lemma SearchMembers(library: seq<Book>, term: string, field: SearchField, b: Book)
    ensures b in SearchResults(library, term, field)
        <==> b in library && Occurs(Lower(term), Lower(FieldText(b, field)))
             && (field == ByNotes ==> b.notes != [])
  {
    KeepMembers(library, MatchesTerm(Lower(term), field), b);
    ContainsIff(Lower(term), Lower(FieldText(b, field)));
  }

  /** The hits are listed in library order, each as often as the library holds it. */
  lemma SearchKeepsOrder(library: seq<Book>, term: string, field: SearchField, b: Book)
    ensures IsSubsequence(SearchResults(library, term, field), library)
    ensures multiset(SearchResults(library, term, field))[b]
         == if Matches(b, Lower(term), field) then multiset(library)[b] else 0
  {
    KeepIsSubsequence(library, MatchesTerm(Lower(term), field));
    KeepMultiplicity(library, MatchesTerm(Lower(term), field), b);
  }

  /** The search ignores the case of the term. */
  lemma SearchIgnoresTermCase(library: seq<Book>, term: string, field: SearchField)
    ensures SearchResults(library, Lower(term), field) == SearchResults(library, term, field)
  {
    LowerIdempotent(term);
  }

  /** For a non-empty term the search's emptiness test on notes changes
      nothing: a non-empty term never occurs in empty notes. */
  lemma NotesTestRedundant(b: Book, term: string)
    requires term != []
    ensures Matches(b, Lower(term), ByNotes) == Contains(Lower(term), Lower(b.notes))
  {
  }

  /** A term that occurs in no book's field finds nothing. */
  lemma SearchAbsentTerm(library: seq<Book>, term: string, field: SearchField)
    requires forall k :: 0 <= k < |library| ==> !Occurs(Lower(term), Lower(FieldText(library[k], field)))
    ensures SearchResults(library, term, field) == []
  {
    var hits := SearchResults(library, term, field);
    if hits != [] {
      SearchMembers(library, term, field, hits[0]);
    }
  }

  // ---------------------------------------------------------------------
  // Statistics panel (library page)
  // ---------------------------------------------------------------------

  /** The statistics panel's figures over the whole library. ratingSum is
      the numerator of the average rating the panel shows. */
  datatype Stats = Stats(total: nat, completed: nat, reading: nat, ratingSum: nat)

  function HasStatus(s: Status): Book -> bool {
    (b: Book) => b.status == s
  }

  /** The number of books whose status is s. */
  function CountStatus(library: seq<Book>, s: Status): (n: nat)
    ensures n <= |library|
    ensures n == |library| <==> forall k :: 0 <= k < |library| ==> library[k].status == s
  {
    KeepLengthIff(library, HasStatus(s));
    |Keep(library, HasStatus(s))|
  }

  /** The sum of all ratings. */
  function RatingSum(library: seq<Book>): (r: nat)
    ensures r <= 5 * |library|
  {
    if library == [] then 0 else library[0].rating + RatingSum(library[1..])
  }

  /** The panel's figures: Total Books is the length of the whole library,
      Books Read and Currently Reading together never exceed it, and the
      rating sum is at most five per book. */
  function Statistics(library: seq<Book>): (r: Stats)
    ensures r.total == |library|
    ensures r.completed + r.reading <= r.total
    ensures r.ratingSum <= 5 * r.total
  {
    StatusCountsPartition(library);
    Stats(|library|, CountStatus(library, Completed), CountStatus(library, Reading), RatingSum(library))
  }

  /** Counting one more book: its own status's count grows by one. */
  lemma {:induction false} CountStatusAppend(library: seq<Book>, b: Book, s: Status)
    ensures CountStatus(library + [b], s) == CountStatus(library, s) + (if b.status == s then 1 else 0)
  {
    KeepSnoc(library, b, HasStatus(s));
  }

  /** Counting without the book at i: its own status's count drops by one. */
  lemma CountStatusRemove(library: seq<Book>, i: nat, s: Status)
    requires i < |library|
    ensures CountStatus(library[..i] + library[i + 1..], s)
         == CountStatus(library, s) - (if library[i].status == s then 1 else 0)
  {
    assert library == library[..i] + ([library[i]] + library[i + 1..]);
    KeepConcat(library[..i], [library[i]] + library[i + 1..], HasStatus(s));
    KeepConcat([library[i]], library[i + 1..], HasStatus(s));
    KeepConcat(library[..i], library[i + 1..], HasStatus(s));
  }

  /** Every book has exactly one of the four statuses. */
  lemma {:induction false} StatusCountsPartition(library: seq<Book>)
    ensures CountStatus(library, Unread) + CountStatus(library, Reading)
          + CountStatus(library, Completed) + CountStatus(library, OnHold) == |library|
  {
    if library != [] {
      StatusCountsPartition(library[1..]);
      assert CountStatus(library, library[0].status) == CountStatus(library[1..], library[0].status) + 1;
    }
  }

  // ---------------------------------------------------------------------
  // Title lookup (manage page)
  // ---------------------------------------------------------------------

  /** The titles the manage page offers, in library order. */
  function Titles(library: seq<Book>): (r: seq<string>)
    ensures |r| == |library|
    ensures forall i :: 0 <= i < |library| ==> r[i] == library[i].title
  {
    if library == [] then [] else [library[0].title] + Titles(library[1..])
  }

  /** The position of the first book with the given title, if any. */
  function FindIndexByTitle(library: seq<Book>, title: string): (r: Option<nat>)
    ensures r.Some? ==> r.value < |library| && library[r.value].title == title
    ensures r.Some? ==> forall j :: 0 <= j < r.value ==> library[j].title != title
    ensures r.None? ==> forall j :: 0 <= j < |library| ==> library[j].title != title
  {
    if library == [] then None
    else if library[0].title == title then Some(0)
    else match FindIndexByTitle(library[1..], title)
      case None => None
      case Some(i) => Some(i + 1)
  }

  /** A title chosen from the offered titles is always found. */
  lemma SelectedTitleFound(library: seq<Book>, title: string)
    requires title in Titles(library)
    ensures FindIndexByTitle(library, title).Some?
  {
  }

  /** With two books of the same title, selecting that title always picks
      the earlier one: the later one cannot be reached through the lookup. */
  lemma LaterDuplicateUnreachable(library: seq<Book>, i: nat, j: nat)
    requires i < j < |library| && library[i].title == library[j].title
    ensures FindIndexByTitle(library, library[j].title).Some?
    ensures FindIndexByTitle(library, library[j].title).value <= i
  {
  }

  // ---------------------------------------------------------------------
  // Worked examples
  // ---------------------------------------------------------------------

  /** A single fiction book is all a fiction-only view shows, and the
      title search "dun" finds "Dune". */
  lemma DuneExample()
    ensures Filter([Book("Dune", "Herbert", Fiction, Unread, 0, "2024-01-01", "")], {Fiction}, {}, 0)
         == [Book("Dune", "Herbert", Fiction, Unread, 0, "2024-01-01", "")]
    ensures SearchResults([Book("Dune", "Herbert", Fiction, Unread, 0, "2024-01-01", "")], "dun", ByTitle)
         == [Book("Dune", "Herbert", Fiction, Unread, 0, "2024-01-01", "")]
  {
  }

  /** Two books rated 3 and 5: two in total, rating sum 8 (average 4.0). */
  lemma TwoRatingsExample(a: Book, b: Book)
    requires a.rating == 3 && b.rating == 5
    ensures Statistics([a, b]).total == 2 && Statistics([a, b]).ratingSum == 8
  {
    assert [a, b][1..] == [b] && [b][1..] == [];
    assert RatingSum([b]) == 5;
  }
}
