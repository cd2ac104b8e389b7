# Personal Library Manager: catalog core in Dafny

The Personal Library Manager is a single-page Streamlit application that keeps
a list of books in the session. Each book has a title, author, genre, reading
status, rating, date added and notes. The application lets the user add books,
view the list through genre, status and minimum-rating filters, read a small
statistics panel, search one field case-insensitively, and edit or delete a
book picked by its title. This project models that catalog core and proves
what each of those operations does to the list or returns from it.

Modules, one per component of the program:

- `Books` (books.dfy): the `Book` record, the eight genres and four statuses
  the forms offer, the 0..5 rating the sliders produce, and the labels stored
  for genres and statuses.
- `Text` (text.dfy): lower-casing and Python's substring test `needle in hay`,
  with the substring test proved equal to "occurs at some position".
- `Selection` (selection.dfy): `Keep`, the order-preserving selection that both
  the filtered view and the search are built from. Its lemmas cover
  membership, multiplicity, subsequence, composition and concatenation.
- `Query` (query.dfy): the filtered view, the search's matching rule and
  result list, the statistics figures and the title lookup, each as functions
  with lemmas.
- `Catalog` (library.dfy): the `Library` class. It holds the session's
  `books: seq<Book>` and a ghost `persisted` copy for the backing file. Its
  methods are add, update, delete and the search loop. A client method
  `AddThenView` adds one book, then filters and searches the list.

The model follows the code in these details:

- Only adding checks that title and author are non-empty. An edit stores the
  form's title and author as they are, so a `Book` may carry empty strings.
- The statistics are computed over the whole library, not over the filtered
  view.
- The filter skips the rating step when the minimum is 0. Since every rating
  is at least 0, this is the same as always applying it (`FilterRatingStepUnconditional`).
- An empty search term runs no search. `Library.Search` returns `None` for it.

## Model

| member | source | states |
|---|---|---|
| `Books.GenreLabel` | library_manager.py:46-47 | the label stored for each of the eight genres; each label reads back through `ParseGenre` as its own genre |
| `Books.StatusLabel` | library_manager.py:51 | the label stored for each of the four statuses; each label reads back through `ParseStatus` as its own status |
| `Books.ParseGenreSound` | library_manager.py:189-192 | `ParseGenre` reads a stored genre label back, as the edit form's `.index(book['genre'])` does to preselect it: a label read back as a genre is that genre's label, and a label read back as nothing is no genre's label |
| `Books.ParseStatusSound` | library_manager.py:194-197 | `ParseStatus` reads a stored status label back, as the edit form's `.index(book['status'])` does to preselect it: a label read back as a status is that status's label, and a label read back as nothing is no status's label |
| `Text.LowerChar` | library_manager.py:147 | the result is never an upper-case ASCII letter; an upper-case letter becomes the letter at the same place in the lower-case alphabet; every other character is unchanged |
| `Text.LowerCharIdempotent` | library_manager.py:147 | lower-casing an already lower-cased character changes nothing |
| `Text.Lower` | library_manager.py:147-154 | lower-casing keeps the length and maps every character through the character rule |
| `Text.LowerIdempotent` | library_manager.py:147-154 | lower-casing an already lower-cased string changes nothing |
| `Text.LowerHasNoUpper` | library_manager.py:147 | a lower-cased string contains no upper-case ASCII letter |
| `Text.ContainsIff` | library_manager.py:150-154 | the substring test holds exactly when the needle occurs at some position of the text |
| `Text.NothingInEmpty` | library_manager.py:154 | a non-empty term never occurs in an empty string |
| `Text.EmptyInEverything` | library_manager.py:145 | the empty term occurs in every string, which is why the page runs no search for it |
| `Selection.KeepSnoc` | library_manager.py:149-155 | appending one element extends the selection by that element exactly when it qualifies |
| `Query.Filter` | library_manager.py:107-114 | the view, built as the three guarded narrowing steps; it is no longer than the library and every book in it passes all three conditions (meaning completed by `FilterIsSelection`, `FilterMembers`, `FilterKeepsOrder`) |
| `Query.NarrowSound` | library_manager.py:109-114 | a narrowing step lets through only books of its input, and only books passing its test when the step is active |
| `Query.NarrowIsKeep` | library_manager.py:109-114 | a narrowing step keeps the books its test admits when active, and every book when skipped |
| `Query.FilterIsSelection` | library_manager.py:107-114 | the three chained steps select, in order, exactly the books whose genre, status and rating are each unfiltered or admitted |
| `Query.FilterMembers` | library_manager.py:108-114 | a book is in the view iff it is in the library and passes all three conditions (AND) |
| `Query.FilterKeepsOrder` | library_manager.py:108-114 | the view is an order-preserving subsequence of the library and keeps each admitted book as often as the library holds it |
| `Query.FilterRatingStepUnconditional` | library_manager.py:113-114 | skipping the rating step at a minimum of 0 selects the same books as always keeping those rated at least the minimum |
| `Query.FilterUnsetIsIdentity` | library_manager.py:108-114 | with no genre, no status and a minimum of 0 the view is the whole library in order |
| `Query.FilterWholeIff` | library_manager.py:108-114 | the view is the whole library iff every book passes all three conditions |
| `Query.Matches` | library_manager.py:150-154 | a book matches a lower-cased term iff the term occurs at some position of its lower-cased chosen field and, for notes, the notes are non-empty |
| `Query.SearchResults` | library_manager.py:145-155 | the search's hits: no more books than the library holds, each one matching the lower-cased term (meaning completed by `SearchMembers`, `SearchKeepsOrder`) |
| `Query.SearchMembers` | library_manager.py:145-155 | a book is a hit iff it is in the library and the lower-cased term occurs in its lower-cased chosen field; for notes, empty notes never match |
| `Query.SearchKeepsOrder` | library_manager.py:146-155 | the hits are in library order, each hit as often as the library holds it |
| `Query.SearchIgnoresTermCase` | library_manager.py:147 | a term and its lower-cased form find the same books |
| `Query.NotesTestRedundant` | library_manager.py:154 | for a non-empty term the emptiness test on notes does not change the outcome |
| `Query.SearchAbsentTerm` | library_manager.py:157-161 | a term that occurs in no book's chosen field finds nothing |
| `Query.RatingSum` | library_manager.py:124 | the sum of the ratings, which the average divides by the count, is at most 5 per book |
| `Query.CountStatus` | library_manager.py:122-126 | the number of books with a status is at most the library's length, and equals it iff every book has that status |
| `Query.CountStatusAppend` | library_manager.py:122-126 | adding a book raises the count of its own status by one and leaves the other counts alone |
| `Query.CountStatusRemove` | library_manager.py:122-126 | removing the book at an index lowers the count of its status by one and leaves the other counts alone |
| `Query.StatusCountsPartition` | library_manager.py:51 | the four status counts add up to the number of books |
| `Query.Statistics` | library_manager.py:119-126 | the panel over the whole library: Total Books is its length, Books Read is the Completed count and Currently Reading the Reading count, which together never exceed the total; the rating sum is at most 5 per book |
| `Query.Titles` | library_manager.py:172 | the offered titles are the books' titles, one per book, in library order |
| `Query.FindIndexByTitle` | library_manager.py:176-179 | the result is the smallest index whose title matches; None only when no book has that title |
| `Query.SelectedTitleFound` | library_manager.py:170-179 | a title chosen from the offered titles is always found |
| `Query.LaterDuplicateUnreachable` | library_manager.py:176-179 | when two books share a title, the lookup picks one no later than the first of them |
| `Query.DuneExample` | library_manager.py:108-155 | a fiction-only view of a one-book fiction library shows that book, and "dun" finds "Dune" by title |
| `Query.TwoRatingsExample` | library_manager.py:120-124 | two books rated 3 and 5: total 2, rating sum 8 |
| `Catalog.Library.constructor` | library_manager.py:8-23 | the session starts with the saved list if there is one and an empty list otherwise, matching the file |
| `Catalog.Library.Add` | library_manager.py:62-77 | with a title and an author the book goes at the end with the submitted fields and the list is saved; otherwise nothing changes |
| `Catalog.Library.Update` | library_manager.py:208-218 | only the book at the index changes, the length stays, the date added is kept and every other field comes from the form; the list is saved |
| `Catalog.Library.Delete` | library_manager.py:222-224 | the list becomes the part before the index followed by the part after it, one shorter, and is saved |
| `Catalog.Library.Search` | library_manager.py:145-155 | no search for an empty term; otherwise the loop's result list is exactly the search's hits in library order |

## Left out

- Reading and writing the JSON file (lines 11-23). The constructor takes the loaded list, or `None` when no file exists. Each mutation copies the list into the ghost `persisted` field. Malformed files and write failures are not modelled. The load at line 23 is top-level script code, so it runs again on every rerun of the page, not only at start-up; because every mutation leaves `Saved()` true, such a reload gives back the list already in the session and changes nothing in the model.
- Streamlit widgets, forms, messages, `st.rerun` and table rendering. Widget values are method parameters and messages are the `Add` flag.
- pandas DataFrames. Row selection is modelled as sequence selection. The sorted lists of distinct genres and statuses (lines 94, 99) only build the filter's option lists.
- The average rating (line 124) is a float mean printed to one decimal, and the library page shows it only for a non-empty library. The model exposes the integer rating sum beside the total instead.
- Clock access for the default date (line 56). `dateAdded` is an opaque string supplied by the caller.
- `Text.LowerChar`, `Text.Lower`: lower-case ASCII letters only, so a character such as 'À' is left as it is; Python's `str.lower` also maps other Unicode letters and can change a string's length.
- `Query.FindIndexByTitle` returns `None` where the page's `next(...)` without a default (line 176) would raise `StopIteration`. The page never reaches that case, as `Query.SelectedTitleFound` shows.
- `Books.ParseGenre` and `Books.ParseStatus` return `None` for a label outside the choice lists, where the edit form's `list.index(...)` (lines 192 and 197) would raise `ValueError`. The forms only ever store labels from those lists, so the model's books never carry such a label.
- The manage page's `if book_to_edit` test (line 175): a book whose title was edited to the empty string is listed but cannot be opened. The model only states the lookup itself.
- `Catalog.Library.Update` and `Catalog.Library.Delete` require a valid index. The page only calls them with the index the title lookup returned, which `Query.SelectedTitleFound` shows always exists.
